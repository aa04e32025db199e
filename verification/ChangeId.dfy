/**
 * handleChangeID of the admin server, app/admin/internal/server/server.go: a user's id is replaced in a
 * list of columns, one UPDATE statement after the other, in one transaction.
 */
module ChangeId {
  import opened Go

  datatype Cell = Number(n: int64) | Text(s: string) | Null
  type Row = map<string, Cell>
  datatype Table = Table(columns: set<string>, rows: seq<Row>)
  type Database = map<string, Table>

  const PEER_TYPE := "peer_type"

  /** UPDATE table SET column=new WHERE column=old, with `AND peer_type=0` if it is guarded. */
  datatype Update = Update(table: string, column: string, guarded: bool)

  const MANDATORY: seq<Update> := [
    Update("users", "id", false),
    Update("bots", "bot_id", false),
    Update("bots", "creator_user_id", false),
    Update("auth_users", "user_id", false),
    Update("user_profile_photos", "user_id", false),
    Update("user_contacts", "owner_user_id", false),
    Update("user_contacts", "contact_user_id", false),
    Update("user_presences", "user_id", false),
    Update("user_notify_settings", "user_id", false),
    Update("user_peer_blocks", "user_id", false),
    Update("user_peer_settings", "user_id", false),
    Update("user_privacies", "user_id", false),
    Update("user_settings", "user_id", false),
    Update("username", "peer_id", true),
    Update("chat_participants", "user_id", false),
    Update("chat_participants", "inviter_user_id", false),
    Update("dialogs", "user_id", false),
    Update("devices", "user_id", false),
    Update("dialog_filters", "user_id", false),
    Update("phone_books", "user_id", false),
    Update("predefined_users", "registered_user_id", false)]

  /** Tables that may be missing. */
  const OPTIONAL: seq<Update> := [
    Update("user_pts_updates", "user_id", false),
    Update("auth_seq_updates", "user_id", false),
    Update("messages", "user_id", false),
    Update("messages", "sender_user_id", false)]

  // ---------------------------------------------------------------- one statement

  /** The statement looks at this cell of the row. */
  predicate Selects(u: Update, row: Row) {
    u.column in row && (u.guarded ==> PEER_TYPE in row && row[PEER_TYPE] == Number(0))
  }

  function SetRow(u: Update, oldId: int64, newId: int64, row: Row): Row {
    if Selects(u, row) && row[u.column] == Number(oldId) then row[u.column := Number(newId)] else row
  }

  function Exec(u: Update, oldId: int64, newId: int64, db: Database): Database {
    if u.table !in db then db
    else
      var t := db[u.table];
      db[u.table := Table(t.columns, seq(|t.rows|, i requires 0 <= i < |t.rows| => SetRow(u, oldId, newId, t.rows[i])))]
  }

  function ExecAll(us: seq<Update>, oldId: int64, newId: int64, db: Database): Database {
    if us == [] then db else Exec(us[|us| - 1], oldId, newId, ExecAll(us[..|us| - 1], oldId, newId, db))
  }

  // ---------------------------------------------------------------- one substitution

  /** Some statement looks at column `c` of this row of `table`. */
  predicate Refers(us: seq<Update>, table: string, row: Row, c: string) {
    exists u | u in us :: u.table == table && u.column == c && Selects(u, row)
  }

  function RenamedRow(us: seq<Update>, oldId: int64, newId: int64, table: string, row: Row): Row {
    map c | c in row :: if Refers(us, table, row, c) && row[c] == Number(oldId) then Number(newId) else row[c]
  }

  /** Everywhere at once, where some statement looks, `oldId` becomes `newId`. */
  function Renamed(us: seq<Update>, oldId: int64, newId: int64, db: Database): Database {
    map t | t in db ::
      Table(db[t].columns,
            seq(|db[t].rows|, i requires 0 <= i < |db[t].rows| => RenamedRow(us, oldId, newId, t, db[t].rows[i])))
  }

  /** No statement changes the column that a statement's condition looks at. */
  predicate GuardKept(us: seq<Update>) {
    forall u | u in us :: u.column != PEER_TYPE
  }

  lemma RowStep(us: seq<Update>, u: Update, oldId: int64, newId: int64, table: string, row: Row)
    requires GuardKept(us)
    ensures var before := RenamedRow(us, oldId, newId, table, row);
            RenamedRow(us + [u], oldId, newId, table, row) ==
              if u.table == table then SetRow(u, oldId, newId, before) else before
  {
    var before := RenamedRow(us, oldId, newId, table, row);
    assert PEER_TYPE in row ==> before[PEER_TYPE] == row[PEER_TYPE];
    assert Selects(u, before) <==> Selects(u, row);
    forall c | c in row
      ensures Refers(us + [u], table, row, c) <==>
                Refers(us, table, row, c) || (u.table == table && u.column == c && Selects(u, row))
    {
    }
  }

  /** The statements one after the other are the one substitution. */
  lemma {:induction false} SequentialIsSimultaneous(us: seq<Update>, oldId: int64, newId: int64, db: Database)
    requires GuardKept(us)
    ensures ExecAll(us, oldId, newId, db) == Renamed(us, oldId, newId, db)
  {
    if us == [] {
      assert forall t, i | t in db && 0 <= i < |db[t].rows| ::
          RenamedRow(us, oldId, newId, t, db[t].rows[i]) == db[t].rows[i];
      assert forall t | t in db :: Renamed(us, oldId, newId, db)[t].rows == db[t].rows;
      assert Renamed(us, oldId, newId, db) == db;
    } else {
      var before, u := us[..|us| - 1], us[|us| - 1];
      assert before + [u] == us;
      SequentialIsSimultaneous(before, oldId, newId, db);
      forall t, i | t in db && 0 <= i < |db[t].rows|
        ensures var r := RenamedRow(before, oldId, newId, t, db[t].rows[i]);
                RenamedRow(us, oldId, newId, t, db[t].rows[i]) == if u.table == t then SetRow(u, oldId, newId, r) else r
      {
        RowStep(before, u, oldId, newId, t, db[t].rows[i]);
      }
      hide SetRow;
      hide RenamedRow;
      var db', db'' := Renamed(us, oldId, newId, db), Exec(u, oldId, newId, Renamed(before, oldId, newId, db));
      assert forall t | t in db :: db''[t].rows == db'[t].rows;
      assert db'' == db';
    }
  }

  lemma RenamedDependsOnSet(us: seq<Update>, vs: seq<Update>, oldId: int64, newId: int64, db: Database)
    requires forall u :: u in us <==> u in vs
    ensures Renamed(us, oldId, newId, db) == Renamed(vs, oldId, newId, db)
  {
    forall t, i | t in db && 0 <= i < |db[t].rows|
      ensures RenamedRow(us, oldId, newId, t, db[t].rows[i]) == RenamedRow(vs, oldId, newId, t, db[t].rows[i])
    {
      var row := db[t].rows[i];
      assert forall c | c in row :: Refers(us, t, row, c) <==> Refers(vs, t, row, c);
    }
    hide RenamedRow;
    var db', db'' := Renamed(us, oldId, newId, db), Renamed(vs, oldId, newId, db);
    assert forall t | t in db :: db'[t].rows == db''[t].rows;
    assert db' == db'';
  }

  /** In whatever order, and however often each, the statements do the same. */
  lemma OrderIsIrrelevant(us: seq<Update>, vs: seq<Update>, oldId: int64, newId: int64, db: Database)
    requires GuardKept(us) && forall u :: u in us <==> u in vs
    ensures ExecAll(us, oldId, newId, db) == ExecAll(vs, oldId, newId, db)
  {
    SequentialIsSimultaneous(us, oldId, newId, db);
    SequentialIsSimultaneous(vs, oldId, newId, db);
    RenamedDependsOnSet(us, vs, oldId, newId, db);
  }

  // ---------------------------------------------------------------- listed places

  datatype Place = Place(table: string, row: nat, column: string)

  predicate Has(db: Database, p: Place) {
    p.table in db && p.row < |db[p.table].rows| && p.column in db[p.table].rows[p.row]
  }

  function At(db: Database, p: Place): Cell
    requires Has(db, p)
  {
    db[p.table].rows[p.row][p.column]
  }

  predicate Listed(us: seq<Update>, db: Database, p: Place) {
    Has(db, p) && Refers(us, p.table, db[p.table].rows[p.row], p.column)
  }

  /** `id` stands at a listed place. */
  predicate Stands(us: seq<Update>, db: Database, p: Place, id: int64) {
    Listed(us, db, p) && At(db, p) == Number(id)
  }

  ghost predicate Occurs(us: seq<Update>, db: Database, id: int64) {
    exists p :: Stands(us, db, p, id)
  }

  /** What the statements `us` do to a place; and whether a place is listed in `all` does not change. */
  lemma RenamedAt(us: seq<Update>, all: seq<Update>, oldId: int64, newId: int64, db: Database, p: Place)
    requires GuardKept(us)
    ensures var db' := Renamed(us, oldId, newId, db);
            && (Has(db', p) <==> Has(db, p))
            && (Listed(all, db', p) <==> Listed(all, db, p))
            && (Has(db, p) ==> At(db', p) == if Stands(us, db, p, oldId) then Number(newId) else At(db, p))
  {
    if Has(db, p) {
      var row := db[p.table].rows[p.row];
      var row' := RenamedRow(us, oldId, newId, p.table, row);
      assert PEER_TYPE in row ==> row'[PEER_TYPE] == row[PEER_TYPE];
      assert forall u :: Selects(u, row') <==> Selects(u, row);
    }
  }

  /** Two databases with the same tables, columns and rows. */
  predicate SameShape(db: Database, db': Database) {
    && db'.Keys == db.Keys
    && forall t | t in db :: db'[t].columns == db[t].columns && |db'[t].rows| == |db[t].rows|
         && forall i | 0 <= i < |db[t].rows| :: db'[t].rows[i].Keys == db[t].rows[i].Keys
  }

  lemma RenamedKeepsShape(us: seq<Update>, oldId: int64, newId: int64, db: Database)
    ensures SameShape(db, Renamed(us, oldId, newId, db))
  {
  }

  lemma SameEverywhere(db: Database, db': Database)
    requires SameShape(db, db') && forall p | Has(db, p) :: Has(db', p) && At(db', p) == At(db, p)
    ensures db' == db
  {
    forall t, i | t in db && 0 <= i < |db[t].rows|
      ensures db'[t].rows[i] == db[t].rows[i]
    {
      forall c | c in db[t].rows[i]
        ensures db'[t].rows[i][c] == db[t].rows[i][c]
      {
        assert Has(db, Place(t, i, c));
        assert At(db', Place(t, i, c)) == At(db, Place(t, i, c));
      }
    }
    assert forall t | t in db :: db'[t] == db[t];
  }

  /** Changing the id back restores the database exactly if the new id was free in every listed column. */
  lemma ChangingBackRestores(us: seq<Update>, oldId: int64, newId: int64, db: Database)
    requires GuardKept(us) && oldId != newId
    ensures ExecAll(us, newId, oldId, ExecAll(us, oldId, newId, db)) == db <==> !Occurs(us, db, newId)
  {
    var there := Renamed(us, oldId, newId, db);
    var back := Renamed(us, newId, oldId, there);
    SequentialIsSimultaneous(us, oldId, newId, db);
    SequentialIsSimultaneous(us, newId, oldId, there);
    RenamedKeepsShape(us, oldId, newId, db);
    RenamedKeepsShape(us, newId, oldId, there);
    forall p
      ensures Has(back, p) <==> Has(db, p)
      ensures Has(db, p) ==> At(back, p) == if Stands(us, db, p, newId) then Number(oldId) else At(db, p)
    {
      RenamedAt(us, us, oldId, newId, db, p);
      RenamedAt(us, us, newId, oldId, there, p);
    }
    if Occurs(us, db, newId) {
      var p :| Stands(us, db, p, newId);
      assert At(back, p) != At(db, p);
    } else {
      assert forall p | Has(db, p) :: At(back, p) == At(db, p);
      SameEverywhere(db, back);
    }
  }

  /** Two listed places hold the same value after the change exactly if they did before. */
  ghost predicate JoinsKept(all: seq<Update>, db: Database, db': Database)
    requires forall p | Has(db, p) :: Has(db', p)
  {
    forall p, q | Listed(all, db, p) && Listed(all, db, q) :: At(db, p) == At(db, q) <==> At(db', p) == At(db', q)
  }

  /** The statements `us` of `all` rename the id without merging it with, or splitting it from, itself. */
  ghost predicate CleanRename(us: seq<Update>, all: seq<Update>, oldId: int64, newId: int64, db: Database) {
    Occurs(us, db, oldId) ==>
      && !Occurs(all, db, newId)
      && forall q | Stands(all, db, q, oldId) :: Stands(us, db, q, oldId)
  }

  lemma JoinsByPlaces(us: seq<Update>, all: seq<Update>, oldId: int64, newId: int64, db: Database, db': Database)
    requires oldId != newId
    requires forall p | Has(db, p) ::
               Has(db', p) && At(db', p) == if Stands(us, db, p, oldId) then Number(newId) else At(db, p)
    requires forall p | Stands(us, db, p, oldId) :: Stands(all, db, p, oldId)
    ensures JoinsKept(all, db, db') <==> CleanRename(us, all, oldId, newId, db)
  {
    hide Refers;
    hide At;
    if p :| Stands(us, db, p, oldId) {
      if q :| Stands(all, db, q, newId) {
        assert At(db', p) == At(db', q) && At(db, p) != At(db, q);
      } else if q :| Stands(all, db, q, oldId) && !Stands(us, db, q, oldId) {
        assert At(db', p) != At(db', q) && At(db, p) == At(db, q);
      } else {
        assert forall q | Listed(all, db, q) :: !Stands(all, db, q, newId);
      }
    }
  }

  /**
   * Running the statements `us` out of `all` keeps every equality join between columns of `all` exactly if
   * the old id stands nowhere in `us`, or the new id stands nowhere in `all` and no statement that meets
   * the old id was left out.
   */
  lemma JoinsKeptExactly(us: seq<Update>, all: seq<Update>, oldId: int64, newId: int64, db: Database)
    requires GuardKept(us) && oldId != newId && forall u | u in us :: u in all
    ensures forall p | Has(db, p) :: Has(ExecAll(us, oldId, newId, db), p)
    ensures JoinsKept(all, db, ExecAll(us, oldId, newId, db)) <==> CleanRename(us, all, oldId, newId, db)
  {
    SequentialIsSimultaneous(us, oldId, newId, db);
    var db' := Renamed(us, oldId, newId, db);
    forall p
      ensures Has(db', p) <==> Has(db, p)
      ensures Has(db, p) ==> At(db', p) == if Stands(us, db, p, oldId) then Number(newId) else At(db, p)
      ensures Stands(us, db, p, oldId) ==> Stands(all, db, p, oldId)
    {
      RenamedAt(us, all, oldId, newId, db, p);
    }
    hide Stands;
    hide Renamed;
    JoinsByPlaces(us, all, oldId, newId, db, db');
  }

  /** A place in one of the columns `others` that no statement looks at. */
  predicate LeftAlone(us: seq<Update>, others: set<(string, string)>, db: Database, q: Place) {
    Has(db, q) && (q.table, q.column) in others && !Listed(us, db, q)
  }

  ghost predicate JoinsToOthersKept(us: seq<Update>, others: set<(string, string)>, db: Database, db': Database)
    requires forall p | Has(db, p) :: Has(db', p)
  {
    forall p, q | Listed(us, db, p) && LeftAlone(us, others, db, q) ::
      At(db, p) == At(db, q) <==> At(db', p) == At(db', q)
  }

  /**
   * Joins between listed places and others are kept exactly if the old id stands at no listed place, or
   * neither the old nor the new one stands at one of the others.
   */
  lemma JoinsToOthersExactly(us: seq<Update>, others: set<(string, string)>, oldId: int64, newId: int64, db: Database)
    requires GuardKept(us) && oldId != newId
    ensures forall p | Has(db, p) :: Has(ExecAll(us, oldId, newId, db), p)
    ensures JoinsToOthersKept(us, others, db, ExecAll(us, oldId, newId, db))
            <==> (Occurs(us, db, oldId) ==>
                    forall q | LeftAlone(us, others, db, q) :: At(db, q) != Number(oldId) && At(db, q) != Number(newId))
  {
    SequentialIsSimultaneous(us, oldId, newId, db);
    var db' := Renamed(us, oldId, newId, db);
    forall p
      ensures Has(db', p) <==> Has(db, p)
      ensures Has(db, p) ==> At(db', p) == if Stands(us, db, p, oldId) then Number(newId) else At(db, p)
    {
      RenamedAt(us, us, oldId, newId, db, p);
    }
    hide Renamed;
    hide Refers;
    hide At;
    if p :| Stands(us, db, p, oldId) {
      if q :| LeftAlone(us, others, db, q) && (At(db, q) == Number(oldId) || At(db, q) == Number(newId)) {
        assert At(db', q) == At(db, q);
        assert !(At(db, p) == At(db, q) <==> At(db', p) == At(db', q));
      }
    }
  }

  // ---------------------------------------------------------------- the handler

  const ALL: seq<Update> := MANDATORY + OPTIONAL

  datatype Response = Changed(oldId: int64, newId: int64) | MethodNotAllowed | BadRequest | Conflict | ServerError

  datatype Commit = Committed | ReplyLost | NotCommitted

  /** The count of users with this id is not zero. */
  predicate Taken(db: Database, id: int64) {
    && "users" in db
    && exists i | 0 <= i < |db["users"].rows| ::
         "id" in db["users"].rows[i] && db["users"].rows[i]["id"] == Number(id)
  }

  /** Some row of `users`, the first, the last or any other, has this id. */
  lemma TakenExactly(db: Database, id: int64)
    ensures Taken(db, id) <==>
              exists i: nat :: Stands([Update("users", "id", false)], db, Place("users", i, "id"), id)
  {
    var ids := Update("users", "id", false);
    assert ids in [ids];
    if Taken(db, id) {
      var i :| 0 <= i < |db["users"].rows| && "id" in db["users"].rows[i] && db["users"].rows[i]["id"] == Number(id);
      assert Selects(ids, db["users"].rows[i]);
      assert Stands([ids], db, Place("users", i, "id"), id);
    }
  }

  predicate Known(db: Database, u: Update) {
    && u.table in db && u.column in db[u.table].columns
    && (u.guarded ==> PEER_TYPE in db[u.table].columns)
  }

  /** A statement runs if its columns exist and the server accepts it. */
  predicate Runs(db: Database, u: Update, accepted: bool) {
    accepted && Known(db, u)
  }

  predicate AllRun(db: Database, us: seq<Update>, accepted: seq<bool>)
    requires |us| == |accepted|
  {
    forall i | 0 <= i < |us| :: Runs(db, us[i], accepted[i])
  }

  /** The statements that run. */
  function Running(db: Database, us: seq<Update>, accepted: seq<bool>): (r: seq<Update>)
    requires |us| == |accepted|
    ensures forall u | u in r :: u in us
  {
    if us == [] then []
    else
      var n := |us| - 1;
      Running(db, us[..n], accepted[..n]) + if Runs(db, us[n], accepted[n]) then [us[n]] else []
  }

  predicate GoodRequest(post: bool, pathId: Option<int64>, bodyId: Option<int64>) {
    post && pathId.Some? && bodyId.Some? && bodyId.value != 0 && bodyId.value != pathId.value
  }

  lemma NoGuardChanges()
    ensures GuardKept(ALL) && GuardKept(MANDATORY) && GuardKept(OPTIONAL)
  {
    assert |"peer_type"| == 9;
    assert forall i | 0 <= i < |ALL| :: ALL[i].column != PEER_TYPE;
  }

  lemma {:induction false} RunningIsPart(db: Database, us: seq<Update>, accepted: seq<bool>, u: Update)
    requires |us| == |accepted|
    ensures u in Running(db, us, accepted) <==> exists i :: 0 <= i < |us| && us[i] == u && Runs(db, u, accepted[i])
  {
    if us == [] {
    } else {
      var n := |us| - 1;
      RunningIsPart(db, us[..n], accepted[..n], u);
    }
  }

  lemma SameTablesRun(us: seq<Update>, oldId: int64, newId: int64, db: Database)
    requires GuardKept(us)
    ensures forall u, accepted :: Runs(ExecAll(us, oldId, newId, db), u, accepted) == Runs(db, u, accepted)
  {
    SequentialIsSimultaneous(us, oldId, newId, db);
    RenamedKeepsShape(us, oldId, newId, db);
  }

  /** The loop over the mandatory statements: the first failure ends it. */
  method RunMandatory(db: Database, us: seq<Update>, oldId: int64, newId: int64, accepted: seq<bool>)
    returns (tx: Option<Database>)
    requires GuardKept(us) && |accepted| == |us|
    ensures tx == if AllRun(db, us, accepted) then Some(ExecAll(us, oldId, newId, db)) else None
  {
    var state := db;
    for i := 0 to |us|
      invariant state == ExecAll(us[..i], oldId, newId, db)
      invariant forall j | 0 <= j < i :: Runs(db, us[j], accepted[j])
    {
      SameTablesRun(us[..i], oldId, newId, db);
      if !Runs(state, us[i], accepted[i]) { return None; }
      state := Exec(us[i], oldId, newId, state);
      assert us[..i + 1][..i] == us[..i];
    }
    assert us[..|us|] == us;
    return Some(state);
  }

  lemma RunningKeepsGuard(db: Database, before: seq<Update>, us: seq<Update>, accepted: seq<bool>, i: nat)
    requires GuardKept(before + us) && i <= |us| == |accepted|
    ensures GuardKept(before + Running(db, us[..i], accepted[..i]))
  {
    assert forall u | u in before + Running(db, us[..i], accepted[..i]) :: u in before + us;
  }

  lemma RunningNothing(db: Database, before: seq<Update>)
    ensures before + Running(db, [], []) == before
  {
  }

  lemma RunningGrows(db: Database, before: seq<Update>, us: seq<Update>, accepted: seq<bool>, i: nat)
    requires i < |us| == |accepted|
    ensures before + Running(db, us[..i + 1], accepted[..i + 1]) ==
              before + Running(db, us[..i], accepted[..i]) + if Runs(db, us[i], accepted[i]) then [us[i]] else []
  {
    assert us[..i + 1][..i] == us[..i] && accepted[..i + 1][..i] == accepted[..i];
  }

  lemma ExecAllGrows(us: seq<Update>, u: Update, oldId: int64, newId: int64, db: Database)
    ensures ExecAll(us + [u], oldId, newId, db) == Exec(u, oldId, newId, ExecAll(us, oldId, newId, db))
  {
    assert (us + [u])[..|us|] == us;
  }

  /** The loop over the optional statements, after those in `before`: a failure is passed over. */
  method RunOptional(db: Database, tx: Database, before: seq<Update>, us: seq<Update>,
                     oldId: int64, newId: int64, accepted: seq<bool>)
    returns (tx': Database)
    requires GuardKept(before + us) && |accepted| == |us|
    requires tx == ExecAll(before, oldId, newId, db)
    ensures tx' == ExecAll(before + Running(db, us, accepted), oldId, newId, db)
  {
    hide Exec;
    hide Known;
    hide GuardKept;
    hide ExecAll;
    hide Running;
    RunningNothing(db, before);
    tx' := tx;
    ghost var done := before;
    for i := 0 to |us|
      invariant done == before + Running(db, us[..i], accepted[..i])
      invariant tx' == ExecAll(done, oldId, newId, db)
    {
      RunningKeepsGuard(db, before, us, accepted, i);
      SameTablesRun(done, oldId, newId, db);
      RunningGrows(db, before, us, accepted, i);
      if Runs(tx', us[i], accepted[i]) {
        tx' := Exec(us[i], oldId, newId, tx');
        ExecAllGrows(done, us[i], oldId, newId, db);
        done := done + [us[i]];
      }
    }
    assert us[..|us|] == us && accepted[..|us|] == accepted;
  }

  /** The transaction, from its start to the commit. */
  method Transact(db: Database, mandatory: seq<Update>, optional: seq<Update>, oldId: int64, newId: int64,
                  accepted: seq<bool>, commit: Commit)
    returns (db': Database, changed: bool)
    requires GuardKept(mandatory + optional) && |accepted| == |mandatory + optional|
    ensures var runs := AllRun(db, mandatory, accepted[..|mandatory|]);
            && (changed <==> runs && commit == Committed)
            && db' == if runs && commit != NotCommitted
                      then ExecAll(mandatory + Running(db, optional, accepted[|mandatory|..]), oldId, newId, db)
                      else db
  {
    assert GuardKept(mandatory) by { assert forall u | u in mandatory :: u in mandatory + optional; }
    var tx := RunMandatory(db, mandatory, oldId, newId, accepted[..|mandatory|]);
    if tx.None? { return db, false; }
    var tx' := RunOptional(db, tx.value, mandatory, optional, oldId, newId, accepted[|mandatory|..]);
    return if commit != NotCommitted then tx' else db, commit == Committed;
  }

  class Mysql {
    var committed: Database

    /**
     * The count may fail and then counts nothing; `accepted` says which statements the server accepts;
     * a mandatory statement that fails ends the transaction, an optional one is skipped.
     */
    method HandleChangeID(post: bool, pathId: Option<int64>, bodyId: Option<int64>, countFails: bool,
                          beginFails: bool, accepted: seq<bool>, commit: Commit)
      returns (r: Response)
      requires |accepted| == |ALL|
      modifies this
      ensures r == MethodNotAllowed <==> !post
      ensures r == BadRequest <==>
                post && (pathId.None? || bodyId.None? || bodyId.value == 0 || bodyId.value == pathId.value)
      ensures r == Conflict <==>
                && post && pathId.Some? && bodyId.Some? && bodyId.value != 0 && bodyId.value != pathId.value
                && !countFails
                && exists i: nat ::
                     Stands([Update("users", "id", false)], old(committed), Place("users", i, "id"), bodyId.value)
      ensures r.Changed? ==>
                && post && pathId.Some? && bodyId.Some? && bodyId.value != 0 && bodyId.value != pathId.value
                && (countFails || forall i: nat ::
                      !Stands([Update("users", "id", false)], old(committed), Place("users", i, "id"), bodyId.value))
      ensures var mandatory := accepted[..|MANDATORY|];
              var optional := Running(old(committed), OPTIONAL, accepted[|MANDATORY|..]);
              var goes := GoodRequest(post, pathId, bodyId) && r != Conflict && !beginFails
                          && AllRun(old(committed), MANDATORY, mandatory);
              && committed == (if goes && commit != NotCommitted
                               then ExecAll(MANDATORY + optional, pathId.value, bodyId.value, old(committed))
                               else old(committed))
              && (r.Changed? <==> goes && commit == Committed)
              && (r.Changed? ==> r == Changed(pathId.value, bodyId.value))
    {
      if !post { return MethodNotAllowed; }
      if pathId.None? || bodyId.None? || bodyId.value == 0 || bodyId.value == pathId.value { return BadRequest; }
      var oldId, newId := pathId.value, bodyId.value;
      TakenExactly(committed, newId);
      hide Stands;
      if !countFails && Taken(committed, newId) { return Conflict; }
      if beginFails { return ServerError; }
      NoGuardChanges();
      var changed;
      committed, changed := Transact(committed, MANDATORY, OPTIONAL, oldId, newId, accepted, commit);
      return if changed then Changed(oldId, newId) else ServerError;
    }
  }

  // ---------------------------------------------------------------- what the check on users is worth

  /** Rows have no cells outside the columns of their table. */
  predicate Typed(db: Database) {
    forall t | t in db :: forall i | 0 <= i < |db[t].rows| :: db[t].rows[i].Keys <= db[t].columns
  }

  /** Every id at a listed place, other than 0, is the id of a user. */
  ghost predicate Referential(all: seq<Update>, db: Database) {
    forall p, id | Stands(all, db, p, id) && id != 0 :: Taken(db, id)
  }

  lemma ListedMeansKnown(db: Database, us: seq<Update>, all: seq<Update>, p: Place)
    requires Typed(db) && Listed(all, db, p)
    requires forall u | u in all && Known(db, u) :: u in us
    ensures Listed(us, db, p)
  {
    var row := db[p.table].rows[p.row];
    var u :| u in all && u.table == p.table && u.column == p.column && Selects(u, row);
    assert row.Keys <= db[p.table].columns;
    assert Known(db, u);
  }

  /**
   * If references are intact, the id is free in `users`, and only statements for missing columns were
   * left out, then a change of id keeps every join of listed columns and can be taken back.
   */
  lemma CheckedChangeIsClean(db: Database, us: seq<Update>, all: seq<Update>, oldId: int64, newId: int64)
    requires GuardKept(all) && Typed(db) && Referential(all, db) && !Taken(db, newId)
    requires newId != 0 && oldId != newId
    requires forall u | u in us :: u in all
    requires forall u | u in all && Known(db, u) :: u in us
    ensures forall p | Has(db, p) :: Has(ExecAll(us, oldId, newId, db), p)
    ensures JoinsKept(all, db, ExecAll(us, oldId, newId, db))
    ensures ExecAll(us, newId, oldId, ExecAll(us, oldId, newId, db)) == db
  {
    assert !Occurs(all, db, newId);
    forall p, id
      ensures Stands(us, db, p, id) <==> Stands(all, db, p, id)
    {
      if Listed(all, db, p) { ListedMeansKnown(db, us, all, p); }
    }
    hide Stands;
    hide Referential;
    JoinsKeptExactly(us, all, oldId, newId, db);
    ChangingBackRestores(us, oldId, newId, db);
  }

  lemma RunningIsClean(db: Database, mandatory: seq<Update>, optional: seq<Update>, accepted: seq<bool>,
                       oldId: int64, newId: int64)
    requires GuardKept(mandatory + optional) && |accepted| == |optional|
    requires forall i | 0 <= i < |optional| && Known(db, optional[i]) :: accepted[i]
    requires Typed(db) && Referential(mandatory + optional, db) && !Taken(db, newId)
    requires newId != 0 && oldId != newId
    ensures var us := mandatory + Running(db, optional, accepted);
            && (forall p | Has(db, p) :: Has(ExecAll(us, oldId, newId, db), p))
            && JoinsKept(mandatory + optional, db, ExecAll(us, oldId, newId, db))
            && ExecAll(us, newId, oldId, ExecAll(us, oldId, newId, db)) == db
  {
    var us, all := mandatory + Running(db, optional, accepted), mandatory + optional;
    forall u | u in all && Known(db, u)
      ensures u in us
    {
      if u in optional { RunningIsPart(db, optional, accepted, u); }
    }
    assert forall u | u in us :: u in all;
    CheckedChangeIsClean(db, us, all, oldId, newId);
  }

  /** That is what the handler's statements do, if the server accepts all it knows the columns of. */
  lemma HandlerIsClean(db: Database, accepted: seq<bool>, oldId: int64, newId: int64)
    requires |accepted| == |OPTIONAL| && forall i | 0 <= i < |OPTIONAL| && Known(db, OPTIONAL[i]) :: accepted[i]
    requires Typed(db) && Referential(ALL, db) && !Taken(db, newId)
    requires newId != 0 && oldId != newId
    ensures var us := MANDATORY + Running(db, OPTIONAL, accepted);
            && (forall p | Has(db, p) :: Has(ExecAll(us, oldId, newId, db), p))
            && JoinsKept(ALL, db, ExecAll(us, oldId, newId, db))
            && ExecAll(us, newId, oldId, ExecAll(us, oldId, newId, db)) == db
  {
    NoGuardChanges();
    RunningIsClean(db, MANDATORY, OPTIONAL, accepted, oldId, newId);
  }
}

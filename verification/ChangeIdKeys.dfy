/**
 * The unique keys of the schema, teamgramd/deploy/sql/1_teamgram.sql and migrate-20220401.sql, and when the
 * statements of a change of id run into one.  The server refuses a statement as soon as a row it has
 * written duplicates a key of another row.
 */
module ChangeIdKeys {
  import opened Go
  import opened ChangeId

  datatype UniqueKey = UniqueKey(table: string, columns: set<string>)

  const USER_KEYS: seq<UniqueKey> := [
    UniqueKey("users", {"id"}),
    UniqueKey("users", {"phone"})]

  const CONTACT_KEYS: seq<UniqueKey> := [
    UniqueKey("user_contacts", {"id"}),
    UniqueKey("user_contacts", {"owner_user_id", "contact_user_id"})]

  const OTHER_KEYS: seq<UniqueKey> := [
    UniqueKey("bots", {"id"}),
    UniqueKey("bots", {"bot_id"}),
    UniqueKey("bots", {"token"}),
    UniqueKey("auth_users", {"id"}),
    UniqueKey("auth_users", {"auth_key_id", "user_id"}),
    UniqueKey("user_profile_photos", {"id"}),
    UniqueKey("user_profile_photos", {"user_id", "photo_id"}),
    UniqueKey("user_presences", {"id"}),
    UniqueKey("user_presences", {"user_id"}),
    UniqueKey("user_notify_settings", {"id"}),
    UniqueKey("user_notify_settings", {"user_id", "peer_type", "peer_id"}),
    UniqueKey("user_peer_blocks", {"id"}),
    UniqueKey("user_peer_blocks", {"user_id", "peer_type", "peer_id"}),
    UniqueKey("user_peer_settings", {"id"}),
    UniqueKey("user_peer_settings", {"user_id", "peer_type", "peer_id"}),
    UniqueKey("user_privacies", {"id"}),
    UniqueKey("user_privacies", {"user_id", "key_type"}),
    UniqueKey("user_settings", {"id"}),
    UniqueKey("user_settings", {"user_id", "key2"}),
    UniqueKey("username", {"id"}),
    UniqueKey("username", {"username"}),
    UniqueKey("chat_participants", {"id"}),
    UniqueKey("chat_participants", {"chat_id", "user_id"}),
    UniqueKey("dialogs", {"id"}),
    UniqueKey("dialogs", {"user_id", "peer_type", "peer_id"}),
    UniqueKey("dialogs", {"user_id", "peer_dialog_id"}),
    UniqueKey("devices", {"id"}),
    UniqueKey("devices", {"auth_key_id", "user_id", "token_type"}),
    UniqueKey("dialog_filters", {"id"}),
    UniqueKey("dialog_filters", {"user_id", "dialog_filter_id"}),
    UniqueKey("phone_books", {"id"}),
    UniqueKey("phone_books", {"auth_key_id", "client_id"}),
    UniqueKey("predefined_users", {"id"}),
    UniqueKey("predefined_users", {"phone"}),
    UniqueKey("user_pts_updates", {"id"}),
    UniqueKey("auth_seq_updates", {"id"}),
    UniqueKey("auth_seq_updates", {"auth_id", "user_id", "seq"}),
    UniqueKey("messages", {"id"}),
    UniqueKey("messages", {"user_id", "user_message_box_id"})]

  /** The primary and unique keys of the listed tables. */
  const KEYS: seq<UniqueKey> := USER_KEYS + CONTACT_KEYS + OTHER_KEYS

  /** Texts compare equal if they have the same form. */
  type Collation = string -> string

  predicate Alike(collate: Collation, a: Cell, b: Cell) {
    || (a.Number? && b == a)
    || (a.Text? && b.Text? && collate(a.s) == collate(b.s))
  }

  /** The rows duplicate the key; NULL duplicates nothing. */
  predicate Clash(collate: Collation, k: UniqueKey, r: Row, r': Row) {
    forall c | c in k.columns :: c in r && c in r' && Alike(collate, r[c], r'[c])
  }

  predicate KeyHolds(collate: Collation, k: UniqueKey, rows: seq<Row>) {
    forall i, j | 0 <= i < j < |rows| :: !Clash(collate, k, rows[i], rows[j])
  }

  predicate KeysHold(collate: Collation, keys: seq<UniqueKey>, db: Database) {
    forall k | k in keys && k.table in db :: KeyHolds(collate, k, db[k.table].rows)
  }

  /** A statement underway: of its table, the rows that are `done` are written. */
  function Partly(u: Update, done: nat -> bool, oldId: int64, newId: int64, db: Database): Database {
    if u.table !in db then db
    else
      var t := db[u.table];
      db[u.table := Table(t.columns, seq(|t.rows|, i requires 0 <= i < |t.rows| =>
                            if done(i) then SetRow(u, oldId, newId, t.rows[i]) else t.rows[i]))]
  }

  /** Statement `i`, after those before it, duplicates no key, in whatever order it goes through the rows. */
  ghost predicate Unhindered(collate: Collation, keys: seq<UniqueKey>, us: seq<Update>, i: int,
                             oldId: int64, newId: int64, db: Database)
    requires 0 <= i < |us|
  {
    forall done: nat -> bool ::
      KeysHold(collate, keys, Partly(us[i], done, oldId, newId, ExecAll(us[..i], oldId, newId, db)))
  }

  // ---------------------------------------------------------------- which rows a change merges

  predicate Covered(us: seq<Update>, table: string, c: string) {
    exists u | u in us :: u.table == table && u.column == c
  }

  /** No key has a column with a guarded statement. */
  predicate KeysPlain(keys: seq<UniqueKey>, us: seq<Update>) {
    forall k, u | k in keys && u in us && u.table == k.table && u.column in k.columns :: !u.guarded
  }

  /** The old id in one, the new id in the other, in a listed column. */
  predicate BecomesEqual(us: seq<Update>, table: string, c: string, oldId: int64, newId: int64, a: Cell, b: Cell) {
    && Covered(us, table, c)
    && ((a == Number(oldId) && b == Number(newId)) || (a == Number(newId) && b == Number(oldId)))
  }

  /** In every column of the key the two rows are equal, or the change makes them so. */
  predicate Merges(collate: Collation, k: UniqueKey, us: seq<Update>, oldId: int64, newId: int64, r: Row, r': Row) {
    forall c | c in k.columns :: c in r && c in r'
      && (Alike(collate, r[c], r'[c]) || BecomesEqual(us, k.table, c, oldId, newId, r[c], r'[c]))
  }

  predicate KeepsApart(collate: Collation, k: UniqueKey, us: seq<Update>, oldId: int64, newId: int64, rows: seq<Row>) {
    forall i, j | 0 <= i < j < |rows| :: !Merges(collate, k, us, oldId, newId, rows[i], rows[j])
  }

  predicate NoMerge(collate: Collation, keys: seq<UniqueKey>, us: seq<Update>, oldId: int64, newId: int64,
                    db: Database)
  {
    forall k | k in keys && k.table in db :: KeepsApart(collate, k, us, oldId, newId, db[k.table].rows)
  }

  lemma CellAfter(k: UniqueKey, us: seq<Update>, oldId: int64, newId: int64, row: Row, c: string)
    requires KeysPlain([k], us) && c in k.columns && c in row
    ensures RenamedRow(us, oldId, newId, k.table, row)[c] ==
              if Covered(us, k.table, c) && row[c] == Number(oldId) then Number(newId) else row[c]
  {
    assert k in [k];
  }

  /** However far the statements are with each row, only rows that merge can duplicate a key. */
  lemma OnlyMergedClash(collate: Collation, k: UniqueKey, us: seq<Update>, vs: seq<Update>, vs': seq<Update>,
                        oldId: int64, newId: int64, r: Row, r': Row)
    requires KeysPlain([k], us) && forall u :: (u in vs ==> u in us) && (u in vs' ==> u in us)
    requires Clash(collate, k, RenamedRow(vs, oldId, newId, k.table, r), RenamedRow(vs', oldId, newId, k.table, r'))
    ensures Merges(collate, k, us, oldId, newId, r, r')
  {
    var s, s' := RenamedRow(vs, oldId, newId, k.table, r), RenamedRow(vs', oldId, newId, k.table, r');
    forall c | c in k.columns
      ensures c in r && c in r'
              && (Alike(collate, r[c], r'[c]) || BecomesEqual(us, k.table, c, oldId, newId, r[c], r'[c]))
    {
      assert c in s && c in s' && Alike(collate, s[c], s'[c]);
      CellAfter(k, vs, oldId, newId, r, c);
      CellAfter(k, vs', oldId, newId, r', c);
      assert Covered(vs, k.table, c) || Covered(vs', k.table, c) ==> Covered(us, k.table, c);
    }
  }

  lemma MergedClash(collate: Collation, k: UniqueKey, us: seq<Update>, oldId: int64, newId: int64, r: Row, r': Row)
    requires KeysPlain([k], us) && Merges(collate, k, us, oldId, newId, r, r')
    ensures Clash(collate, k, RenamedRow(us, oldId, newId, k.table, r), RenamedRow(us, oldId, newId, k.table, r'))
  {
    var s, s' := RenamedRow(us, oldId, newId, k.table, r), RenamedRow(us, oldId, newId, k.table, r');
    forall c | c in k.columns
      ensures c in s && c in s' && Alike(collate, s[c], s'[c])
    {
      CellAfter(k, us, oldId, newId, r, c);
      CellAfter(k, us, oldId, newId, r', c);
    }
  }

  // ---------------------------------------------------------------- when a statement runs into a key

  /** Each row has been through the statements before number `i`, or through that one too. */
  lemma RowUnderway(us: seq<Update>, i: nat, done: nat -> bool, oldId: int64, newId: int64, db: Database,
                    t: string, n: nat)
    requires GuardKept(us) && i < |us| && t in db && n < |db[t].rows|
    ensures var db' := Partly(us[i], done, oldId, newId, ExecAll(us[..i], oldId, newId, db));
            && db'.Keys == db.Keys && |db'[t].rows| == |db[t].rows|
            && db'[t].rows[n] == RenamedRow(if t == us[i].table && done(n) then us[..i + 1] else us[..i],
                                            oldId, newId, t, db[t].rows[n])
  {
    SequentialIsSimultaneous(us[..i], oldId, newId, db);
    assert us[..i + 1] == us[..i] + [us[i]];
    RowStep(us[..i], us[i], oldId, newId, t, db[t].rows[n]);
  }

  lemma SameTables(us: seq<Update>, i: nat, done: nat -> bool, oldId: int64, newId: int64, db: Database)
    requires GuardKept(us) && i < |us|
    ensures var db' := Partly(us[i], done, oldId, newId, ExecAll(us[..i], oldId, newId, db));
            db'.Keys == db.Keys && forall t | t in db :: |db'[t].rows| == |db[t].rows|
  {
    SequentialIsSimultaneous(us[..i], oldId, newId, db);
  }

  lemma KeyUnderway(collate: Collation, k: UniqueKey, us: seq<Update>, i: nat, done: nat -> bool,
                    oldId: int64, newId: int64, db: Database)
    requires GuardKept(us) && KeysPlain([k], us) && i < |us| && k.table in db
    requires KeepsApart(collate, k, us, oldId, newId, db[k.table].rows)
    ensures var db' := Partly(us[i], done, oldId, newId, ExecAll(us[..i], oldId, newId, db));
            k.table in db' && KeyHolds(collate, k, db'[k.table].rows)
  {
    var db' := Partly(us[i], done, oldId, newId, ExecAll(us[..i], oldId, newId, db));
    var rows := db[k.table].rows;
    SameTables(us, i, done, oldId, newId, db);
    forall a, b | 0 <= a < b < |rows|
      ensures !Clash(collate, k, db'[k.table].rows[a], db'[k.table].rows[b])
    {
      RowUnderway(us, i, done, oldId, newId, db, k.table, a);
      RowUnderway(us, i, done, oldId, newId, db, k.table, b);
      hide RenamedRow;
      hide Clash;
      if Clash(collate, k, db'[k.table].rows[a], db'[k.table].rows[b]) {
        OnlyMergedClash(collate, k, us, if k.table == us[i].table && done(a) then us[..i + 1] else us[..i],
                        if k.table == us[i].table && done(b) then us[..i + 1] else us[..i],
                        oldId, newId, rows[a], rows[b]);
      }
    }
  }

  lemma NoMergeUnhindered(collate: Collation, keys: seq<UniqueKey>, us: seq<Update>, i: nat,
                          oldId: int64, newId: int64, db: Database)
    requires GuardKept(us) && KeysPlain(keys, us) && i < |us| && NoMerge(collate, keys, us, oldId, newId, db)
    ensures Unhindered(collate, keys, us, i, oldId, newId, db)
  {
    forall done: nat -> bool
      ensures KeysHold(collate, keys, Partly(us[i], done, oldId, newId, ExecAll(us[..i], oldId, newId, db)))
    {
      var db' := Partly(us[i], done, oldId, newId, ExecAll(us[..i], oldId, newId, db));
      SameTables(us, i, done, oldId, newId, db);
      hide Partly;
      hide ExecAll;
      forall k | k in keys && k.table in db'
        ensures KeyHolds(collate, k, db'[k.table].rows)
      {
        assert KeysPlain([k], us);
        KeyUnderway(collate, k, us, i, done, oldId, newId, db);
      }
    }
  }

  /** The last statement does nothing to other tables. */
  lemma LastNotDone(us: seq<Update>, t: string, oldId: int64, newId: int64, row: Row)
    requires GuardKept(us) && us != []
    ensures us[|us| - 1].table != t ==>
              RenamedRow(us[..|us| - 1], oldId, newId, t, row) == RenamedRow(us, oldId, newId, t, row)
  {
    assert us == us[..|us| - 1] + [us[|us| - 1]];
    RowStep(us[..|us| - 1], us[|us| - 1], oldId, newId, t, row);
  }

  lemma MergeHinders(collate: Collation, keys: seq<UniqueKey>, us: seq<Update>, oldId: int64, newId: int64,
                     db: Database)
    requires GuardKept(us) && KeysPlain(keys, us) && us != [] && !NoMerge(collate, keys, us, oldId, newId, db)
    ensures !Unhindered(collate, keys, us, |us| - 1, oldId, newId, db)
  {
    var k :| k in keys && k.table in db && !KeepsApart(collate, k, us, oldId, newId, db[k.table].rows);
    var rows := db[k.table].rows;
    var a, b :| 0 <= a < b < |rows| && Merges(collate, k, us, oldId, newId, rows[a], rows[b]);
    assert KeysPlain([k], us);
    MergedClash(collate, k, us, oldId, newId, rows[a], rows[b]);
    var i: nat, done: nat -> bool := |us| - 1, _ => true;
    var db' := Partly(us[i], done, oldId, newId, ExecAll(us[..i], oldId, newId, db));
    RowUnderway(us, i, done, oldId, newId, db, k.table, a);
    RowUnderway(us, i, done, oldId, newId, db, k.table, b);
    assert us[..i + 1] == us;
    LastNotDone(us, k.table, oldId, newId, rows[a]);
    LastNotDone(us, k.table, oldId, newId, rows[b]);
    assert !KeyHolds(collate, k, db'[k.table].rows);
    assert !KeysHold(collate, keys, db');
  }

  /**
   * No statement runs into a unique key, at any row, exactly if the change merges no two rows in one:
   * something that can be seen before it begins.
   */
  lemma UnhinderedExactly(collate: Collation, keys: seq<UniqueKey>, us: seq<Update>,
                          oldId: int64, newId: int64, db: Database)
    requires GuardKept(us) && KeysPlain(keys, us) && us != []
    ensures (forall i | 0 <= i < |us| :: Unhindered(collate, keys, us, i, oldId, newId, db))
            <==> NoMerge(collate, keys, us, oldId, newId, db)
  {
    if NoMerge(collate, keys, us, oldId, newId, db) {
      forall i | 0 <= i < |us|
        ensures Unhindered(collate, keys, us, i, oldId, newId, db)
      {
        NoMergeUnhindered(collate, keys, us, i, oldId, newId, db);
      }
    } else {
      MergeHinders(collate, keys, us, oldId, newId, db);
    }
  }

  // ---------------------------------------------------------------- the handler and the keys

  /** The server refuses exactly the statements that run into a unique key. */
  ghost predicate RefusesDuplicates(collate: Collation, keys: seq<UniqueKey>, us: seq<Update>,
                                    oldId: int64, newId: int64, db: Database, accepted: seq<bool>)
    requires |accepted| == |us|
  {
    forall i | 0 <= i < |us| :: accepted[i] <==> Unhindered(collate, keys, us, i, oldId, newId, db)
  }

  lemma GuardedOnlyPeer()
    ensures forall u | u in ALL && (u.guarded || u.column == "peer_id") :: u == Update("username", "peer_id", true)
  {
    assert forall i | 0 <= i < |ALL| && (ALL[i].guarded || ALL[i].column == "peer_id") ::
        ALL[i] == Update("username", "peer_id", true);
  }

  lemma KeysWithoutPeer()
    ensures forall k | k in KEYS && k.table == "username" :: "peer_id" !in k.columns
  {
    assert forall i | 0 <= i < |OTHER_KEYS| && OTHER_KEYS[i].table == "username" ::
        "peer_id" !in OTHER_KEYS[i].columns;
    assert forall k | k in USER_KEYS + CONTACT_KEYS :: k.table != "username";
  }

  lemma RealKeysPlain()
    ensures KeysPlain(KEYS, MANDATORY)
  {
    GuardedOnlyPeer();
    KeysWithoutPeer();
    assert forall u | u in MANDATORY :: u in ALL;
  }

  lemma RunExactly(collate: Collation, keys: seq<UniqueKey>, us: seq<Update>, db: Database, oldId: int64, newId: int64,
                   accepted: seq<bool>)
    requires GuardKept(us) && KeysPlain(keys, us) && us != []
    requires |accepted| == |us| && forall u | u in us :: Known(db, u)
    requires RefusesDuplicates(collate, keys, us, oldId, newId, db, accepted)
    ensures AllRun(db, us, accepted) <==> NoMerge(collate, keys, us, oldId, newId, db)
  {
    UnhinderedExactly(collate, keys, us, oldId, newId, db);
    hide NoMerge;
    hide Unhindered;
    hide Known;
    assert forall i | 0 <= i < |us| :: us[i] in us;
  }

  /** The mandatory statements all run exactly if the change merges no two rows in a unique key. */
  lemma MandatoryRunExactly(collate: Collation, db: Database, oldId: int64, newId: int64, accepted: seq<bool>)
    requires |accepted| == |MANDATORY| && forall u | u in MANDATORY :: Known(db, u)
    requires RefusesDuplicates(collate, KEYS, MANDATORY, oldId, newId, db, accepted)
    ensures AllRun(db, MANDATORY, accepted) <==> NoMerge(collate, KEYS, MANDATORY, oldId, newId, db)
  {
    NoGuardChanges();
    RealKeysPlain();
    RunExactly(collate, KEYS, MANDATORY, db, oldId, newId, accepted);
  }

  lemma BecomesEqualOccurs(k: UniqueKey, us: seq<Update>, oldId: int64, newId: int64, db: Database,
                           i: nat, j: nat, c: string)
    requires KeysPlain([k], us) && c in k.columns
    requires k.table in db && i < |db[k.table].rows| && j < |db[k.table].rows|
    requires c in db[k.table].rows[i] && c in db[k.table].rows[j]
    requires BecomesEqual(us, k.table, c, oldId, newId, db[k.table].rows[i][c], db[k.table].rows[j][c])
    ensures Occurs(us, db, newId)
  {
    var u :| u in us && u.table == k.table && u.column == c;
    assert k in [k];
    var n := if db[k.table].rows[i][c] == Number(newId) then i else j;
    assert Stands(us, db, Place(k.table, n, c), newId);
  }

  /** A change to an id that occurs nowhere keeps the keys. */
  lemma FreshIdMergesNothing(collate: Collation, keys: seq<UniqueKey>, us: seq<Update>,
                             oldId: int64, newId: int64, db: Database)
    requires KeysPlain(keys, us) && KeysHold(collate, keys, db) && !Occurs(us, db, newId)
    ensures NoMerge(collate, keys, us, oldId, newId, db)
  {
    forall k | k in keys && k.table in db
      ensures KeepsApart(collate, k, us, oldId, newId, db[k.table].rows)
    {
      var rows := db[k.table].rows;
      assert KeyHolds(collate, k, rows) && KeysPlain([k], us);
      forall i, j | 0 <= i < j < |rows|
        ensures !Merges(collate, k, us, oldId, newId, rows[i], rows[j])
      {
        assert !Clash(collate, k, rows[i], rows[j]);
        if Merges(collate, k, us, oldId, newId, rows[i], rows[j]) {
          var c :| c in k.columns && !Alike(collate, rows[i][c], rows[j][c]);
          BecomesEqualOccurs(k, us, oldId, newId, db, i, j, c);
        }
      }
    }
  }

  /**
   * So with intact references and keys, a free id, and a server that refuses only duplicates, the
   * mandatory statements cannot fail.
   */
  lemma MandatoryCannotFail(collate: Collation, db: Database, oldId: int64, newId: int64, accepted: seq<bool>)
    requires |accepted| == |MANDATORY| && forall u | u in MANDATORY :: Known(db, u)
    requires RefusesDuplicates(collate, KEYS, MANDATORY, oldId, newId, db, accepted)
    requires Referential(MANDATORY, db) && KeysHold(collate, KEYS, db)
    requires newId != 0 && !Taken(db, newId)
    ensures AllRun(db, MANDATORY, accepted)
  {
    MandatoryRunExactly(collate, db, oldId, newId, accepted);
    RealKeysPlain();
    assert !Occurs(MANDATORY, db, newId);
    FreshIdMergesNothing(collate, KEYS, MANDATORY, oldId, newId, db);
  }
}

/**
 * Databases on which a change of id goes wrong although the new id is free in `users`: it merges what
 * belongs to two users, it is refused for a duplicate, or it leaves references behind.
 */
module ChangeIdCases {
  import opened Go
  import opened ChangeId
  import opened ChangeIdKeys

  // ---------------------------------------------------------------- databases with few rows

  /** The columns of a table that statements look at or keys are made of. */
  function Columns(us: seq<Update>, keys: seq<UniqueKey>, table: string): set<string> {
    (set u | u in us && u.table == table :: u.column)
    + (set k, c | k in keys && k.table == table && c in k.columns :: c)
    + (set u | u in us && u.table == table && u.guarded :: PEER_TYPE)
  }

  /** All the tables of some statements, with rows in those given. */
  function Tables(us: seq<Update>, keys: seq<UniqueKey>, rows: map<string, seq<Row>>): Database {
    map t | t in (set u | u in us :: u.table) :: Table(Columns(us, keys, t), if t in rows then rows[t] else [])
  }

  /** The statements all find their columns, and only the tables in `rows` have any. */
  predicate Holds(db: Database, us: seq<Update>, rows: map<string, seq<Row>>) {
    && (forall u | u in us :: Known(db, u))
    && rows.Keys <= db.Keys
    && forall t | t in db :: db[t].rows == if t in rows then rows[t] else []
  }

  lemma TablesHold(us: seq<Update>, keys: seq<UniqueKey>, rows: map<string, seq<Row>>)
    requires forall t | t in rows :: exists u | u in us :: u.table == t
    ensures Holds(Tables(us, keys, rows), us, rows)
  {
  }

  lemma OccursAt(us: seq<Update>, db: Database, u: Update, i: nat, id: int64)
    requires u in us && u.table in db && i < |db[u.table].rows|
    requires Selects(u, db[u.table].rows[i]) && db[u.table].rows[i][u.column] == Number(id)
    ensures Occurs(us, db, id)
  {
    assert Stands(us, db, Place(u.table, i, u.column), id);
  }

  // ---------------------------------------------------------------- users and contacts

  function User(id: int64, phone: string): Row {
    map["id" := Number(id), "phone" := Text(phone)]
  }

  /** The phone numbers below are different for the server. */
  predicate TellsApart(collate: Collation) {
    collate("1") != collate("3") && collate("1") != collate("4") && collate("3") != collate("4")
  }

  function Contact(id: int64, owner: int64, contact: int64): Row {
    map["id" := Number(id), "owner_user_id" := Number(owner), "contact_user_id" := Number(contact)]
  }

  function Rows(users: seq<Row>, contacts: seq<Row>): map<string, seq<Row>> {
    map["users" := users, "user_contacts" := contacts]
  }

  const ID: Update := Update("users", "id", false)
  const OWNER: Update := Update("user_contacts", "owner_user_id", false)
  const OWNERSHIP: UniqueKey := UniqueKey("user_contacts", {"owner_user_id", "contact_user_id"})

  lemma TheyAreListed()
    ensures ID in MANDATORY && OWNER in MANDATORY && OWNERSHIP in KEYS
  {
    assert MANDATORY[0] == ID && MANDATORY[5] == OWNER;
    assert OWNERSHIP in CONTACT_KEYS by { assert CONTACT_KEYS[1] == OWNERSHIP; }
  }

  lemma OtherTables()
    ensures forall k | k in OTHER_KEYS :: k.table != "users" && k.table != "user_contacts"
  {
    assert forall i | 0 <= i < |OTHER_KEYS| :: OTHER_KEYS[i].table != "users";
    assert forall i | 0 <= i < |OTHER_KEYS| :: OTHER_KEYS[i].table != "user_contacts";
  }

  lemma UserKeys()
    ensures forall k | k in USER_KEYS :: k.table == "users" && (k.columns == {"id"} || k.columns == {"phone"})
  {
  }

  lemma ContactKeys()
    ensures forall k | k in CONTACT_KEYS :: k.table == "user_contacts" && (k.columns == {"id"} || k == OWNERSHIP)
  {
  }

  lemma AnyKey(k: UniqueKey)
    requires k in KEYS
    ensures k in USER_KEYS || k in CONTACT_KEYS || k in OTHER_KEYS
  {
  }

  lemma KeysOfUsersAndContacts(k: UniqueKey)
    requires k in KEYS
    ensures k.table == "users" ==> k.columns == {"id"} || k.columns == {"phone"}
    ensures k.table == "user_contacts" ==> k.columns == {"id"} || k == OWNERSHIP
  {
    AnyKey(k);
    if k in USER_KEYS {
      UserKeys();
    } else if k in CONTACT_KEYS {
      ContactKeys();
    } else {
      OtherTables();
    }
  }

  // ---------------------------------------------------------------- a change that cannot be taken back

  const DANGLING_USERS: seq<Row> := [User(1, "1"), User(3, "3"), User(4, "4")]
  const DANGLING_CONTACTS: seq<Row> := [Contact(11, 1, 3), Contact(12, 2, 4)]

  /** User 1 has 3 as a contact.  2 is no longer a user, but the row that has 4 as a contact of 2 is still there. */
  function Dangling(): Database {
    Tables(MANDATORY, KEYS, Rows(DANGLING_USERS, DANGLING_CONTACTS))
  }

  lemma DanglingHolds()
    ensures Holds(Dangling(), MANDATORY, Rows(DANGLING_USERS, DANGLING_CONTACTS))
  {
    TheyAreListed();
    TablesHold(MANDATORY, KEYS, Rows(DANGLING_USERS, DANGLING_CONTACTS));
  }

  lemma DanglingRows(db: Database, us: seq<Update>)
    requires Holds(db, us, Rows(DANGLING_USERS, DANGLING_CONTACTS))
    ensures "users" in db && db["users"].rows == DANGLING_USERS
    ensures "user_contacts" in db && db["user_contacts"].rows == DANGLING_CONTACTS
  {
    var rows := Rows(DANGLING_USERS, DANGLING_CONTACTS);
    assert "users" in rows && "user_contacts" in rows;
  }

  lemma DanglingFree(db: Database)
    requires "users" in db && db["users"].rows == DANGLING_USERS
    ensures !Taken(db, 2)
  {
  }

  lemma DanglingOccurs(db: Database, us: seq<Update>)
    requires "user_contacts" in db && db["user_contacts"].rows == DANGLING_CONTACTS && OWNER in us
    ensures Occurs(us, db, 1) && Occurs(us, db, 2)
  {
    OccursAt(us, db, OWNER, 0, 1);
    OccursAt(us, db, OWNER, 1, 2);
  }

  lemma UsersApart(collate: Collation, k: UniqueKey, us: seq<Update>)
    requires TellsApart(collate) && (k.columns == {"id"} || k.columns == {"phone"})
    ensures KeepsApart(collate, k, us, 1, 2, DANGLING_USERS)
  {
    hide Covered;
    var c := if k.columns == {"id"} then "id" else "phone";
    assert c in k.columns;
  }

  lemma ContactsApart(collate: Collation, k: UniqueKey, us: seq<Update>)
    requires k.columns == {"id"} || k == OWNERSHIP
    ensures KeepsApart(collate, k, us, 1, 2, DANGLING_CONTACTS)
  {
    hide Covered;
    var c := if k.columns == {"id"} then "id" else "contact_user_id";
    assert c in k.columns;
  }

  /** No two of its rows merge: the contacts 3 and 4 stay apart, and so do the users. */
  lemma DanglingKeepsApart(collate: Collation, db: Database, keys: seq<UniqueKey>, us: seq<Update>)
    requires TellsApart(collate) && Holds(db, us, Rows(DANGLING_USERS, DANGLING_CONTACTS))
    requires forall k | k in keys && k.table == "users" :: k.columns == {"id"} || k.columns == {"phone"}
    requires forall k | k in keys && k.table == "user_contacts" :: k.columns == {"id"} || k == OWNERSHIP
    ensures NoMerge(collate, keys, us, 1, 2, db)
  {
    DanglingRows(db, us);
    hide TellsApart;
    forall k | k in keys && k.table in db
      ensures KeepsApart(collate, k, us, 1, 2, db[k.table].rows)
    {
      if k.table == "users" {
        UsersApart(collate, k, us);
      } else if k.table == "user_contacts" {
        ContactsApart(collate, k, us);
      } else {
        assert db[k.table].rows == [];
      }
      hide Merges;
    }
  }

  lemma DanglingRuns(collate: Collation, mandatory: seq<bool>)
    requires TellsApart(collate) && |mandatory| == |MANDATORY|
    requires RefusesDuplicates(collate, KEYS, MANDATORY, 1, 2, Dangling(), mandatory)
    ensures AllRun(Dangling(), MANDATORY, mandatory)
  {
    DanglingHolds();
    forall k | k in KEYS
      ensures k.table == "users" ==> k.columns == {"id"} || k.columns == {"phone"}
      ensures k.table == "user_contacts" ==> k.columns == {"id"} || k == OWNERSHIP
    {
      KeysOfUsersAndContacts(k);
    }
    hide Dangling;
    hide NoMerge;
    hide AllRun;
    hide RefusesDuplicates;
    DanglingKeepsApart(collate, Dangling(), KEYS, MANDATORY);
    MandatoryRunExactly(collate, Dangling(), 1, 2, mandatory);
  }

  lemma MergedForGood(db: Database, us: seq<Update>, all: seq<Update>)
    requires GuardKept(all) && forall u | u in us :: u in all
    requires Occurs(us, db, 1) && Occurs(us, db, 2) && Occurs(all, db, 2)
    ensures forall p | Has(db, p) :: Has(ExecAll(us, 1, 2, db), p)
    ensures !JoinsKept(all, db, ExecAll(us, 1, 2, db))
    ensures ExecAll(us, 2, 1, ExecAll(us, 1, 2, db)) != db
  {
    hide Occurs;
    JoinsKeptExactly(us, all, 1, 2, db);
    ChangingBackRestores(us, 1, 2, db);
  }

  lemma PartOfAll(db: Database, mandatory: seq<Update>, optional: seq<Update>, accepted: seq<bool>)
    requires |accepted| == |optional|
    ensures forall u | u in mandatory + Running(db, optional, accepted) :: u in mandatory + optional
  {
  }

  lemma DanglingIs()
    ensures !Taken(Dangling(), 2)
    ensures "user_contacts" in Dangling() && Dangling()["user_contacts"].rows == DANGLING_CONTACTS
    ensures OWNER in MANDATORY && GuardKept(MANDATORY + OPTIONAL)
  {
    NoGuardChanges();
    TheyAreListed();
    DanglingHolds();
    hide Dangling;
    DanglingRows(Dangling(), MANDATORY);
    DanglingFree(Dangling());
  }

  lemma DanglingMerges(db: Database, mandatory: seq<Update>, optional: seq<Update>, accepted: seq<bool>)
    requires GuardKept(mandatory + optional) && OWNER in mandatory && |accepted| == |optional|
    requires "user_contacts" in db && db["user_contacts"].rows == DANGLING_CONTACTS
    ensures var us, all := mandatory + Running(db, optional, accepted), mandatory + optional;
            && (forall p | Has(db, p) :: Has(ExecAll(us, 1, 2, db), p))
            && !JoinsKept(all, db, ExecAll(us, 1, 2, db))
            && ExecAll(us, 2, 1, ExecAll(us, 1, 2, db)) != db
  {
    var us, all := mandatory + Running(db, optional, accepted), mandatory + optional;
    PartOfAll(db, mandatory, optional, accepted);
    hide *;
    DanglingOccurs(db, us);
    DanglingOccurs(db, all);
    MergedForGood(db, us, all);
  }

  /**
   * The check of `users` alone is not enough.  On this database the keys hold at every row of every
   * mandatory statement, so they all run, whatever becomes of the optional ones; but the contact lists
   * of 1 and 2 have become one, and changing 2 back to 1 does not part them.
   */
  lemma FreeInUsersIsNotEnough(collate: Collation, mandatory: seq<bool>, optional: seq<bool>)
    requires TellsApart(collate) && |mandatory| == |MANDATORY| && |optional| == |OPTIONAL|
    requires RefusesDuplicates(collate, KEYS, MANDATORY, 1, 2, Dangling(), mandatory)
    ensures GoodRequest(true, Some(1), Some(2)) && !Taken(Dangling(), 2)
    ensures AllRun(Dangling(), MANDATORY, mandatory)
    ensures var us := MANDATORY + Running(Dangling(), OPTIONAL, optional);
            && (forall p | Has(Dangling(), p) :: Has(ExecAll(us, 1, 2, Dangling()), p))
            && !JoinsKept(ALL, Dangling(), ExecAll(us, 1, 2, Dangling()))
            && ExecAll(us, 2, 1, ExecAll(us, 1, 2, Dangling())) != Dangling()
  {
    hide Dangling;
    hide ExecAll;
    hide AllRun;
    hide Running;
    hide RefusesDuplicates;
    hide JoinsKept;
    hide Taken;
    hide Has;
    hide GuardKept;
    DanglingRuns(collate, mandatory);
    DanglingIs();
    DanglingMerges(Dangling(), MANDATORY, OPTIONAL, optional);
  }

  // ---------------------------------------------------------------- a change that is refused

  const SHARED_USERS: seq<Row> := [User(1, "1"), User(3, "3")]
  const SHARED_CONTACTS: seq<Row> := [Contact(11, 1, 3), Contact(12, 2, 3)]

  /** Now 1 and 2, who is no longer a user, have a contact in common. */
  function Shared(): Database {
    Tables(MANDATORY, KEYS, Rows(SHARED_USERS, SHARED_CONTACTS))
  }

  lemma SharedMerges(collate: Collation, us: seq<Update>)
    requires OWNER in us
    ensures !KeepsApart(collate, OWNERSHIP, us, 1, 2, SHARED_CONTACTS)
  {
    assert Covered(us, "user_contacts", "owner_user_id");
    hide Covered;
    assert Merges(collate, OWNERSHIP, us, 1, 2, SHARED_CONTACTS[0], SHARED_CONTACTS[1]);
  }

  lemma SharedIsFree(db: Database, us: seq<Update>)
    requires Holds(db, us, Rows(SHARED_USERS, SHARED_CONTACTS))
    ensures !Taken(db, 2) && "user_contacts" in db && db["user_contacts"].rows == SHARED_CONTACTS
  {
    assert "users" in db && db["users"].rows == SHARED_USERS;
  }

  lemma SomeMerge(collate: Collation, keys: seq<UniqueKey>, k: UniqueKey, us: seq<Update>, db: Database)
    requires k in keys && k.table in db && !KeepsApart(collate, k, us, 1, 2, db[k.table].rows)
    ensures !NoMerge(collate, keys, us, 1, 2, db)
  {
  }

  lemma SharedIs()
    ensures !Taken(Shared(), 2) && forall u | u in MANDATORY :: Known(Shared(), u)
    ensures "user_contacts" in Shared() && Shared()["user_contacts"].rows == SHARED_CONTACTS
    ensures OWNER in MANDATORY && OWNERSHIP in KEYS
  {
    TheyAreListed();
    TablesHold(MANDATORY, KEYS, Rows(SHARED_USERS, SHARED_CONTACTS));
    SharedIsFree(Shared(), MANDATORY);
  }

  /** The id is free, and still the change cannot be made: it would give one user the same contact twice. */
  lemma SharedContactRefused(collate: Collation, mandatory: seq<bool>)
    requires |mandatory| == |MANDATORY|
    requires RefusesDuplicates(collate, KEYS, MANDATORY, 1, 2, Shared(), mandatory)
    ensures !Taken(Shared(), 2) && !AllRun(Shared(), MANDATORY, mandatory)
  {
    hide RefusesDuplicates;
    hide AllRun;
    hide NoMerge;
    hide KeepsApart;
    hide Taken;
    SharedIs();
    hide Shared;
    hide Known;
    SharedMerges(collate, MANDATORY);
    SomeMerge(collate, KEYS, OWNERSHIP, MANDATORY, Shared());
    MandatoryRunExactly(collate, Shared(), 1, 2, mandatory);
  }

  // ---------------------------------------------------------------- references left behind

  /** Columns that refer to users and are in no statement, or only in one for another type of peer. */
  const PEERS: set<(string, string)> :=
    {("dialogs", "peer_id"), ("user_notify_settings", "peer_id"), ("user_peer_blocks", "peer_id"),
     ("user_peer_settings", "peer_id"), ("messages", "peer_id"), ("username", "peer_id")}

  /** A peer that is a user has type 2. */
  const PEER_USER: int64 := 2

  lemma PeerIdIsPeer(table: string, column: string)
    requires (table, column) in PEERS
    ensures column == "peer_id"
  {
  }

  lemma NoStatementForUserPeer(us: seq<Update>, db: Database, q: Place)
    requires forall u | u in us && u.column == "peer_id" :: u.guarded
    requires Has(db, q) && q.column == "peer_id"
    requires PEER_TYPE in db[q.table].rows[q.row] && db[q.table].rows[q.row][PEER_TYPE] == Number(PEER_USER)
    ensures !Listed(us, db, q)
  {
  }

  /** In a row of a user peer no statement looks at the column `peer_id`. */
  lemma PeerIsLeftAlone(us: seq<Update>, db: Database, q: Place)
    requires forall u | u in us :: u in ALL
    requires Has(db, q) && (q.table, q.column) in PEERS
    requires PEER_TYPE in db[q.table].rows[q.row] && db[q.table].rows[q.row][PEER_TYPE] == Number(PEER_USER)
    ensures LeftAlone(us, PEERS, db, q)
  {
    PeerIdIsPeer(q.table, q.column);
    GuardedOnlyPeer();
    NoStatementForUserPeer(us, db, q);
  }

  /**
   * So wherever a listed column and a user peer hold the old id, the change parts them: the dialogs,
   * settings and usernames of the user stay with the old id.
   */
  lemma PeersAreLeftBehind(us: seq<Update>, oldId: int64, newId: int64, db: Database, p: Place, q: Place)
    requires forall u | u in us :: u in ALL
    requires oldId != newId && Stands(us, db, p, oldId)
    requires Has(db, q) && (q.table, q.column) in PEERS && At(db, q) == Number(oldId)
    requires PEER_TYPE in db[q.table].rows[q.row] && db[q.table].rows[q.row][PEER_TYPE] == Number(PEER_USER)
    ensures forall x | Has(db, x) :: Has(ExecAll(us, oldId, newId, db), x)
    ensures var db' := ExecAll(us, oldId, newId, db);
            && At(db', p) == Number(newId) && At(db', q) == Number(oldId)
            && !JoinsToOthersKept(us, PEERS, db, db')
  {
    NoGuardChanges();
    PeerIsLeftAlone(us, db, q);
    hide Refers;
    JoinsToOthersExactly(us, PEERS, oldId, newId, db);
    SequentialIsSimultaneous(us, oldId, newId, db);
    RenamedAt(us, us, oldId, newId, db, p);
    RenamedAt(us, us, oldId, newId, db, q);
    hide ExecAll;
    hide Renamed;
  }
}

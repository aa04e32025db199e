/**
 * What a change of id does to each cell, in the words of the schema.
 */
module ChangeIdEffect {
  import opened Go
  import opened ChangeId
  import opened ChangeIdKeys

  /** Tables whose rows belong to the user in the column `user_id`. */
  const OWNED: set<string> :=
    {"auth_users", "user_profile_photos", "user_presences", "user_notify_settings", "user_peer_blocks",
     "user_peer_settings", "user_privacies", "user_settings", "chat_participants", "dialogs", "devices",
     "dialog_filters", "phone_books"}

  predicate RefersToUser(table: string, column: string) {
    || (table == "users" && column == "id")
    || (table == "bots" && (column == "bot_id" || column == "creator_user_id"))
    || (table == "user_contacts" && (column == "owner_user_id" || column == "contact_user_id"))
    || (table in OWNED && column == "user_id")
    || (table == "chat_participants" && column == "inviter_user_id")
    || (table == "predefined_users" && column == "registered_user_id")
  }

  lemma OwnedOnes()
    ensures forall u | u in MANDATORY && u.column == "user_id" :: u.table in OWNED && !u.guarded
  {
    assert forall i | 0 <= i < |MANDATORY| && MANDATORY[i].column == "user_id" ::
        MANDATORY[i].table in OWNED && !MANDATORY[i].guarded;
  }

  lemma OtherOnes(u: Update)
    requires u in MANDATORY && u.column != "user_id"
    ensures u in [Update("users", "id", false),
                  Update("bots", "bot_id", false), Update("bots", "creator_user_id", false),
                  Update("user_contacts", "owner_user_id", false), Update("user_contacts", "contact_user_id", false),
                  Update("username", "peer_id", true), Update("chat_participants", "inviter_user_id", false),
                  Update("predefined_users", "registered_user_id", false)]
  {
  }

  lemma EachRefers(u: Update)
    requires u in MANDATORY
    ensures if u.guarded then u.table == "username" && u.column == "peer_id" else RefersToUser(u.table, u.column)
  {
    if u.column == "user_id" { OwnedOnes(); } else { OtherOnes(u); }
  }

  lemma OwnedListed(table: string)
    requires table in OWNED
    ensures Update(table, "user_id", false) in MANDATORY
  {
    assert forall i | i in [3, 4, 7, 8, 9, 10, 11, 12, 14, 16, 17, 18, 19] :: MANDATORY[i] in MANDATORY;
  }

  lemma UsersAndPeersListed()
    ensures Update("users", "id", false) in MANDATORY && Update("username", "peer_id", true) in MANDATORY
    ensures Update("chat_participants", "inviter_user_id", false) in MANDATORY
    ensures Update("predefined_users", "registered_user_id", false) in MANDATORY
  {
    assert MANDATORY[0] in MANDATORY && MANDATORY[13] in MANDATORY;
    assert MANDATORY[15] in MANDATORY && MANDATORY[20] in MANDATORY;
  }

  lemma BotsListed()
    ensures Update("bots", "bot_id", false) in MANDATORY && Update("bots", "creator_user_id", false) in MANDATORY
  {
    assert MANDATORY[1] in MANDATORY && MANDATORY[2] in MANDATORY;
  }

  lemma ContactsListed()
    ensures Update("user_contacts", "owner_user_id", false) in MANDATORY
    ensures Update("user_contacts", "contact_user_id", false) in MANDATORY
  {
    assert MANDATORY[5] in MANDATORY && MANDATORY[6] in MANDATORY;
  }

  /** The cell refers to a user, in a row for which one of the mandatory statements is meant. */
  predicate Meant(db: Database, p: Place)
    requires Has(db, p)
  {
    var row := db[p.table].rows[p.row];
    || RefersToUser(p.table, p.column)
    || (p.table == "username" && p.column == "peer_id" && "peer_type" in row && row["peer_type"] == Number(0))
  }

  lemma ListedIsMeant(db: Database, p: Place)
    requires Listed(MANDATORY, db, p)
    ensures Meant(db, p)
  {
    var row := db[p.table].rows[p.row];
    var u :| u in MANDATORY && u.table == p.table && u.column == p.column && Selects(u, row);
    EachRefers(u);
    hide RefersToUser;
  }

  lemma ListedAt(us: seq<Update>, u: Update, db: Database, p: Place)
    requires Has(db, p) && u in us && u.table == p.table && u.column == p.column
    requires Selects(u, db[p.table].rows[p.row])
    ensures Listed(us, db, p)
  {
  }

  lemma RefersIsListed(table: string, column: string)
    requires RefersToUser(table, column)
    ensures Update(table, column, false) in MANDATORY
  {
    if table in OWNED && column == "user_id" {
      OwnedListed(table);
    } else if table == "bots" {
      BotsListed();
    } else if table == "user_contacts" {
      ContactsListed();
    } else {
      UsersAndPeersListed();
    }
  }

  lemma MeantIsListed(db: Database, p: Place)
    requires Has(db, p) && Meant(db, p)
    ensures Listed(MANDATORY, db, p)
  {
    hide Listed;
    hide RefersToUser;
    if RefersToUser(p.table, p.column) {
      RefersIsListed(p.table, p.column);
      ListedAt(MANDATORY, Update(p.table, p.column, false), db, p);
    } else {
      UsersAndPeersListed();
      ListedAt(MANDATORY, Update("username", "peer_id", true), db, p);
    }
  }

  /** The cell is one that an optional statement is meant for, and that statement can be executed. */
  predicate MeantOptionally(db: Database, accepted: seq<bool>, p: Place)
    requires Has(db, p) && |accepted| == 25
  {
    && p.column in db[p.table].columns
    && (|| (p.table == "user_pts_updates" && p.column == "user_id" && accepted[21])
        || (p.table == "auth_seq_updates" && p.column == "user_id" && accepted[22])
        || (p.table == "messages" && p.column == "user_id" && accepted[23])
        || (p.table == "messages" && p.column == "sender_user_id" && accepted[24]))
  }

  lemma OptionalRuns(db: Database, accepted: seq<bool>, u: Update)
    requires |accepted| == 25
    ensures u in Running(db, OPTIONAL, accepted[21..]) <==>
              && Known(db, u)
              && (|| (u == Update("user_pts_updates", "user_id", false) && accepted[21])
                  || (u == Update("auth_seq_updates", "user_id", false) && accepted[22])
                  || (u == Update("messages", "user_id", false) && accepted[23])
                  || (u == Update("messages", "sender_user_id", false) && accepted[24]))
  {
    var a := accepted[21..];
    RunningIsPart(db, OPTIONAL, a, u);
    hide Running;
    hide Known;
    assert Runs(db, u, a[0]) && u == OPTIONAL[0] ==> exists i :: 0 <= i < 4 && OPTIONAL[i] == u && Runs(db, u, a[i]);
  }

  lemma OptionalListed(db: Database, accepted: seq<bool>, p: Place)
    requires |accepted| == 25 && Has(db, p)
    ensures Listed(Running(db, OPTIONAL, accepted[21..]), db, p) <==> MeantOptionally(db, accepted, p)
  {
    var us := Running(db, OPTIONAL, accepted[21..]);
    var row := db[p.table].rows[p.row];
    forall u {:trigger u in us}
      ensures u in us <==>
              && Known(db, u)
              && (|| (u == Update("user_pts_updates", "user_id", false) && accepted[21])
                  || (u == Update("auth_seq_updates", "user_id", false) && accepted[22])
                  || (u == Update("messages", "user_id", false) && accepted[23])
                  || (u == Update("messages", "sender_user_id", false) && accepted[24]))
    {
      OptionalRuns(db, accepted, u);
    }
    hide Running;
    if MeantOptionally(db, accepted, p) {
      ListedAt(us, Update(p.table, p.column, false), db, p);
    }
  }

  lemma ListedInEither(us: seq<Update>, vs: seq<Update>, db: Database, p: Place)
    ensures Listed(us + vs, db, p) <==> Listed(us, db, p) || Listed(vs, db, p)
  {
  }

  /**
   * The whole change, with the optional statements that can be executed: each cell that is meant and holds the
   * old id gets the new one, and every other cell stays.
   */
  lemma ChangeEffect(accepted: seq<bool>, oldId: int64, newId: int64, db: Database, p: Place)
    requires |accepted| == 25 && Has(db, p)
    ensures var db' := ExecAll(MANDATORY + Running(db, OPTIONAL, accepted[21..]), oldId, newId, db);
            Has(db', p) && At(db', p) == if (Meant(db, p) || MeantOptionally(db, accepted, p))
                                            && At(db, p) == Number(oldId) then Number(newId) else At(db, p)
  {
    NoGuardChanges();
    var optional := Running(db, OPTIONAL, accepted[21..]);
    var us := MANDATORY + optional;
    assert GuardKept(us) by { assert forall u | u in us :: u in MANDATORY || u in OPTIONAL; }
    hide GuardKept;
    hide Meant;
    hide MeantOptionally;
    hide Listed;
    hide Running;
    SequentialIsSimultaneous(us, oldId, newId, db);
    RenamedAt(us, us, oldId, newId, db, p);
    ListedInEither(MANDATORY, optional, db, p);
    OptionalListed(db, accepted, p);
    if Listed(MANDATORY, db, p) { ListedIsMeant(db, p); }
    if Meant(db, p) { MeantIsListed(db, p); }
    hide Renamed;
    hide ExecAll;
    hide At;
  }
}

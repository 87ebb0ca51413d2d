/**
  What an answer does: how it reaches the organizer's event, and when it may overwrite an earlier
  one.  And the one way in which a delivery reaches users who are on neither list.
 */
module ScheduleAnswers {
  import opened Itip
  import opened Strings
  import opened Schedule
  import opened ScheduleRuns
  import opened ScheduleDelivery
  import opened Wrappers

  // ----- the organizer's event -----

  predicate Occurs(lines: seq<Attendee>, key: string) {
    exists j :: 0 <= j < |lines| && Key(lines[j].value) == key
  }

  lemma OccursSnoc(lines: seq<Attendee>, key: string)
    requires lines != []
    ensures Occurs(lines, key) <==> Occurs(lines[..|lines| - 1], key) || Key(lines[|lines| - 1].value) == key
  {
    var k := |lines| - 1;
    hide Key;
    forall j | 0 <= j < k ensures lines[..k][j] == lines[j] {
    }
    if j :| 0 <= j < k && Key(lines[j].value) == key {
      assert Key(lines[..k][j].value) == key;
    }
  }

  /** What the lines say after an answer: the answer for each wanted address, and else what they said. */
  lemma {:induction false} LastOfAnswered(lines: seq<Attendee>, want: set<string>, partstat: string, key: string)
    requires partstat != ""
    ensures LastPartstat(SetLines(lines, want, partstat), key) ==
            if key in want && Occurs(lines, key) then Some(partstat) else LastPartstat(lines, key)
  {
    if lines != [] {
      var k := |lines| - 1;
      var answered := SetLines(lines, want, partstat);
      assert answered[..k] == SetLines(lines[..k], want, partstat);
      LastOfAnswered(lines[..k], want, partstat, key);
      OccursSnoc(lines, key);
    }
  }

  /** The organizer's own object with the UID, as FindOwnedObjectByUID finds it. */
  ghost function OrganizersCopy(env: Env, t: Objects, organizer: User, uid: string): Option<Ics>
    requires Faithful(env)
  {
    var cals := OwnedHolding(env, t, organizer.id, uid);
    if cals == {} then None
    else
      var col := env.pickCal(cals);
      Some(At(t, col)[env.pickHref(Holders(t, col, uid))].ics)
  }

  lemma OwnedHoldingIsOwned(env: Env, t: Objects, user: UserId, uid: string, col: int)
    requires Faithful(env) && col in OwnedHolding(env, t, user, uid)
    ensures col > 0 && Holders(t, col, uid) != {}
  {
    assert InOwned(env, user, col);
    OwnedIsPositive(env, user, col);
  }

  /** Changes to inboxes and outboxes do not change which copy is found. */
  lemma BoxesDoNotMatter(env: Env, a: Objects, b: Objects, organizer: User, uid: string)
    requires Faithful(env) && forall col | col > 0 :: At(a, col) == At(b, col)
    ensures OwnedHolding(env, a, organizer.id, uid) == OwnedHolding(env, b, organizer.id, uid)
    ensures OrganizersCopy(env, a, organizer, uid) == OrganizersCopy(env, b, organizer, uid)
  {
    forall col | InOwned(env, organizer.id, col)
      ensures Holders(a, col, uid) == Holders(b, col, uid)
    {
      OwnedIsPositive(env, organizer.id, col);
      assert At(a, col) == At(b, col);
    }
    var cals := OwnedHolding(env, a, organizer.id, uid);
    assert cals == OwnedHolding(env, b, organizer.id, uid);
    if cals != {} {
      OwnedHoldingIsOwned(env, a, organizer.id, uid, env.pickCal(cals));
    }
  }

  /** A merged reply is in the organizer's copy: same lines, each with the last PARTSTAT replied for it. */
  lemma MergedIntoCopy(env: Env, t: Objects, organizer: User, reply: Ics)
    requires Faithful(env) && CalendarUID(reply) != "" && Attendees(reply) != []
    requires OrganizersCopy(env, t, organizer, CalendarUID(reply)).Some?
    ensures var before := OrganizersCopy(env, t, organizer, CalendarUID(reply)).value;
            OrganizersCopy(env, MergeReply(env, t, organizer, reply), organizer, CalendarUID(reply))
              == Some(WithAttendees(before, MergeLines(Attendees(before), Attendees(reply))))
  {
    var uid := CalendarUID(reply);
    var cals := OwnedHolding(env, t, organizer.id, uid);
    var col := env.pickCal(cals);
    OwnedHoldingIsOwned(env, t, organizer.id, uid, col);
    var href := env.pickHref(Holders(t, col, uid));
    var before := At(t, col)[href].ics;
    var updated := WithAttendees(before, MergeLines(Attendees(before), Attendees(reply)));
    if updated != before {
      var copy := ObjOf(env, At(t, col)[href].uid, updated);
      OverwriteKeepsHolders(env, t, col, href, copy);
      var after := Upsert(env, t, col, href, copy);
      assert OwnedHolding(env, after, organizer.id, uid) == cals by {
        forall c ensures c in OwnedHolding(env, after, organizer.id, uid) <==> c in cals {
          assert Holders(after, c, uid) == Holders(t, c, uid);
        }
      }
    }
  }

  /**
    An answer reaches the organizer's event.  Its attendee list keeps addresses, order and length;
    a line for an identity of the answering user that occurs in the invitation takes the answer, and
    any other line takes what the invitation last said about it.
   */
  lemma AnswerReachesOrganizer(env: Env, w: World, organizer: User, attendee: User, id: nat, item: Row, status: Status)
    requires Faithful(env) && IsSettled(status)
    requires CalendarUID(item.ics) != "" && Attendees(item.ics) != []
    requires OrganizersCopy(env, w.objects, organizer, CalendarUID(item.ics)).Some?
    ensures var uid := CalendarUID(item.ics);
            var lines := Attendees(OrganizersCopy(env, w.objects, organizer, uid).value);
            var after := OrganizersCopy(env, Answered(env, w, organizer, attendee, id, item, status).objects, organizer, uid);
            && after.Some?
            && |Attendees(after.value)| == |lines|
            && forall i :: 0 <= i < |lines| ==>
                 Attendees(after.value)[i] == AnsweredLine(lines[i], attendee, Attendees(item.ics), status)
  {
    var before := OrganizersCopy(env, w.objects, organizer, CalendarUID(item.ics)).value;
    AnswerLines(attendee, item, status);
    CopyAfterAnswer(env, w, organizer, attendee, id, item, status);
    MergedLines(before, WithMethod(Answer(attendee, item, status), "REPLY"), attendee, Attendees(item.ics), status);
  }

  lemma CopyAfterAnswer(env: Env, w: World, organizer: User, attendee: User, id: nat, item: Row, status: Status)
    requires Faithful(env) && IsSettled(status)
    requires CalendarUID(item.ics) != "" && Attendees(item.ics) != []
    requires OrganizersCopy(env, w.objects, organizer, CalendarUID(item.ics)).Some?
    ensures var before := OrganizersCopy(env, w.objects, organizer, CalendarUID(item.ics)).value;
            var reply := WithMethod(Answer(attendee, item, status), "REPLY");
            OrganizersCopy(env, Answered(env, w, organizer, attendee, id, item, status).objects, organizer, CalendarUID(item.ics))
              == Some(WithAttendees(before, MergeLines(Attendees(before), Attendees(reply))))
  {
    hide Answer, Faithful, OrganizersCopy, MergeReply, InsertRow, SetStatus, Attendees, WithAttendees, MergeLines, CalendarUID;
    var uid := CalendarUID(item.ics);
    var reply := WithMethod(Answer(attendee, item, status), "REPLY");
    AnswerLines(attendee, item, status);
    var o1 := Upsert(env, w.objects, InboxOf(organizer.id), ReplyHref(item.uid, attendee.username), ObjOf(env, item.uid, reply));
    BoxesDoNotMatter(env, w.objects, o1, organizer, uid);
    MergedIntoCopy(env, o1, organizer, reply);
    var o2 := MergeReply(env, o1, organizer, reply);
    BoxesDoNotMatter(env, o2, DeleteUid(o2, InboxOf(attendee.id), item.uid), organizer, uid);
  }

  /** The line of the organizer's event after the answer. */
  function AnsweredLine(line: Attendee, attendee: User, invitation: seq<Attendee>, status: Status): Attendee
    requires IsSettled(status)
  {
    var key := Key(line.value);
    if key in KeysOf(attendee.identities) && Occurs(invitation, key) then line.(partstat := PartstatOf(status))
    else if key != "" && LastPartstat(invitation, key).Some? then line.(partstat := LastPartstat(invitation, key).value)
    else line
  }

  lemma AnswerLines(attendee: User, item: Row, status: Status)
    requires IsSettled(status)
    ensures var reply := WithMethod(Answer(attendee, item, status), "REPLY");
            && CalendarUID(reply) == CalendarUID(item.ics)
            && (Attendees(item.ics) != [] ==>
                  Attendees(reply) == SetLines(Attendees(item.ics), KeysOf(attendee.identities), PartstatOf(status)))
  {
    var clean := StripMethod(item.ics);
    EventStaysFirst(clean, SetLines(Attendees(clean), KeysOf(attendee.identities), PartstatOf(status)));
  }

  lemma MergedLines(before: Ics, reply: Ics, attendee: User, invitation: seq<Attendee>, status: Status)
    requires IsSettled(status) && Attendees(reply) == SetLines(invitation, KeysOf(attendee.identities), PartstatOf(status))
    ensures var after := Attendees(WithAttendees(before, MergeLines(Attendees(before), Attendees(reply))));
            && |after| == |Attendees(before)|
            && forall i :: 0 <= i < |after| ==> after[i] == AnsweredLine(Attendees(before)[i], attendee, invitation, status)
  {
    var lines := Attendees(before);
    var merged := MergeLines(lines, Attendees(reply));
    EventStaysFirst(before, merged);
    forall i | 0 <= i < |lines| ensures merged[i] == AnsweredLine(lines[i], attendee, invitation, status) {
      MergedLine(lines, Attendees(reply), i);
      LastOfAnswered(invitation, KeysOf(attendee.identities), PartstatOf(status), Key(lines[i].value));
    }
  }

  // ----- answering twice -----

  /**
    The check that an item is pending is made before the transaction that answers it.  Answering
    keeps every settled status exactly when the item has not been answered otherwise in the meantime.
   */
  lemma GuardIsExact(env: Env, w: World, organizer: User, attendee: User, id: nat, item: Row, status: Status)
    requires Faithful(env) && IsSettled(status) && KeysAreUnique(w.rows)
    requires id < |w.rows| && w.rows[id].user == attendee.id && w.rows[id].verb == "REQUEST"
    ensures RowsExtend(w.rows, Answered(env, w, organizer, attendee, id, item, status).rows) <==>
            !IsSettled(w.rows[id].status) || w.rows[id].status == status
  {
    var reply := WithMethod(Answer(attendee, item, status), "REPLY");
    var n := Row(organizer.id, Inbox, "REPLY", item.uid, organizer.username, attendee.username, status, reply);
    var r1 := InsertRow(w.rows, n);
    assert r1[id] == w.rows[id];
    var r2 := SetStatus(r1, attendee.id, id, status);
    assert Answered(env, w, organizer, attendee, id, item, status).rows == r2;
    assert r2[id].status == status;
    forall i | 0 <= i < |w.rows| && i != id
      ensures SameKey(w.rows[i], r2[i]) && (IsSettled(w.rows[i].status) ==> r2[i].status == w.rows[i].status)
    {
    }
  }

  lemma InsertAndSetKeepKeys(rows: Rows, n: Row, user: UserId, id: nat, status: Status)
    requires KeysAreUnique(rows)
    ensures var after := SetStatus(InsertRow(rows, n), user, id, status);
            KeysAreUnique(after) && |rows| <= |after| && forall i :: 0 <= i < |rows| ==> SameKey(rows[i], after[i])
  {
    hide FindRow;
    var mid := InsertRow(rows, n);
    assert KeysAreUnique(mid) && forall i :: 0 <= i < |rows| ==> SameKey(rows[i], mid[i]);
    assert forall i :: 0 <= i < |mid| ==> SameKey(mid[i], SetStatus(mid, user, id, status)[i]);
  }

  lemma AnsweredRow(env: Env, w: World, organizer: User, attendee: User, id: nat, item: Row, status: Status)
    requires Faithful(env) && IsSettled(status) && KeysAreUnique(w.rows)
    requires id < |w.rows| && w.rows[id].user == attendee.id
    ensures var after := Answered(env, w, organizer, attendee, id, item, status).rows;
            && KeysAreUnique(after) && id < |after|
            && SameKey(w.rows[id], after[id]) && after[id].status == status
  {
    hide Answer, MergeReply, KeysAreUnique, Faithful;
    var reply := WithMethod(Answer(attendee, item, status), "REPLY");
    var n := Row(organizer.id, Inbox, "REPLY", item.uid, organizer.username, attendee.username, status, reply);
    InsertAndSetKeepKeys(w.rows, n, attendee.id, id, status);
    assert Answered(env, w, organizer, attendee, id, item, status).rows == SetStatus(InsertRow(w.rows, n), attendee.id, id, status);
  }

  /**
    Two answers to one pending item, both past the check before either is written: the invitation is
    accepted, then declined, and a settled status has changed.
   */
  lemma AcceptThenDecline(env: Env, later: Env, w: World, attendee: User, id: nat, calendarId: int)
    requires Faithful(env) && Faithful(later) && KeysAreUnique(w.rows)
    requires id < |w.rows| && w.rows[id].user == attendee.id && w.rows[id].verb == "REQUEST" && w.rows[id].status.Pending?
    requires Accept(env, w, attendee, id, w.rows[id], calendarId).Some?
    ensures var item := w.rows[id];
            var accepted := Accept(env, w, attendee, id, item, calendarId).value;
            && id < |accepted.rows| && accepted.rows[id].status.Accepted?
            && var declined := Decline(later, accepted, attendee, id, item);
               declined.Some? ==>
                 && id < |declined.value.rows| && declined.value.rows[id].status.Declined?
                 && !RowsExtend(accepted.rows, declined.value.rows)
  {
    hide Answered, KeysAreUnique, Faithful, RowsExtend;
    var item := w.rows[id];
    var organizer := FindUser(env, item.organizer).value;
    var o1 := Upsert(env, w.objects, AcceptCalendar(Calendars(env, attendee.id), calendarId).value, item.uid + ".ics",
                     ObjOf(env, item.uid, Answer(attendee, item, Accepted)));
    AnsweredRow(env, World(o1, w.rows), organizer, attendee, id, item, Accepted);
    var accepted := Accept(env, w, attendee, id, item, calendarId).value;
    if Decline(later, accepted, attendee, id, item).Some? {
      AnsweredRow(later, accepted, FindUser(later, item.organizer).value, attendee, id, item, Declined);
      GuardIsExact(later, accepted, FindUser(later, item.organizer).value, attendee, id, item, Declined);
    }
  }

  // ----- shared calendars -----

  ghost function Any<T>(s: set<T>, default: T): (x: T)
    ensures s != {} ==> x in s
  {
    if s == {} then default else var x :| x in s; x
  }

  const ANN := User(0, "ann", true, [])
  const BOB := User(1, "bob", true, [])
  const CARLAS := 7
  const MEETING := Ics(None, [Component("VEVENT", "u", "", "", [Attendee("bob", "", "", map[])], 1)])
  const OLD_MEETING := Ics(None, [Component("VEVENT", "u", "", "", [Attendee("bob", "", "", map[])], 0)])

  /** Carla, user 2, shares calendar 7 with Bob, who may write to it. */
  ghost function SharingEnv(): Env {
    Env(map["bob" := BOB],
        map[1 := [Listed(CARLAS, Personal, false, true, true)], 2 := [Listed(CARLAS, Personal, false, false, false)]],
        map[2 := {CARLAS}], (ics: Ics) => "", s => Any(s, ""), s => Any(s, 0))
  }

  ghost function SharingWorld(): World {
    World(map[CARLAS := map["m.ics" := Obj("u", "", OLD_MEETING)]],
          [Row(1, Inbox, "REQUEST", "u", "ann", "bob", Accepted, OLD_MEETING)])
  }

  lemma SharingIsFaithful()
    ensures Faithful(SharingEnv())
  {
    var env := SharingEnv();
    forall u, id ensures InOwned(env, u, id) <==> exists c :: c in Calendars(env, u) && IsOwn(c) && c.id == id {
      if InOwned(env, u, id) {
        var c := Listed(CARLAS, Personal, false, false, false);
        assert Calendars(env, 2)[0] == c;
        assert c in Calendars(env, u) && IsOwn(c) && c.id == id;
      }
    }
  }

  /**
    The condition in OthersAreUntouched is needed: Ann changes a meeting with Bob, and the copy that
    Carla keeps in the calendar she shares with Bob is rewritten, although Carla is on neither list.
   */
  lemma SharedCalendarIsRewritten()
    ensures var env := SharingEnv();
            && Faithful(env)
            && !HasUser(LocalAttendees(env, ANN, MEETING), 2)
            && InOwned(env, 2, CARLAS)
            && At(DeliverFromPut(env, SharingWorld(), ANN, Personal, "u", MEETING, Some(OLD_MEETING)).objects, CARLAS)
                 != At(SharingWorld().objects, CARLAS)
  {
    SharingIsFaithful();
    BobIsInvited(SharingEnv(), MEETING);
    BobIsInvited(SharingEnv(), OLD_MEETING);
    NotBob();
    OnlyBobsDelivery();
    hide DeliverOne, DeliverFromPut, LocalAttendees, Faithful;
    BobsDeliveryRewrites();
  }

  lemma NotBob()
    ensures !HasUser([BOB], 2)
  {
    assert [BOB][0].id == 1;
  }

  lemma OnlyBobsDelivery()
    requires LocalAttendees(SharingEnv(), ANN, MEETING) == LocalAttendees(SharingEnv(), ANN, OLD_MEETING) == [BOB]
    ensures DeliverFromPut(SharingEnv(), SharingWorld(), ANN, Personal, "u", MEETING, Some(OLD_MEETING))
              == DeliverOne(SharingEnv(), SharingWorld(), ANN, "u", MEETING, BOB)
  {
    hide DeliverOne, LocalAttendees, CancelOne;
    assert Removed([BOB], [BOB]) == [] by {
      assert HasUser([BOB], 1) by { assert [BOB][0].id == 1; }
      assert [BOB][..0] == [];
    }
    assert Schedules(ANN, Personal, MEETING) by { NoOrganizer(MEETING); }
    assert [BOB][..0] == [];
  }

  lemma NoOrganizer(ics: Ics)
    requires ics == MEETING || ics == OLD_MEETING || ics == WITHOUT_BOB
    ensures AddrOf(OrganizerValue(ics)) == ""
  {
  }

  lemma BobIsInvited(env: Env, ics: Ics)
    requires (ics == MEETING || ics == OLD_MEETING) && env.find == map["bob" := BOB]
    ensures LocalAttendees(env, ANN, ics) == [BOB]
  {
    var lines := Attendees(ics);
    assert lines == [Attendee("bob", "", "", map[])];
    assert Trim("bob") == "bob" by { TrimOfTrimmed("bob"); }
    assert FindUser(env, "bob") == Some(BOB);
    assert lines[..0] == [];
    assert LocalUsers(env, ANN, []) == [];
  }

  lemma BobsDeliveryRewrites()
    requires Faithful(SharingEnv())
    ensures At(DeliverOne(SharingEnv(), SharingWorld(), ANN, "u", MEETING, BOB).objects, CARLAS)
              != At(SharingWorld().objects, CARLAS)
  {
    hide RefreshAcceptedCopy, Faithful, AcceptedCopy, Upsert;
    var w := SharingWorld();
    assert FindRow(w.rows, 1, Inbox, "REQUEST", "u", "bob") == Some(0);
    RefreshRewrites();
    OutboxUpsertLeaves(RefreshAcceptedCopy(SharingEnv(), w.objects, BOB, "u", MEETING));
  }

  lemma OutboxUpsertLeaves(t: Objects)
    ensures forall href, obj :: At(Upsert(SharingEnv(), t, OutboxOf(0), href, obj), CARLAS) == At(t, CARLAS)
  {
  }

  lemma RefreshRewrites()
    requires Faithful(SharingEnv())
    ensures At(RefreshAcceptedCopy(SharingEnv(), SharingWorld().objects, BOB, "u", MEETING), CARLAS)
              != At(SharingWorld().objects, CARLAS)
  {
    var env, w := SharingEnv(), SharingWorld();
    var list := Calendars(env, 1);
    var holders := Holders(w.objects, CARLAS, "u");
    assert holders == {"m.ics"};
    assert list[0].CanWrite() && RefreshTarget(w.objects, list, "u") == Some(0);
    assert env.pickHref(holders) in holders;
    var copy := ObjOf(env, "u", AcceptedCopy(BOB, MEETING));
    var after := RefreshAcceptedCopy(env, w.objects, BOB, "u", MEETING);
    assert after == Upsert(env, w.objects, CARLAS, "m.ics", copy);
    assert At(after, CARLAS)["m.ics"].ics.comps[0].body == 1;
  }

  // ----- invited again -----

  const BOBS := 8
  const WITHOUT_BOB := Ics(None, [Component("VEVENT", "u", "", "", [], 2)])

  /** Bob has calendar 8 of his own. */
  ghost function OwnEnv(): Env {
    Env(map["bob" := BOB], map[1 := [Listed(BOBS, Personal, false, false, false)]], map[1 := {BOBS}],
        (ics: Ics) => "", s => Any(s, ""), s => Any(s, 0))
  }

  /** Bob has accepted the meeting and has it in his calendar. */
  ghost function AcceptedWorld(): World {
    World(map[BOBS := map["u.ics" := Obj("u", "", MEETING)]],
          [Row(1, Inbox, "REQUEST", "u", "ann", "bob", Accepted, MEETING)])
  }

  function Name(user: UserId): string {
    if user == 1 then "bob" else "ann"
  }

  lemma OwnIsFaithful()
    ensures Faithful(OwnEnv()) && InOwned(OwnEnv(), 1, BOBS)
  {
    var env := OwnEnv();
    var c := Listed(BOBS, Personal, false, false, false);
    assert Calendars(env, 1)[0] == c;
    forall u, id ensures InOwned(env, u, id) <==> exists d :: d in Calendars(env, u) && IsOwn(d) && d.id == id {
      if InOwned(env, u, id) {
        assert c in Calendars(env, u) && IsOwn(c) && c.id == id;
      }
    }
  }

  lemma AcceptedWorldIsFine()
    ensures Inv(AcceptedWorld(), Name) && Settled(AcceptedWorld(), BOB, "u")
    ensures Holds(AcceptedWorld().objects, BOBS, "u", "u.ics")
  {
    var w := AcceptedWorld();
    assert FindRow(w.rows, 1, Inbox, "REQUEST", "u", "bob") == Some(0);
    forall user, uid ensures !InvitedBy(w.objects, user, uid) {
      assert InboxOf(user) != BOBS;
    }
  }

  lemma NobodyIsInvited()
    ensures LocalAttendees(OwnEnv(), ANN, WITHOUT_BOB) == []
  {
    assert Attendees(WITHOUT_BOB) == [];
  }

  /** Ann takes Bob, who has accepted, off the meeting and invites him again: his copy is gone and no invitation comes. */
  lemma BobIsInvitedInVain()
    ensures var (env, w) := (OwnEnv(), AcceptedWorld());
            var dropped := DeliverFromPut(env, w, ANN, Personal, "u", WITHOUT_BOB, Some(MEETING));
            var again := DeliverFromPut(env, dropped, ANN, Personal, "u", MEETING, Some(WITHOUT_BOB));
            && Faithful(env) && Inv(w, Name) && Settled(w, BOB, "u")
            && InOwned(env, 1, BOBS) && Holds(w.objects, BOBS, "u", "u.ics")
            && LocalAttendees(env, ANN, MEETING) == [BOB] && LocalAttendees(env, ANN, WITHOUT_BOB) == []
            && (forall h :: !Holds(again.objects, BOBS, "u", h)) && !InvitedBy(again.objects, 1, "u")
  {
    OwnIsFaithful();
    AcceptedWorldIsFine();
    BobIsInvited(OwnEnv(), MEETING);
    NobodyIsInvited();
    assert Schedules(ANN, Personal, MEETING) && Schedules(ANN, Personal, WITHOUT_BOB) by {
      NoOrganizer(MEETING);
      NoOrganizer(WITHOUT_BOB);
    }
    hide DeliverFromPut, LocalAttendees, Inv, Settled, Faithful, InvitedBy, Schedules;
    InvitedAgain(OwnEnv(), AcceptedWorld(), ANN, Personal, "u", MEETING, WITHOUT_BOB, BOB, Name);
  }
}

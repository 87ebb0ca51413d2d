/**
  What single deliveries promise: to attendees who were dropped, to those who remain, to everybody
  else, and to an attendee who has already answered.
 */
module ScheduleDelivery {
  import opened Itip
  import opened Schedule
  import opened ScheduleRuns
  import opened Wrappers

  // ----- who is on the list -----

  ghost predicate AreGuests(users: seq<User>, organizer: User) {
    && (forall i :: 0 <= i < |users| ==> users[i].active && users[i].id != organizer.id)
    && (forall i, j :: 0 <= i < j < |users| ==> users[i].id != users[j].id)
  }

  lemma OneMoreGuest(users: seq<User>, u: User, organizer: User)
    requires AreGuests(users, organizer) && u.active && u.id != organizer.id && !HasUser(users, u.id)
    ensures AreGuests(users + [u], organizer)
  {
    forall i | 0 <= i < |users| ensures users[i].id != u.id {
      NotAmong(users, u.id, i);
    }
  }

  /** Local attendees are active, are not the organizer, and occur once. */
  lemma {:induction false} LocalUsersAreGuests(env: Env, organizer: User, lines: seq<Attendee>)
    ensures AreGuests(LocalUsers(env, organizer, lines), organizer)
  {
    if lines != [] {
      LocalUsersAreGuests(env, organizer, lines[..|lines| - 1]);
      var before := LocalUsers(env, organizer, lines[..|lines| - 1]);
      match FindUser(env, lines[|lines| - 1].value)
      case None =>
      case Some(u) =>
        if u.active && u.id != organizer.id && !HasUser(before, u.id) {
          OneMoreGuest(before, u, organizer);
        }
    }
  }

  lemma NotAmong(users: seq<User>, id: UserId, i: nat)
    requires !HasUser(users, id) && i < |users|
    ensures users[i].id != id && !HasUser(users[..i], id)
  {
    assert forall j :: 0 <= j < i ==> users[..i][j] == users[j];
  }

  /** Whoever is on the list is an active user other than the organizer. */
  lemma IsGuest(env: Env, organizer: User, lines: seq<Attendee>, a: User)
    requires a in LocalUsers(env, organizer, lines)
    ensures a.active && a.id != organizer.id
  {
    LocalUsersAreGuests(env, organizer, lines);
    var users := LocalUsers(env, organizer, lines);
    var i :| 0 <= i < |users| && users[i] == a;
  }

  lemma {:induction false} RemovedAreDropped(prev: seq<User>, cur: seq<User>)
    ensures forall u :: u in Removed(prev, cur) <==> u in prev && !HasUser(cur, u.id)
  {
    if prev != [] {
      RemovedAreDropped(prev[..|prev| - 1], cur);
      assert prev == prev[..|prev| - 1] + [prev[|prev| - 1]];
    }
  }

  // ----- dropped attendees -----

  ghost predicate NoCopy(env: Env, t: Objects, user: UserId, uid: string) {
    forall id, h :: InOwned(env, user, id) ==> !Holds(t, id, uid, h)
  }

  ghost predicate NonePending(rows: Rows, user: UserId, uid: string) {
    forall i :: 0 <= i < |rows| && rows[i].user == user && rows[i].box.Inbox? && rows[i].uid == uid ==>
      !rows[i].status.Pending?
  }

  /** Nothing with the UID in the user's own calendars, and nothing pending for it. */
  ghost predicate IsDropped(env: Env, w: World, user: UserId, uid: string) {
    NoCopy(env, w.objects, user, uid) && NonePending(w.rows, user, uid)
  }

  lemma OwnedIsPositive(env: Env, user: UserId, id: int)
    requires Faithful(env) && InOwned(env, user, id)
    ensures id > 0
  {
    var c :| c in Calendars(env, user) && IsOwn(c) && c.id == id;
  }

  lemma {:induction false} DeletedFromOwned(t: Objects, list: seq<Listed>, uid: string, c: Listed, h: string)
    requires c in list && IsOwn(c)
    ensures !Holds(DeleteFromOwned(t, list, uid), c.id, uid, h)
  {
    var k := |list| - 1;
    var before := DeleteFromOwned(t, list[..k], uid);
    if c == list[k] {
      DeleteUidIsWithin(before, c.id, uid);
    } else {
      DeletedFromOwned(t, list[..k], uid, c, h);
      DeleteUidIsWithin(before, list[k].id, uid);
    }
  }

  /** A delivery to somebody else cannot bring the UID back into the user's calendars. */
  lemma UpsertElsewhere(env: Env, t: Objects, col: int, href: string, obj: Obj, user: UserId, uid: string)
    requires NoCopy(env, t, user, uid)
    requires !InOwned(env, user, col)
    ensures NoCopy(env, Upsert(env, t, col, href, obj), user, uid)
  {
    forall id, h | InOwned(env, user, id) ensures !Holds(Upsert(env, t, col, href, obj), id, uid, h) {
      UpsertAt(env, t, col, href, obj, id, uid, h);
    }
  }

  lemma SchedulingBoxesAreNotOwned(env: Env, user: UserId, other: UserId)
    requires Faithful(env)
    ensures !InOwned(env, user, InboxOf(other)) && !InOwned(env, user, OutboxOf(other))
  {
    if InOwned(env, user, InboxOf(other)) {
      OwnedIsPositive(env, user, InboxOf(other));
    }
    if InOwned(env, user, OutboxOf(other)) {
      OwnedIsPositive(env, user, OutboxOf(other));
    }
  }

  lemma InsertPendsNothing(rows: Rows, n: Row, user: UserId, uid: string)
    requires NonePending(rows, user, uid) && (n.user != user || !n.status.Pending?)
    ensures NonePending(InsertRow(rows, n), user, uid)
  {
  }

  lemma CancelDrops(env: Env, w: World, organizer: User, uid: string, ics: Ics, a: User)
    requires Faithful(env) && a.active && a.id != organizer.id
    ensures IsDropped(env, CancelOne(env, w, organizer, uid, ics, a), a.id, uid)
  {
    var cancel := WithMethod(ics, "CANCEL");
    var copy := ObjOf(env, uid, cancel);
    var href := CopyHref(uid, a.username);
    var o1 := Upsert(env, w.objects, InboxOf(a.id), href, copy);
    var o2 := DeleteFromOwned(o1, Calendars(env, a.id), uid);
    forall id, h | InOwned(env, a.id, id) ensures !Holds(o2, id, uid, h) {
      var c :| c in Calendars(env, a.id) && IsOwn(c) && c.id == id;
      DeletedFromOwned(o1, Calendars(env, a.id), uid, c, h);
    }
    SchedulingBoxesAreNotOwned(env, a.id, organizer.id);
    UpsertElsewhere(env, o2, OutboxOf(organizer.id), href, copy, a.id, uid);
    var r1 := InsertRow(w.rows, Row(a.id, Inbox, "CANCEL", uid, organizer.username, a.username, Cancelled, cancel));
    var n3 := Row(organizer.id, Outbox, "CANCEL", uid, organizer.username, a.username, Processed, cancel);
    InsertPendsNothing(ClosePending(r1, a.id, uid), n3, a.id, uid);
  }

  lemma CancelMakesNoCopy(env: Env, w: World, organizer: User, uid: string, ics: Ics, b: User, user: UserId)
    requires Faithful(env) && NoCopy(env, w.objects, user, uid)
    ensures NoCopy(env, CancelOne(env, w, organizer, uid, ics, b).objects, user, uid)
  {
    if b.id != organizer.id && b.active {
      var copy := ObjOf(env, uid, WithMethod(ics, "CANCEL"));
      var href := CopyHref(uid, b.username);
      SchedulingBoxesAreNotOwned(env, user, b.id);
      SchedulingBoxesAreNotOwned(env, user, organizer.id);
      var o1 := Upsert(env, w.objects, InboxOf(b.id), href, copy);
      UpsertElsewhere(env, w.objects, InboxOf(b.id), href, copy, user, uid);
      var o2 := DeleteFromOwned(o1, Calendars(env, b.id), uid);
      DeleteFromOwnedIsWithin(o1, Calendars(env, b.id), uid);
      UpsertElsewhere(env, o2, OutboxOf(organizer.id), href, copy, user, uid);
    }
  }

  lemma CancelKeepsDropped(env: Env, w: World, organizer: User, uid: string, ics: Ics, b: User, user: UserId)
    requires Faithful(env) && IsDropped(env, w, user, uid)
    ensures IsDropped(env, CancelOne(env, w, organizer, uid, ics, b), user, uid)
  {
    CancelMakesNoCopy(env, w, organizer, uid, ics, b, user);
    if b.id != organizer.id && b.active {
      var cancel := WithMethod(ics, "CANCEL");
      var n1 := Row(b.id, Inbox, "CANCEL", uid, organizer.username, b.username, Cancelled, cancel);
      var n3 := Row(organizer.id, Outbox, "CANCEL", uid, organizer.username, b.username, Processed, cancel);
      InsertPendsNothing(w.rows, n1, user, uid);
      InsertPendsNothing(ClosePending(InsertRow(w.rows, n1), b.id, uid), n3, user, uid);
    }
  }

  lemma RefreshMakesNoCopy(env: Env, t: Objects, a: User, uid: string, ics: Ics, user: UserId)
    requires Faithful(env) && NoCopy(env, t, user, uid)
    ensures NoCopy(env, RefreshAcceptedCopy(env, t, a, uid, ics), user, uid)
  {
    var list := Calendars(env, a.id);
    var target := RefreshTarget(t, list, uid);
    if target.Some? {
      var col := list[target.value].id;
      var h0 :| h0 in Holders(t, col, uid);
      assert Holds(t, col, uid, h0);
      UpsertElsewhere(env, t, col, env.pickHref(Holders(t, col, uid)), ObjOf(env, uid, AcceptedCopy(a, ics)), user, uid);
    }
  }

  lemma DeliverMakesNoCopy(env: Env, w: World, organizer: User, uid: string, ics: Ics, a: User, user: UserId)
    requires Faithful(env) && NoCopy(env, w.objects, user, uid)
    ensures NoCopy(env, DeliverOne(env, w, organizer, uid, ics, a).objects, user, uid)
  {
    if a.id != organizer.id && a.active {
      var copy := ObjOf(env, uid, WithMethod(ics, "REQUEST"));
      var href := CopyHref(uid, a.username);
      var settled := Settled(w, a, uid);
      SchedulingBoxesAreNotOwned(env, user, a.id);
      SchedulingBoxesAreNotOwned(env, user, organizer.id);
      var o1 := if settled then w.objects else Upsert(env, w.objects, InboxOf(a.id), href, copy);
      UpsertElsewhere(env, w.objects, InboxOf(a.id), href, copy, user, uid);
      RefreshMakesNoCopy(env, o1, a, uid, ics, user);
      var o2 := if settled && RequestStatus(w, a, uid).value.Accepted?
                then RefreshAcceptedCopy(env, o1, a, uid, ics) else o1;
      UpsertElsewhere(env, o2, OutboxOf(organizer.id), href, copy, user, uid);
    }
  }

  lemma DeliverKeepsDropped(env: Env, w: World, organizer: User, uid: string, ics: Ics, a: User, user: UserId)
    requires Faithful(env) && IsDropped(env, w, user, uid) && a.id != user
    ensures IsDropped(env, DeliverOne(env, w, organizer, uid, ics, a), user, uid)
  {
    DeliverMakesNoCopy(env, w, organizer, uid, ics, a, user);
    if a.id != organizer.id && a.active {
      var request := WithMethod(ics, "REQUEST");
      var n1 := Row(a.id, Inbox, "REQUEST", uid, organizer.username, a.username, Pending, request);
      var n2 := Row(organizer.id, Outbox, "REQUEST", uid, organizer.username, a.username, Processed, request);
      InsertPendsNothing(w.rows, n1, user, uid);
      InsertPendsNothing(InsertRow(w.rows, n1), n2, user, uid);
    }
  }

  lemma {:induction false} CancelsDrop(env: Env, w: World, organizer: User, uid: string, ics: Ics, atts: seq<User>, a: User)
    requires Faithful(env) && a in atts && a.active && a.id != organizer.id
    ensures IsDropped(env, DeliverCancel(env, w, organizer, uid, ics, atts), a.id, uid)
  {
    var k := |atts| - 1;
    var before := DeliverCancel(env, w, organizer, uid, ics, atts[..k]);
    if atts[k] == a {
      CancelDrops(env, before, organizer, uid, ics, a);
    } else {
      CancelsDrop(env, w, organizer, uid, ics, atts[..k], a);
      CancelKeepsDropped(env, before, organizer, uid, ics, atts[k], a.id);
    }
  }

  lemma {:induction false} CopiesKeepDropped(env: Env, w: World, organizer: User, uid: string, ics: Ics, atts: seq<User>, user: UserId)
    requires Faithful(env) && IsDropped(env, w, user, uid) && !HasUser(atts, user)
    ensures IsDropped(env, DeliverCopies(env, w, organizer, uid, ics, atts), user, uid)
  {
    if atts != [] {
      var k := |atts| - 1;
      NotAmong(atts, user, k);
      CopiesKeepDropped(env, w, organizer, uid, ics, atts[..k], user);
      DeliverKeepsDropped(env, DeliverCopies(env, w, organizer, uid, ics, atts[..k]), organizer, uid, ics, atts[k], user);
    }
  }

  /** After a PUT, an attendee the new version no longer has is left with neither copy nor pending item. */
  lemma DroppedAttendees(env: Env, w: World, organizer: User, kind: CalKind, uid: string, ics: Ics, prev: Ics, a: User)
    requires Faithful(env) && Schedules(organizer, kind, ics)
    requires a in LocalAttendees(env, organizer, prev) && !HasUser(LocalAttendees(env, organizer, ics), a.id)
    ensures IsDropped(env, DeliverFromPut(env, w, organizer, kind, uid, ics, Some(prev)), a.id, uid)
  {
    var before, cur := LocalAttendees(env, organizer, prev), LocalAttendees(env, organizer, ics);
    IsGuest(env, organizer, Attendees(prev), a);
    RemovedAreDropped(before, cur);
    CancelsDrop(env, w, organizer, uid, ics, Removed(before, cur), a);
    CopiesKeepDropped(env, DropRemoved(env, w, organizer, uid, ics, Some(prev)), organizer, uid, ics, cur, a.id);
  }

  // ----- remaining attendees -----

  ghost predicate HasRequestRow(rows: Rows, a: User, uid: string) {
    exists i :: 0 <= i < |rows| && Matches(rows[i], a.id, Inbox, "REQUEST", uid, a.username)
  }

  lemma InsertKeepsRow(rows: Rows, n: Row, a: User, uid: string)
    requires HasRequestRow(rows, a, uid)
    ensures HasRequestRow(InsertRow(rows, n), a, uid)
  {
    var i :| 0 <= i < |rows| && Matches(rows[i], a.id, Inbox, "REQUEST", uid, a.username);
    assert Matches(InsertRow(rows, n)[i], a.id, Inbox, "REQUEST", uid, a.username);
  }

  lemma InsertMakesRow(rows: Rows, n: Row, a: User, uid: string)
    requires Matches(n, a.id, Inbox, "REQUEST", uid, a.username)
    ensures HasRequestRow(InsertRow(rows, n), a, uid)
  {
    var found := FindRow(rows, a.id, Inbox, "REQUEST", uid, a.username);
    var i := if found.Some? then found.value else |rows|;
    assert Matches(InsertRow(rows, n)[i], a.id, Inbox, "REQUEST", uid, a.username);
  }

  lemma {:induction false} CopiesMakeRows(env: Env, w: World, organizer: User, uid: string, ics: Ics, atts: seq<User>, a: User)
    requires a in atts && a.active && a.id != organizer.id
    ensures HasRequestRow(DeliverCopies(env, w, organizer, uid, ics, atts).rows, a, uid)
  {
    var k := |atts| - 1;
    var b := atts[k];
    var before := DeliverCopies(env, w, organizer, uid, ics, atts[..k]);
    if b.id != organizer.id && b.active {
      var request := WithMethod(ics, "REQUEST");
      var n1 := Row(b.id, Inbox, "REQUEST", uid, organizer.username, b.username, Pending, request);
      var n2 := Row(organizer.id, Outbox, "REQUEST", uid, organizer.username, b.username, Processed, request);
      if b == a {
        InsertMakesRow(before.rows, n1, a, uid);
      } else {
        CopiesMakeRows(env, w, organizer, uid, ics, atts[..k], a);
        InsertKeepsRow(before.rows, n1, a, uid);
      }
      InsertKeepsRow(InsertRow(before.rows, n1), n2, a, uid);
    } else {
      CopiesMakeRows(env, w, organizer, uid, ics, atts[..k], a);
    }
  }

  /** After a PUT every local attendee of the new version has a REQUEST row. */
  lemma RemainingAttendees(env: Env, w: World, organizer: User, kind: CalKind, uid: string, ics: Ics, prevIcs: Option<Ics>, a: User)
    requires Schedules(organizer, kind, ics) && a in LocalAttendees(env, organizer, ics)
    ensures HasRequestRow(DeliverFromPut(env, w, organizer, kind, uid, ics, prevIcs).rows, a, uid)
  {
    IsGuest(env, organizer, Attendees(ics), a);
    CopiesMakeRows(env, DropRemoved(env, w, organizer, uid, ics, prevIcs), organizer, uid, ics,
                   LocalAttendees(env, organizer, ics), a);
  }

  // ----- everybody else -----

  ghost predicate BelongsTo(env: Env, user: UserId, col: int) {
    col == InboxOf(user) || col == OutboxOf(user) || InOwned(env, user, col)
  }

  /** None of the users may write to the calendar. */
  ghost predicate CannotWrite(env: Env, users: seq<User>, col: int) {
    forall i, c :: 0 <= i < |users| && c in Calendars(env, users[i].id) && c.CanWrite() ==> c.id != col
  }

  ghost predicate RowsOfStay(a: Rows, b: Rows, user: UserId) {
    && |a| <= |b|
    && (forall i :: 0 <= i < |a| && a[i].user == user ==> b[i] == a[i])
    && (forall i :: 0 <= i < |b| && b[i].user == user ==> i < |a| && a[i].user == user)
  }

  lemma InsertLeavesOthers(rows: Rows, n: Row, user: UserId)
    requires n.user != user
    ensures RowsOfStay(rows, InsertRow(rows, n), user)
  {
  }

  lemma RowsOfStayTransitive(a: Rows, b: Rows, c: Rows, user: UserId)
    requires RowsOfStay(a, b, user) && RowsOfStay(b, c, user)
    ensures RowsOfStay(a, c, user)
  {
  }

  /** The boxes and calendars of different users are different. */
  lemma ApartFrom(env: Env, user: UserId, col: int, other: UserId)
    requires Faithful(env) && BelongsTo(env, user, col) && other != user
    ensures col != InboxOf(other) && col != OutboxOf(other) && !InOwned(env, other, col)
  {
    InboxIds(user, other);
    InboxIds(other, user);
    SchedulingBoxesAreNotOwned(env, user, other);
    SchedulingBoxesAreNotOwned(env, other, user);
  }

  /** A user's inbox and outbox are nobody's to write to. */
  lemma NobodyWritesBoxes(env: Env, users: seq<User>, user: UserId)
    requires Faithful(env)
    ensures CannotWrite(env, users, InboxOf(user)) && CannotWrite(env, users, OutboxOf(user))
  {
  }

  lemma {:induction false} DeleteFromOwnedLeaves(t: Objects, list: seq<Listed>, uid: string, col: int)
    requires forall c :: c in list && IsOwn(c) ==> c.id != col
    ensures At(DeleteFromOwned(t, list, uid), col) == At(t, col)
  {
    if list != [] {
      var k := |list| - 1;
      assert list[k] in list;
      assert forall c :: c in list[..k] ==> c in list;
      DeleteFromOwnedLeaves(t, list[..k], uid, col);
    }
  }

  /** Overwriting the holder picked by an object with the same UID leaves the holders of the UID what they were. */
  lemma OverwriteKeepsHolders(env: Env, t: Objects, col: int, href: string, obj: Obj)
    requires href in Holders(t, col, obj.uid) && env.pickHref(Holders(t, col, obj.uid)) == href
    ensures var after := Upsert(env, t, col, href, obj);
            && At(after, col) == At(t, col)[href := obj]
            && (forall c :: c != col ==> At(after, c) == At(t, c))
            && (forall c :: Holders(after, c, obj.uid) == Holders(t, c, obj.uid))
  {
    var after := Upsert(env, t, col, href, obj);
    forall c ensures Holders(after, c, obj.uid) == Holders(t, c, obj.uid) {
      if c != col {
        assert At(after, c) == At(t, c);
      }
    }
  }

  lemma RefreshLeaves(env: Env, t: Objects, a: User, uid: string, ics: Ics, col: int)
    requires CannotWrite(env, [a], col)
    ensures At(RefreshAcceptedCopy(env, t, a, uid, ics), col) == At(t, col)
  {
    var list := Calendars(env, a.id);
    var target := RefreshTarget(t, list, uid);
    if target.Some? {
      assert [a][0] == a && list[target.value] in list;
    }
  }

  lemma DeliverOneLeaves(env: Env, w: World, organizer: User, uid: string, ics: Ics, a: User, user: UserId, col: int)
    requires Faithful(env) && user != organizer.id && user != a.id
    requires BelongsTo(env, user, col) && CannotWrite(env, [a], col)
    ensures At(DeliverOne(env, w, organizer, uid, ics, a).objects, col) == At(w.objects, col)
  {
    if a.id != organizer.id && a.active {
      ApartFrom(env, user, col, a.id);
      ApartFrom(env, user, col, organizer.id);
      var copy := ObjOf(env, uid, WithMethod(ics, "REQUEST"));
      var o1 := if Settled(w, a, uid) then w.objects
                else Upsert(env, w.objects, InboxOf(a.id), CopyHref(uid, a.username), copy);
      RefreshLeaves(env, o1, a, uid, ics, col);
    }
  }

  lemma DeliverOneLeavesRows(env: Env, w: World, organizer: User, uid: string, ics: Ics, a: User, user: UserId)
    requires user != organizer.id && user != a.id
    ensures RowsOfStay(w.rows, DeliverOne(env, w, organizer, uid, ics, a).rows, user)
  {
    if a.id != organizer.id && a.active {
      var request := WithMethod(ics, "REQUEST");
      var n1 := Row(a.id, Inbox, "REQUEST", uid, organizer.username, a.username, Pending, request);
      var n2 := Row(organizer.id, Outbox, "REQUEST", uid, organizer.username, a.username, Processed, request);
      InsertLeavesOthers(w.rows, n1, user);
      InsertLeavesOthers(InsertRow(w.rows, n1), n2, user);
      RowsOfStayTransitive(w.rows, InsertRow(w.rows, n1), InsertRow(InsertRow(w.rows, n1), n2), user);
    }
  }

  lemma CancelOneLeaves(env: Env, w: World, organizer: User, uid: string, ics: Ics, a: User, user: UserId, col: int)
    requires Faithful(env) && user != organizer.id && user != a.id && BelongsTo(env, user, col)
    ensures At(CancelOne(env, w, organizer, uid, ics, a).objects, col) == At(w.objects, col)
  {
    if a.id != organizer.id && a.active {
      ApartFrom(env, user, col, a.id);
      ApartFrom(env, user, col, organizer.id);
      var copy := ObjOf(env, uid, WithMethod(ics, "CANCEL"));
      var o1 := Upsert(env, w.objects, InboxOf(a.id), CopyHref(uid, a.username), copy);
      forall c | c in Calendars(env, a.id) && IsOwn(c) ensures c.id != col {
        assert InOwned(env, a.id, c.id);
      }
      DeleteFromOwnedLeaves(o1, Calendars(env, a.id), uid, col);
    }
  }

  lemma CancelOneLeavesRows(env: Env, w: World, organizer: User, uid: string, ics: Ics, a: User, user: UserId)
    requires user != organizer.id && user != a.id
    ensures RowsOfStay(w.rows, CancelOne(env, w, organizer, uid, ics, a).rows, user)
  {
    if a.id != organizer.id && a.active {
      var cancel := WithMethod(ics, "CANCEL");
      var n1 := Row(a.id, Inbox, "CANCEL", uid, organizer.username, a.username, Cancelled, cancel);
      var n3 := Row(organizer.id, Outbox, "CANCEL", uid, organizer.username, a.username, Processed, cancel);
      var r1 := InsertRow(w.rows, n1);
      var r2 := ClosePending(r1, a.id, uid);
      InsertLeavesOthers(w.rows, n1, user);
      RowsOfStayTransitive(w.rows, r1, r2, user);
      InsertLeavesOthers(r2, n3, user);
      RowsOfStayTransitive(w.rows, r2, InsertRow(r2, n3), user);
    }
  }

  lemma {:induction false} CopiesLeave(env: Env, w: World, organizer: User, uid: string, ics: Ics, atts: seq<User>, user: UserId)
    requires Faithful(env) && user != organizer.id && !HasUser(atts, user)
    ensures var after := DeliverCopies(env, w, organizer, uid, ics, atts);
            && RowsOfStay(w.rows, after.rows, user)
            && forall col :: BelongsTo(env, user, col) && CannotWrite(env, atts, col) ==>
                 At(after.objects, col) == At(w.objects, col)
  {
    if atts != [] {
      var k := |atts| - 1;
      NotAmong(atts, user, k);
      CopiesLeave(env, w, organizer, uid, ics, atts[..k], user);
      var before := DeliverCopies(env, w, organizer, uid, ics, atts[..k]);
      DeliverOneLeavesRows(env, before, organizer, uid, ics, atts[k], user);
      RowsOfStayTransitive(w.rows, before.rows, DeliverOne(env, before, organizer, uid, ics, atts[k]).rows, user);
      forall col | BelongsTo(env, user, col) && CannotWrite(env, atts, col)
        ensures At(DeliverOne(env, before, organizer, uid, ics, atts[k]).objects, col) == At(w.objects, col)
      {
        forall i, c | 0 <= i < k && c in Calendars(env, atts[..k][i].id) && c.CanWrite() ensures c.id != col {
          assert atts[..k][i] == atts[i];
        }
        DeliverOneLeaves(env, before, organizer, uid, ics, atts[k], user, col);
      }
    }
  }

  lemma {:induction false} CancelsLeave(env: Env, w: World, organizer: User, uid: string, ics: Ics, atts: seq<User>, user: UserId)
    requires Faithful(env) && user != organizer.id && !HasUser(atts, user)
    ensures var after := DeliverCancel(env, w, organizer, uid, ics, atts);
            && RowsOfStay(w.rows, after.rows, user)
            && forall col :: BelongsTo(env, user, col) ==> At(after.objects, col) == At(w.objects, col)
  {
    if atts != [] {
      var k := |atts| - 1;
      NotAmong(atts, user, k);
      CancelsLeave(env, w, organizer, uid, ics, atts[..k], user);
      var before := DeliverCancel(env, w, organizer, uid, ics, atts[..k]);
      CancelOneLeavesRows(env, before, organizer, uid, ics, atts[k], user);
      RowsOfStayTransitive(w.rows, before.rows, CancelOne(env, before, organizer, uid, ics, atts[k]).rows, user);
      forall col | BelongsTo(env, user, col)
        ensures At(CancelOne(env, before, organizer, uid, ics, atts[k]).objects, col) == At(w.objects, col)
      {
        CancelOneLeaves(env, before, organizer, uid, ics, atts[k], user, col);
      }
    }
  }

  lemma RemovedAreFromBefore(prev: seq<User>, cur: seq<User>, user: UserId)
    requires !HasUser(prev, user)
    ensures !HasUser(Removed(prev, cur), user)
  {
    RemovedAreDropped(prev, cur);
    var gone := Removed(prev, cur);
    forall i | 0 <= i < |gone| ensures gone[i].id != user {
      assert gone[i] in prev;
      var j :| 0 <= j < |prev| && prev[j] == gone[i];
      NotAmong(prev, user, j);
    }
  }

  /**
    A PUT leaves everybody alone who is on neither list: their rows, their inbox and outbox, and
    every calendar of theirs that no current attendee may write to.
   */
  lemma OthersAreUntouched(env: Env, w: World, organizer: User, kind: CalKind, uid: string, ics: Ics, prev: Ics, user: UserId)
    requires Faithful(env) && user != organizer.id
    requires !HasUser(LocalAttendees(env, organizer, ics), user) && !HasUser(LocalAttendees(env, organizer, prev), user)
    ensures var after := DeliverFromPut(env, w, organizer, kind, uid, ics, Some(prev));
            && RowsOfStay(w.rows, after.rows, user)
            && At(after.objects, InboxOf(user)) == At(w.objects, InboxOf(user))
            && At(after.objects, OutboxOf(user)) == At(w.objects, OutboxOf(user))
            && forall col :: InOwned(env, user, col) && CannotWrite(env, LocalAttendees(env, organizer, ics), col) ==>
                 At(after.objects, col) == At(w.objects, col)
  {
    if Schedules(organizer, kind, ics) {
      var cur := LocalAttendees(env, organizer, ics);
      var gone := Removed(LocalAttendees(env, organizer, prev), cur);
      RemovedAreFromBefore(LocalAttendees(env, organizer, prev), cur, user);
      CancelsLeave(env, w, organizer, uid, ics, gone, user);
      var w1 := DropRemoved(env, w, organizer, uid, ics, Some(prev));
      CopiesLeave(env, w1, organizer, uid, ics, cur, user);
      NobodyWritesBoxes(env, cur, user);
      RowsOfStayTransitive(w.rows, w1.rows, DeliverCopies(env, w1, organizer, uid, ics, cur).rows, user);
      assert BelongsTo(env, user, InboxOf(user)) && BelongsTo(env, user, OutboxOf(user));
    }
  }

  // ----- an attendee who has answered -----

  /** With unique keys, the row that FindRow finds is the only one. */
  lemma OnlyRow(rows: Rows, a: User, uid: string, i: nat)
    requires KeysAreUnique(rows) && i < |rows| && Matches(rows[i], a.id, Inbox, "REQUEST", uid, a.username)
    ensures FindRow(rows, a.id, Inbox, "REQUEST", uid, a.username) == Some(i)
  {
  }

  lemma SettledIsNotOpen(w: World, a: User, uid: string)
    requires KeysAreUnique(w.rows)
    ensures Settled(w, a, uid) ==> !IsOpen(w.rows, a.id, uid, a.username)
  {
    if Settled(w, a, uid) && IsOpen(w.rows, a.id, uid, a.username) {
      var i :| 0 <= i < |w.rows| && Matches(w.rows[i], a.id, Inbox, "REQUEST", uid, a.username) && !IsSettled(w.rows[i].status);
      OnlyRow(w.rows, a, uid, i);
    }
  }

  lemma UpsertElsewhereKeepsInvitation(env: Env, t: Objects, col: int, href: string, obj: Obj, user: UserId, uid: string)
    requires InvitedBy(t, user, uid) && col != InboxOf(user)
    ensures InvitedBy(Upsert(env, t, col, href, obj), user, uid)
  {
    var h :| InvitedAt(t, user, uid, h);
    assert InvitedAt(Upsert(env, t, col, href, obj), user, uid, h);
  }

  /** Delivering a REQUEST puts it into the inbox exactly when the attendee has not answered this UID before. */
  lemma DeliveredIffUnsettled(env: Env, w: World, organizer: User, uid: string, ics: Ics, a: User, names: UserId -> string)
    requires Faithful(env) && Inv(w, names) && Named(a, names) && a.active && a.id != organizer.id
    ensures InvitedBy(DeliverOne(env, w, organizer, uid, ics, a).objects, a.id, uid) <==> !Settled(w, a, uid)
  {
    var copy := ObjOf(env, uid, WithMethod(ics, "REQUEST"));
    var href := CopyHref(uid, a.username);
    InboxIds(a.id, organizer.id);
    if Settled(w, a, uid) {
      SettledIsNotOpen(w, a, uid);
      assert !InvitedBy(w.objects, a.id, uid);
      RefreshKeeps(env, w.objects, a, uid, ics);
      var o2 := if RequestStatus(w, a, uid).value.Accepted? then RefreshAcceptedCopy(env, w.objects, a, uid, ics) else w.objects;
      UpsertInvitesNobody(env, o2, OutboxOf(organizer.id), href, copy);
    } else {
      var o1 := Upsert(env, w.objects, InboxOf(a.id), href, copy);
      assert InvitedAt(o1, a.id, uid, href);
      UpsertElsewhereKeepsInvitation(env, o1, OutboxOf(organizer.id), href, copy, a.id, uid);
    }
  }

  lemma SettledStays(a: World, b: World, u: User, uid: string)
    requires KeysAreUnique(b.rows) && RowsExtend(a.rows, b.rows) && Settled(a, u, uid)
    ensures Settled(b, u, uid)
  {
    var i := FindRow(a.rows, u.id, Inbox, "REQUEST", uid, u.username).value;
    OnlyRow(b.rows, u, uid, i);
  }

  lemma {:induction false} CopiesMakeNoCopy(env: Env, w: World, organizer: User, uid: string, ics: Ics, atts: seq<User>, user: UserId)
    requires Faithful(env) && NoCopy(env, w.objects, user, uid)
    ensures NoCopy(env, DeliverCopies(env, w, organizer, uid, ics, atts).objects, user, uid)
  {
    if atts != [] {
      var k := |atts| - 1;
      CopiesMakeNoCopy(env, w, organizer, uid, ics, atts[..k], user);
      DeliverMakesNoCopy(env, DeliverCopies(env, w, organizer, uid, ics, atts[..k]), organizer, uid, ics, atts[k], user);
    }
  }

  /**
    An attendee who has answered, is dropped, and is then invited again gets nothing: no copy in a
    calendar of their own, and no invitation.
   */
  lemma InvitedAgain(env: Env, w: World, organizer: User, kind: CalKind, uid: string, with: Ics, without: Ics, a: User,
                     names: UserId -> string)
    requires Faithful(env) && Inv(w, names) && forall k :: k in env.find ==> Named(env.find[k], names)
    requires Schedules(organizer, kind, with) && Schedules(organizer, kind, without)
    requires a in LocalAttendees(env, organizer, with) && !HasUser(LocalAttendees(env, organizer, without), a.id)
    requires Settled(w, a, uid) && a.username == names(a.id)
    ensures var dropped := DeliverFromPut(env, w, organizer, kind, uid, without, Some(with));
            var again := DeliverFromPut(env, dropped, organizer, kind, uid, with, Some(without));
            NoCopy(env, again.objects, a.id, uid) && !InvitedBy(again.objects, a.id, uid)
  {
    var dropped := DeliverFromPut(env, w, organizer, kind, uid, without, Some(with));
    DroppedAttendees(env, w, organizer, kind, uid, without, with, a);
    PutEventKeeps(env, w, organizer, kind, uid, without, Some(with), names);
    var cur := LocalAttendees(env, organizer, with);
    var gone := Removed(LocalAttendees(env, organizer, without), cur);
    var w1 := DropRemoved(env, dropped, organizer, uid, with, Some(without));
    CancelsKeepNoCopy(env, dropped, organizer, uid, with, gone, a.id);
    CopiesMakeNoCopy(env, w1, organizer, uid, with, cur, a.id);
    var again := DeliverFromPut(env, dropped, organizer, kind, uid, with, Some(without));
    PutEventKeeps(env, dropped, organizer, kind, uid, with, Some(without), names);
    RowsExtendTransitive(w.rows, dropped.rows, again.rows);
    SettledStays(w, again, a, uid);
    SettledIsNotOpen(again, a, uid);
  }

  lemma {:induction false} CancelsKeepNoCopy(env: Env, w: World, organizer: User, uid: string, ics: Ics, atts: seq<User>, user: UserId)
    requires Faithful(env) && NoCopy(env, w.objects, user, uid)
    ensures NoCopy(env, DeliverCancel(env, w, organizer, uid, ics, atts).objects, user, uid)
  {
    if atts != [] {
      var k := |atts| - 1;
      CancelsKeepNoCopy(env, w, organizer, uid, ics, atts[..k], user);
      CancelMakesNoCopy(env, DeliverCancel(env, w, organizer, uid, ics, atts[..k]), organizer, uid, ics, atts[k], user);
    }
  }
}

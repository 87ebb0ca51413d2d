/**
  What one delivery, cancellation or answer leaves behind for the two users it concerns.
 */
module ScheduleEffects {
  import opened Itip
  import opened Schedule
  import opened ScheduleRuns
  import opened ScheduleDelivery
  import opened Wrappers

  // ----- rows -----

  /** A recorded row: found again, with the new text, and with the new status unless it was settled. */
  lemma RecordedRow(rows: Rows, n: Row)
    ensures var found := FindRow(InsertRow(rows, n), n.user, n.box, n.verb, n.uid, n.attendee);
            var before := FindRow(rows, n.user, n.box, n.verb, n.uid, n.attendee);
            && found.Some?
            && var r := InsertRow(rows, n)[found.value];
               && r.ics == n.ics && r.organizer == n.organizer
               && r.status == if before.Some? && IsSettled(rows[before.value].status) then rows[before.value].status else n.status
  {
    var before := FindRow(rows, n.user, n.box, n.verb, n.uid, n.attendee);
    if before.Some? {
      SamePlace(rows, InsertRow(rows, n), n);
    } else {
      assert (rows + [n])[|rows|] == n;
    }
  }

  lemma {:induction false} SamePlace(a: Rows, b: Rows, n: Row)
    requires |a| == |b| && forall i :: 0 <= i < |a| ==> SameKey(a[i], b[i])
    ensures FindRow(a, n.user, n.box, n.verb, n.uid, n.attendee) == FindRow(b, n.user, n.box, n.verb, n.uid, n.attendee)
  {
    if a != [] {
      SamePlace(a[..|a| - 1], b[..|b| - 1], n);
    }
  }

  /** Rows with another key do not change which row is found, nor that row. */
  lemma OtherRow(rows: Rows, n: Row, m: Row)
    requires !SameKey(n, m)
    ensures var found := FindRow(InsertRow(rows, m), n.user, n.box, n.verb, n.uid, n.attendee);
            && found == FindRow(rows, n.user, n.box, n.verb, n.uid, n.attendee)
            && (found.Some? ==> InsertRow(rows, m)[found.value] == rows[found.value])
  {
    if FindRow(rows, m.user, m.box, m.verb, m.uid, m.attendee).Some? {
      SamePlace(rows, InsertRow(rows, m), n);
    } else {
      assert (rows + [m])[..|rows|] == rows;
    }
  }

  // ----- REQUEST -----

  /** After a delivery the attendee's row has the new text, and is pending unless it was answered. */
  lemma DeliveredRow(env: Env, w: World, organizer: User, uid: string, ics: Ics, a: User)
    requires a.active && a.id != organizer.id
    ensures var after := DeliverOne(env, w, organizer, uid, ics, a);
            var found := FindRow(after.rows, a.id, Inbox, "REQUEST", uid, a.username);
            && found.Some?
            && after.rows[found.value].ics == WithMethod(ics, "REQUEST")
            && after.rows[found.value].organizer == organizer.username
            && after.rows[found.value].status == if Settled(w, a, uid) then RequestStatus(w, a, uid).value else Pending
  {
    var request := WithMethod(ics, "REQUEST");
    var n1 := Row(a.id, Inbox, "REQUEST", uid, organizer.username, a.username, Pending, request);
    var n2 := Row(organizer.id, Outbox, "REQUEST", uid, organizer.username, a.username, Processed, request);
    RecordedRow(w.rows, n1);
    OtherRow(InsertRow(w.rows, n1), n1, n2);
    hide InsertRow, FindRow, Upsert, RefreshAcceptedCopy;
  }

  /** What is delivered lies in the organizer's outbox, and in the inbox of an attendee who has not answered. */
  lemma DeliveredCopies(env: Env, w: World, organizer: User, uid: string, ics: Ics, a: User)
    requires a.active && a.id != organizer.id
    ensures var after := DeliverOne(env, w, organizer, uid, ics, a).objects;
            var (href, copy) := (CopyHref(uid, a.username), ObjOf(env, uid, WithMethod(ics, "REQUEST")));
            && Has(after, OutboxOf(organizer.id), href, copy)
            && (!Settled(w, a, uid) ==> Has(after, InboxOf(a.id), href, copy))
  {
    InboxIds(a.id, organizer.id);
    hide RefreshAcceptedCopy, Settled, RequestStatus;
  }

  ghost predicate Has(t: Objects, col: int, href: string, obj: Obj) {
    href in At(t, col) && At(t, col)[href] == obj
  }

  /** An accepted copy in a calendar that the attendee may write to is brought up to date. */
  lemma AcceptedCopyIsRefreshed(env: Env, t: Objects, a: User, uid: string, ics: Ics)
    requires Faithful(env) && RefreshTarget(t, Calendars(env, a.id), uid).Some?
    ensures var c := Calendars(env, a.id)[RefreshTarget(t, Calendars(env, a.id), uid).value];
            && c.CanWrite()
            && Has(RefreshAcceptedCopy(env, t, a, uid, ics), c.id, env.pickHref(Holders(t, c.id, uid)),
                   ObjOf(env, uid, AcceptedCopy(a, ics)))
    ensures Attendees(AcceptedCopy(a, ics)) == SetLines(Attendees(ics), KeysOf(a.identities), "ACCEPTED")
  {
    var clean := StripMethod(ics);
    EventStaysFirst(clean, SetLines(Attendees(clean), KeysOf(a.identities), "ACCEPTED"));
    assert FirstEvent(clean) == FirstEvent(ics) && Attendees(clean) == Attendees(ics);
    hide Key;
    assert FirstEvent(ics).None? ==> SetLines([], KeysOf(a.identities), "ACCEPTED") == [];
  }

  // ----- CANCEL -----

  /** A cancellation lies in the attendee's inbox and in the organizer's outbox, and its row is there. */
  lemma CancelArrives(env: Env, w: World, organizer: User, uid: string, ics: Ics, a: User)
    requires Faithful(env) && a.active && a.id != organizer.id
    ensures var after := CancelOne(env, w, organizer, uid, ics, a);
            var (href, copy) := (CopyHref(uid, a.username), ObjOf(env, uid, WithMethod(ics, "CANCEL")));
            && Has(after.objects, InboxOf(a.id), href, copy)
            && Has(after.objects, OutboxOf(organizer.id), href, copy)
            && FindRow(after.rows, a.id, Inbox, "CANCEL", uid, a.username).Some?
  {
    var cancel := WithMethod(ics, "CANCEL");
    var copy := ObjOf(env, uid, cancel);
    var o1 := Upsert(env, w.objects, InboxOf(a.id), CopyHref(uid, a.username), copy);
    InboxIds(a.id, organizer.id);
    forall c | c in Calendars(env, a.id) && IsOwn(c) ensures c.id != InboxOf(a.id) {
      assert InOwned(env, a.id, c.id);
      OwnedIsPositive(env, a.id, c.id);
    }
    DeleteFromOwnedLeaves(o1, Calendars(env, a.id), uid, InboxOf(a.id));
    CancelledRow(w.rows, organizer, uid, cancel, a);
    hide DeleteFromOwned, InsertRow, ClosePending, FindRow, Faithful;
  }

  lemma CancelledRow(rows: Rows, organizer: User, uid: string, cancel: Ics, a: User)
    ensures var n1 := Row(a.id, Inbox, "CANCEL", uid, organizer.username, a.username, Cancelled, cancel);
            var n3 := Row(organizer.id, Outbox, "CANCEL", uid, organizer.username, a.username, Processed, cancel);
            FindRow(InsertRow(ClosePending(InsertRow(rows, n1), a.id, uid), n3), a.id, Inbox, "CANCEL", uid, a.username).Some?
  {
    var n1 := Row(a.id, Inbox, "CANCEL", uid, organizer.username, a.username, Cancelled, cancel);
    var n3 := Row(organizer.id, Outbox, "CANCEL", uid, organizer.username, a.username, Processed, cancel);
    RecordedRow(rows, n1);
    SamePlace(InsertRow(rows, n1), ClosePending(InsertRow(rows, n1), a.id, uid), n1);
    OtherRow(ClosePending(InsertRow(rows, n1), a.id, uid), n1, n3);
  }

  // ----- answers -----

  /** After an answer the item has its status, the invitation is gone, and the organizer has the reply and its row. */
  lemma AnswerLeaves(env: Env, w: World, organizer: User, attendee: User, id: nat, status: Status)
    requires Faithful(env) && IsSettled(status) && attendee.id != organizer.id
    requires id < |w.rows| && w.rows[id].user == attendee.id
    ensures var item := w.rows[id];
            var after := Answered(env, w, organizer, attendee, id, item, status);
            var reply := WithMethod(Answer(attendee, item, status), "REPLY");
            && id < |after.rows| && after.rows[id].status == status
            && (forall h :: !Holds(after.objects, InboxOf(attendee.id), item.uid, h))
            && Has(after.objects, InboxOf(organizer.id), ReplyHref(item.uid, attendee.username), ObjOf(env, item.uid, reply))
            && FindRow(after.rows, organizer.id, Inbox, "REPLY", item.uid, attendee.username).Some?
  {
    var item := w.rows[id];
    var reply := WithMethod(Answer(attendee, item, status), "REPLY");
    var o1 := Upsert(env, w.objects, InboxOf(organizer.id), ReplyHref(item.uid, attendee.username), ObjOf(env, item.uid, reply));
    MergeReplyLeavesBoxes(env, o1, organizer, reply, organizer.id);
    DeleteUidIsWithin(MergeReply(env, o1, organizer, reply), InboxOf(attendee.id), item.uid);
    InboxIds(attendee.id, organizer.id);
    AnsweredRows(w.rows, Row(organizer.id, Inbox, "REPLY", item.uid, organizer.username, attendee.username, status, reply),
                 attendee.id, id, status);
    hide MergeReply, InsertRow, FindRow, Answer, Faithful, SetStatus;
  }

  lemma AnsweredRows(rows: Rows, n: Row, user: UserId, id: nat, status: Status)
    requires id < |rows| && rows[id].user == user
    ensures var after := SetStatus(InsertRow(rows, n), user, id, status);
            && id < |after| && after[id].status == status
            && FindRow(after, n.user, n.box, n.verb, n.uid, n.attendee).Some?
  {
    RecordedRow(rows, n);
    SamePlace(InsertRow(rows, n), SetStatus(InsertRow(rows, n), user, id, status), n);
  }

  /** Merging a reply writes to a calendar of the organizer's, never to an inbox or outbox. */
  lemma MergeReplyLeavesBoxes(env: Env, t: Objects, organizer: User, reply: Ics, user: UserId)
    requires Faithful(env)
    ensures At(MergeReply(env, t, organizer, reply), InboxOf(user)) == At(t, InboxOf(user))
    ensures At(MergeReply(env, t, organizer, reply), OutboxOf(user)) == At(t, OutboxOf(user))
    ensures forall col :: col > 0 && !InOwned(env, organizer.id, col) ==>
              At(MergeReply(env, t, organizer, reply), col) == At(t, col)
  {
    var cals := OwnedHolding(env, t, organizer.id, CalendarUID(reply));
    if cals != {} {
      var col := env.pickCal(cals);
      assert InOwned(env, organizer.id, col);
      OwnedIsPositive(env, organizer.id, col);
    }
  }

  /** A reply is merged into this object: the one picked in the organizer's calendar picked, if that changes it. */
  ghost predicate MergesInto(env: Env, t: Objects, organizer: User, reply: Ics, col: int, href: string)
    requires href in At(t, col)
  {
    var uid := CalendarUID(reply);
    var cals := OwnedHolding(env, t, organizer.id, uid);
    && uid != "" && Attendees(reply) != [] && cals != {}
    && col == env.pickCal(cals) && href == env.pickHref(Holders(t, col, uid))
    && Merged(At(t, col)[href].ics, reply) != At(t, col)[href].ics
  }

  function Merged(ics: Ics, reply: Ics): Ics {
    WithAttendees(ics, MergeLines(Attendees(ics), Attendees(reply)))
  }

  /** What a merged reply leaves at any href of any calendar. */
  lemma MergeReplyAt(env: Env, t: Objects, organizer: User, reply: Ics, col: int, href: string)
    requires Faithful(env) && href in At(t, col)
    ensures var obj := At(t, col)[href];
            Has(MergeReply(env, t, organizer, reply), col, href,
                if MergesInto(env, t, organizer, reply, col, href) then ObjOf(env, obj.uid, Merged(obj.ics, reply)) else obj)
  {
    hide Attendees, WithAttendees, MergeLines, CalendarUID;
    var uid := CalendarUID(reply);
    var cals := OwnedHolding(env, t, organizer.id, uid);
    if cals != {} {
      var c := env.pickCal(cals);
      assert c in cals;
      assert env.pickHref(Holders(t, c, uid)) in Holders(t, c, uid);
    }
  }

  /**
    An accepted event is in the calendar chosen, one the attendee may write to: the attendee's
    answer, or, where that calendar is the organizer's and the reply is merged into this very object,
    the answer with its own lines merged in.
   */
  lemma AcceptedEventIsThere(env: Env, w: World, attendee: User, id: nat, item: Row, calendarId: int)
    requires Faithful(env) && Accept(env, w, attendee, id, item, calendarId).Some?
    ensures var col := AcceptCalendar(Calendars(env, attendee.id), calendarId).value;
            var organizer := FindUser(env, item.organizer).value;
            var answer, href := Answer(attendee, item, Accepted), item.uid + ".ics";
            var reply := WithMethod(answer, "REPLY");
            var t := Upsert(env, Upsert(env, w.objects, col, href, ObjOf(env, item.uid, answer)),
                            InboxOf(organizer.id), ReplyHref(item.uid, attendee.username), ObjOf(env, item.uid, reply));
            && (exists c :: c in Calendars(env, attendee.id) && c.id == col && c.CanWrite())
            && Has(t, col, href, ObjOf(env, item.uid, answer))
            && Has(Accept(env, w, attendee, id, item, calendarId).value.objects, col, href,
                   if InOwned(env, organizer.id, col) && MergesInto(env, t, organizer, reply, col, href)
                   then ObjOf(env, item.uid, Merged(answer, reply)) else ObjOf(env, item.uid, answer))
  {
    hide MergeReply, MergesInto, Merged, InsertRow, Answer, SetStatus, AcceptCalendar, FindUser, WithMethod;
    var col := AcceptCalendar(Calendars(env, attendee.id), calendarId).value;
    var organizer := FindUser(env, item.organizer).value;
    AcceptCalendarIsListed(Calendars(env, attendee.id), calendarId);
    assert col > 0;
    hide Faithful;
    var answer, href := Answer(attendee, item, Accepted), item.uid + ".ics";
    var reply := WithMethod(answer, "REPLY");
    var o1 := Upsert(env, w.objects, col, href, ObjOf(env, item.uid, answer));
    var t := Upsert(env, o1, InboxOf(organizer.id), ReplyHref(item.uid, attendee.username), ObjOf(env, item.uid, reply));
    MergeReplyAt(env, t, organizer, reply, col, href);
    if MergesInto(env, t, organizer, reply, col, href) {
      MergesOwned(env, t, organizer, reply, col, href);
    }
  }

  lemma MergesOwned(env: Env, t: Objects, organizer: User, reply: Ics, col: int, href: string)
    requires Faithful(env) && href in At(t, col) && MergesInto(env, t, organizer, reply, col, href)
    ensures InOwned(env, organizer.id, col)
  {
    assert col in OwnedHolding(env, t, organizer.id, CalendarUID(reply));
  }
}

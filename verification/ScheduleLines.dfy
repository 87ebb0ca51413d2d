/**
  What a PUT, a DELETE or a posted calendar does, told by the ATTENDEE lines of the texts: whom it
  invites, whom it cancels, and whom it leaves out.
 */
module ScheduleLines {
  import opened Itip
  import opened Strings
  import opened Schedule
  import opened ScheduleRuns
  import opened ScheduleDelivery
  import opened ScheduleEffects
  import opened Wrappers

  // ----- local attendees -----

  /** The line names an active user of this server other than the organizer. */
  ghost predicate IsLocal(env: Env, organizer: User, line: Attendee, u: User) {
    FindUser(env, line.value) == Some(u) && u.active && u.id != organizer.id
  }

  lemma HasUserSnoc(users: seq<User>, u: User, id: UserId)
    ensures HasUser(users + [u], id) <==> HasUser(users, id) || u.id == id
  {
    if HasUser(users, id) {
      var i :| 0 <= i < |users| && users[i].id == id;
      assert (users + [u])[i].id == id;
    }
    if u.id == id {
      assert (users + [u])[|users|].id == id;
    }
  }

  /** Every local user that a line names is on the list. */
  lemma {:induction false} NamedAreListed(env: Env, organizer: User, lines: seq<Attendee>, i: nat, u: User)
    requires i < |lines| && IsLocal(env, organizer, lines[i], u)
    ensures HasUser(LocalUsers(env, organizer, lines), u.id)
  {
    hide FindUser, HasUser;
    var k := |lines| - 1;
    var before := LocalUsers(env, organizer, lines[..k]);
    if i < k {
      NamedAreListed(env, organizer, lines[..k], i, u);
    }
    match FindUser(env, lines[k].value)
    case None =>
    case Some(v) =>
      HasUserSnoc(before, v, u.id);
  }

  /** And whoever is on the list is named by a line. */
  lemma {:induction false} ListedAreNamed(env: Env, organizer: User, lines: seq<Attendee>, u: User) returns (i: nat)
    requires u in LocalUsers(env, organizer, lines)
    ensures i < |lines| && IsLocal(env, organizer, lines[i], u)
  {
    var k := |lines| - 1;
    if u in LocalUsers(env, organizer, lines[..k]) {
      i := ListedAreNamed(env, organizer, lines[..k], u);
    } else {
      i := k;
    }
  }

  lemma PickListed(users: seq<User>, id: UserId) returns (a: User)
    requires HasUser(users, id)
    ensures a in users && a.id == id
  {
    var i :| 0 <= i < |users| && users[i].id == id;
    a := users[i];
  }

  /** Some line names a local user with this id. */
  ghost predicate IsNamed(env: Env, organizer: User, lines: seq<Attendee>, id: UserId) {
    exists i, u :: 0 <= i < |lines| && IsLocal(env, organizer, lines[i], u) && u.id == id
  }

  /** The attendees to whom a text is delivered are exactly the local users its lines name. */
  lemma ListedIffNamed(env: Env, organizer: User, lines: seq<Attendee>, id: UserId)
    ensures HasUser(LocalUsers(env, organizer, lines), id) <==> IsNamed(env, organizer, lines, id)
  {
    if HasUser(LocalUsers(env, organizer, lines), id) {
      var a := PickListed(LocalUsers(env, organizer, lines), id);
      var i := ListedAreNamed(env, organizer, lines, a);
      assert IsLocal(env, organizer, lines[i], a);
    }
    if IsNamed(env, organizer, lines, id) {
      var i, u :| 0 <= i < |lines| && IsLocal(env, organizer, lines[i], u) && u.id == id;
      NamedAreListed(env, organizer, lines, i, u);
    }
  }

  // ----- which texts are delivered -----

  /** The organizer line is missing, or an identity of the user, in any case. */
  ghost predicate Organizes(organizer: User, ics: Ics) {
    var address := AddrOf(OrganizerValue(ics));
    || address == ""
    || exists i :: 0 <= i < |organizer.identities| && ToLower(organizer.identities[i]) == ToLower(AddrOf(address)) != ""
  }

  /** A PUT into another kind of calendar, or of an event that somebody else organizes, changes nothing. */
  lemma PutDeliversIff(env: Env, w: World, organizer: User, kind: CalKind, uid: string, ics: Ics, prevIcs: Option<Ics>)
    ensures Schedules(organizer, kind, ics) <==> (kind.Personal? || kind.SharedKind?) && Organizes(organizer, ics)
    ensures !((kind.Personal? || kind.SharedKind?) && Organizes(organizer, ics)) ==>
              && DeliverFromPut(env, w, organizer, kind, uid, ics, prevIcs) == w
              && CancelFromDelete(env, w, organizer, kind, uid, ics) == w
  {
  }

  // ----- messages -----

  /** The text with this METHOD lies in the user's inbox, under the href of the UID and the username. */
  ghost predicate HasMessage(t: Objects, a: User, uid: string, verb: string, ics: Ics) {
    var h := uid + "-" + a.username + ".ics";
    && h in At(t, InboxOf(a.id)) && At(t, InboxOf(a.id))[h].uid == uid
    && At(t, InboxOf(a.id))[h].ics.itipMethod == Some(verb) && At(t, InboxOf(a.id))[h].ics.comps == ics.comps
  }

  /** The user has accepted or declined the invitation. */
  ghost predicate HasAnswered(rows: Rows, a: User, uid: string) {
    exists i :: 0 <= i < |rows| && IsAnswer(rows[i], a, uid)
  }

  ghost predicate IsAnswer(r: Row, a: User, uid: string) {
    && r.user == a.id && r.box.Inbox? && r.verb == "REQUEST" && r.uid == uid && r.attendee == a.username
    && (r.status.Accepted? || r.status.Declined?)
  }

  lemma InsertAnswersNothing(rows: Rows, n: Row, a: User, uid: string)
    requires !HasAnswered(rows, a, uid) && !IsSettled(n.status)
    ensures !HasAnswered(InsertRow(rows, n), a, uid)
  {
    hide FindRow;
  }

  lemma CloseAnswersNothing(rows: Rows, user: UserId, uid: string, a: User, k: string)
    requires !HasAnswered(rows, a, k)
    ensures !HasAnswered(ClosePending(rows, user, uid), a, k)
  {
  }

  lemma DeliverAnswersNothing(env: Env, w: World, organizer: User, uid: string, ics: Ics, b: User, a: User)
    requires !HasAnswered(w.rows, a, uid)
    ensures !HasAnswered(DeliverOne(env, w, organizer, uid, ics, b).rows, a, uid)
  {
    if b.id != organizer.id && b.active {
      var request := WithMethod(ics, "REQUEST");
      var n1 := Row(b.id, Inbox, "REQUEST", uid, organizer.username, b.username, Pending, request);
      var n2 := Row(organizer.id, Outbox, "REQUEST", uid, organizer.username, b.username, Processed, request);
      InsertAnswersNothing(w.rows, n1, a, uid);
      InsertAnswersNothing(InsertRow(w.rows, n1), n2, a, uid);
      hide InsertRow, HasAnswered;
    }
  }

  lemma CancelAnswersNothing(env: Env, w: World, organizer: User, uid: string, ics: Ics, b: User, a: User)
    requires !HasAnswered(w.rows, a, uid)
    ensures !HasAnswered(CancelOne(env, w, organizer, uid, ics, b).rows, a, uid)
  {
    if b.id != organizer.id && b.active {
      var cancel := WithMethod(ics, "CANCEL");
      var n1 := Row(b.id, Inbox, "CANCEL", uid, organizer.username, b.username, Cancelled, cancel);
      var n3 := Row(organizer.id, Outbox, "CANCEL", uid, organizer.username, b.username, Processed, cancel);
      InsertAnswersNothing(w.rows, n1, a, uid);
      CloseAnswersNothing(InsertRow(w.rows, n1), b.id, uid, a, uid);
      InsertAnswersNothing(ClosePending(InsertRow(w.rows, n1), b.id, uid), n3, a, uid);
      hide InsertRow, ClosePending, HasAnswered;
    }
  }

  lemma {:induction false} CancelsAnswerNothing(env: Env, w: World, organizer: User, uid: string, ics: Ics, atts: seq<User>, a: User)
    requires !HasAnswered(w.rows, a, uid)
    ensures !HasAnswered(DeliverCancel(env, w, organizer, uid, ics, atts).rows, a, uid)
  {
    if atts != [] {
      var k := |atts| - 1;
      CancelsAnswerNothing(env, w, organizer, uid, ics, atts[..k], a);
      CancelAnswersNothing(env, DeliverCancel(env, w, organizer, uid, ics, atts[..k]), organizer, uid, ics, atts[k], a);
    }
  }

  lemma {:induction false} CopiesAnswerNothing(env: Env, w: World, organizer: User, uid: string, ics: Ics, atts: seq<User>, a: User)
    requires !HasAnswered(w.rows, a, uid)
    ensures !HasAnswered(DeliverCopies(env, w, organizer, uid, ics, atts).rows, a, uid)
  {
    if atts != [] {
      var k := |atts| - 1;
      CopiesAnswerNothing(env, w, organizer, uid, ics, atts[..k], a);
      DeliverAnswersNothing(env, DeliverCopies(env, w, organizer, uid, ics, atts[..k]), organizer, uid, ics, atts[k], a);
    }
  }

  lemma SettledHasAnswered(w: World, a: User, uid: string)
    ensures Settled(w, a, uid) ==> HasAnswered(w.rows, a, uid)
  {
    if Settled(w, a, uid) {
      assert IsAnswer(w.rows[FindRow(w.rows, a.id, Inbox, "REQUEST", uid, a.username).value], a, uid);
    }
  }

  /** Who has not answered is sent the text with METHOD REQUEST. */
  lemma UnansweredIsSent(env: Env, w: World, organizer: User, uid: string, ics: Ics, a: User)
    requires a.active && a.id != organizer.id && !HasAnswered(w.rows, a, uid)
    ensures HasMessage(DeliverOne(env, w, organizer, uid, ics, a).objects, a, uid, "REQUEST", ics)
  {
    SettledHasAnswered(w, a, uid);
    DeliveredCopies(env, w, organizer, uid, ics, a);
    hide DeliverOne, Settled;
  }

  lemma GuestsBefore(users: seq<User>, organizer: User, k: nat)
    requires AreGuests(users, organizer) && k < |users|
    ensures AreGuests(users[..k], organizer) && forall a | a in users[..k] :: a.id != users[k].id
  {
  }

  lemma {:induction false} CopiesAreSent(env: Env, w: World, organizer: User, uid: string, ics: Ics, atts: seq<User>, a: User)
    requires Faithful(env) && AreGuests(atts, organizer) && a in atts && !HasAnswered(w.rows, a, uid)
    ensures HasMessage(DeliverCopies(env, w, organizer, uid, ics, atts).objects, a, uid, "REQUEST", ics)
  {
    hide DeliverOne, HasAnswered, Faithful;
    var k := |atts| - 1;
    var before := DeliverCopies(env, w, organizer, uid, ics, atts[..k]);
    GuestsBefore(atts, organizer, k);
    CopiesAnswerNothing(env, w, organizer, uid, ics, atts[..k], a);
    if atts[k] == a {
      UnansweredIsSent(env, before, organizer, uid, ics, a);
    } else {
      assert a in atts[..k];
      CopiesAreSent(env, w, organizer, uid, ics, atts[..k], a);
      NobodyWritesBoxes(env, [atts[k]], a.id);
      IsAGuest(atts, organizer, a);
      DeliverOneLeaves(env, before, organizer, uid, ics, atts[k], a.id, InboxOf(a.id));
    }
  }

  lemma IsAGuest(users: seq<User>, organizer: User, a: User)
    requires AreGuests(users, organizer) && a in users
    ensures a.active && a.id != organizer.id
  {
  }

  /** Some line names a user with this id who is invited: has the row, and the invitation unless it was answered before. */
  ghost predicate IsInvited(env: Env, w: World, after: World, organizer: User, uid: string, ics: Ics, id: UserId) {
    exists i, a :: 0 <= i < |Attendees(ics)| && IsLocal(env, organizer, Attendees(ics)[i], a) && a.id == id
      && HasRequestRow(after.rows, a, uid)
      && (HasAnswered(w.rows, a, uid) || HasMessage(after.objects, a, uid, "REQUEST", ics))
  }

  lemma ListedAreInvited(env: Env, start: World, w: World, organizer: User, uid: string, ics: Ics, id: UserId)
    requires Faithful(env) && HasUser(LocalAttendees(env, organizer, ics), id)
    requires forall a: User :: !HasAnswered(start.rows, a, uid) ==> !HasAnswered(w.rows, a, uid)
    ensures IsInvited(env, start, DeliverCopies(env, w, organizer, uid, ics, LocalAttendees(env, organizer, ics)), organizer, uid, ics, id)
  {
    hide DeliverCopies, HasAnswered, HasMessage, HasRequestRow, Faithful, IsLocal, AreGuests, LocalUsers;
    var atts := LocalAttendees(env, organizer, ics);
    var a := PickListed(atts, id);
    var i := ListedAreNamed(env, organizer, Attendees(ics), a);
    LocalUsersAreGuests(env, organizer, Attendees(ics));
    IsAGuest(atts, organizer, a);
    CopiesMakeRows(env, w, organizer, uid, ics, atts, a);
    if !HasAnswered(start.rows, a, uid) {
      CopiesAreSent(env, w, organizer, uid, ics, atts, a);
    }
    assert IsLocal(env, organizer, Attendees(ics)[i], a);
  }

  /**
    A PUT of an event that the user organizes invites every local user that its ATTENDEE lines name:
    there is a REQUEST row, and the event lies in the inbox with METHOD REQUEST unless it was
    answered before.
   */
  lemma PutInvites(env: Env, w: World, organizer: User, kind: CalKind, uid: string, ics: Ics, prevIcs: Option<Ics>, i: nat, u: User)
    requires Faithful(env) && (kind.Personal? || kind.SharedKind?) && Organizes(organizer, ics)
    requires i < |Attendees(ics)| && IsLocal(env, organizer, Attendees(ics)[i], u)
    ensures IsInvited(env, w, DeliverFromPut(env, w, organizer, kind, uid, ics, prevIcs), organizer, uid, ics, u.id)
  {
    PutDeliversIff(env, w, organizer, kind, uid, ics, prevIcs);
    NamedAreListed(env, organizer, Attendees(ics), i, u);
    var w1 := DropRemoved(env, w, organizer, uid, ics, prevIcs);
    forall a: User | !HasAnswered(w.rows, a, uid) ensures !HasAnswered(w1.rows, a, uid) {
      if prevIcs.Some? {
        CancelsAnswerNothing(env, w, organizer, uid, ics,
                             Removed(LocalAttendees(env, organizer, prevIcs.value), LocalAttendees(env, organizer, ics)), a);
      }
    }
    hide DeliverCopies, HasAnswered, IsInvited, DropRemoved, Faithful, Organizes, Schedules, LocalUsers;
    ListedAreInvited(env, w, w1, organizer, uid, ics, u.id);
  }

  // ----- cancellations -----

  lemma CancelIsSent(env: Env, w: World, organizer: User, uid: string, ics: Ics, a: User)
    requires Faithful(env) && a.active && a.id != organizer.id
    ensures HasMessage(CancelOne(env, w, organizer, uid, ics, a).objects, a, uid, "CANCEL", ics)
  {
    CancelArrives(env, w, organizer, uid, ics, a);
    hide CancelOne, Faithful;
  }

  lemma {:induction false} CancelsAreSent(env: Env, w: World, organizer: User, uid: string, ics: Ics, atts: seq<User>, a: User)
    requires Faithful(env) && AreGuests(atts, organizer) && a in atts
    ensures HasMessage(DeliverCancel(env, w, organizer, uid, ics, atts).objects, a, uid, "CANCEL", ics)
  {
    hide CancelOne, Faithful;
    var k := |atts| - 1;
    var before := DeliverCancel(env, w, organizer, uid, ics, atts[..k]);
    GuestsBefore(atts, organizer, k);
    IsAGuest(atts, organizer, a);
    if atts[k] == a {
      CancelIsSent(env, before, organizer, uid, ics, a);
    } else {
      assert a in atts[..k];
      CancelsAreSent(env, w, organizer, uid, ics, atts[..k], a);
      CancelOneLeaves(env, before, organizer, uid, ics, atts[k], a.id, InboxOf(a.id));
    }
  }

  lemma {:induction false} RemovedAreGuests(prev: seq<User>, cur: seq<User>, organizer: User)
    requires AreGuests(prev, organizer)
    ensures AreGuests(Removed(prev, cur), organizer)
  {
    hide HasUser;
    if prev != [] {
      var k := |prev| - 1;
      GuestsBefore(prev, organizer, k);
      RemovedAreGuests(prev[..k], cur, organizer);
      RemovedAreDropped(prev[..k], cur);
      var before := Removed(prev[..k], cur);
      forall i | 0 <= i < |before| ensures before[i].id != prev[k].id {
        assert before[i] in prev[..k];
      }
    }
  }

  /** A local user with this id, named by a line, has nothing of the event left but its cancellation. */
  ghost predicate IsCancelled(env: Env, after: World, organizer: User, lines: seq<Attendee>, uid: string, ics: Ics, id: UserId) {
    exists i, a :: 0 <= i < |lines| && IsLocal(env, organizer, lines[i], a) && a.id == id
      && IsDropped(env, after, a.id, uid) && HasMessage(after.objects, a, uid, "CANCEL", ics)
  }

  lemma ListedAreCancelled(env: Env, w: World, organizer: User, uid: string, ics: Ics, lines: seq<Attendee>, id: UserId)
    requires Faithful(env) && HasUser(LocalUsers(env, organizer, lines), id)
    ensures IsCancelled(env, DeliverCancel(env, w, organizer, uid, ics, LocalUsers(env, organizer, lines)), organizer, lines, uid, ics, id)
  {
    hide DeliverCancel, HasMessage, Faithful, IsLocal, AreGuests, LocalUsers, IsDropped;
    var atts := LocalUsers(env, organizer, lines);
    var a := PickListed(atts, id);
    var i := ListedAreNamed(env, organizer, lines, a);
    LocalUsersAreGuests(env, organizer, lines);
    IsAGuest(atts, organizer, a);
    CancelsDrop(env, w, organizer, uid, ics, atts, a);
    CancelsAreSent(env, w, organizer, uid, ics, atts, a);
    assert IsLocal(env, organizer, lines[i], a);
  }

  /**
    A local user that a line of the old version names and no line of the new version is dropped by
    the PUT: no copy in an own calendar, nothing pending, and the CANCEL in the inbox.
   */
  lemma PutDrops(env: Env, w: World, organizer: User, kind: CalKind, uid: string, ics: Ics, prev: Ics, i: nat, u: User)
    requires Faithful(env) && (kind.Personal? || kind.SharedKind?) && Organizes(organizer, ics)
    requires i < |Attendees(prev)| && IsLocal(env, organizer, Attendees(prev)[i], u)
    requires !IsNamed(env, organizer, Attendees(ics), u.id)
    ensures IsCancelled(env, DeliverFromPut(env, w, organizer, kind, uid, ics, Some(prev)), organizer, Attendees(prev), uid, ics, u.id)
  {
    PutDeliversIff(env, w, organizer, kind, uid, ics, Some(prev));
    NamedAreListed(env, organizer, Attendees(prev), i, u);
    ListedIffNamed(env, organizer, Attendees(ics), u.id);
    var before, cur := LocalAttendees(env, organizer, prev), LocalAttendees(env, organizer, ics);
    var a := PickListed(before, u.id);
    var j := ListedAreNamed(env, organizer, Attendees(prev), a);
    DroppedIsSent(env, w, organizer, uid, ics, before, cur, Attendees(prev), a);
    hide DeliverCopies, DeliverCancel, HasMessage, IsNamed, Faithful, IsDropped, Organizes, Schedules, LocalUsers;
    var after := DeliverFromPut(env, w, organizer, kind, uid, ics, Some(prev));
    assert after == DeliverCopies(env, DeliverCancel(env, w, organizer, uid, ics, Removed(before, cur)), organizer, uid, ics, cur);
    assert IsLocal(env, organizer, Attendees(prev)[j], a);
  }

  lemma DroppedIsSent(env: Env, w: World, organizer: User, uid: string, ics: Ics, before: seq<User>, cur: seq<User>,
                      lines: seq<Attendee>, a: User)
    requires Faithful(env) && before == LocalUsers(env, organizer, lines) && a in before && !HasUser(cur, a.id)
    ensures var after := DeliverCopies(env, DeliverCancel(env, w, organizer, uid, ics, Removed(before, cur)), organizer, uid, ics, cur);
            IsDropped(env, after, a.id, uid) && HasMessage(after.objects, a, uid, "CANCEL", ics)
  {
    hide DeliverCopies, DeliverCancel, Faithful, IsDropped, LocalUsers, RowsOfStay, HasUser;
    RemovedAreDropped(before, cur);
    var gone := Removed(before, cur);
    LocalUsersAreGuests(env, organizer, lines);
    RemovedAreGuests(before, cur, organizer);
    IsAGuest(before, organizer, a);
    CancelsDrop(env, w, organizer, uid, ics, gone, a);
    CancelsAreSent(env, w, organizer, uid, ics, gone, a);
    var w1 := DeliverCancel(env, w, organizer, uid, ics, gone);
    CopiesKeepDropped(env, w1, organizer, uid, ics, cur, a.id);
    CopiesLeave(env, w1, organizer, uid, ics, cur, a.id);
    NobodyWritesBoxes(env, cur, a.id);
    assert BelongsTo(env, a.id, InboxOf(a.id));
  }

  /** When the organizer deletes the event, every local user that a line names is cancelled. */
  lemma DeleteCancels(env: Env, w: World, organizer: User, kind: CalKind, uid: string, ics: Ics, i: nat, u: User)
    requires Faithful(env) && (kind.Personal? || kind.SharedKind?) && Organizes(organizer, ics)
    requires i < |Attendees(ics)| && IsLocal(env, organizer, Attendees(ics)[i], u)
    ensures IsCancelled(env, CancelFromDelete(env, w, organizer, kind, uid, ics), organizer, Attendees(ics), uid, ics, u.id)
  {
    PutDeliversIff(env, w, organizer, kind, uid, ics, None);
    NamedAreListed(env, organizer, Attendees(ics), i, u);
    ListedAreCancelled(env, w, organizer, uid, ics, Attendees(ics), u.id);
  }

  // ----- posted calendars -----

  /** The METHOD, white space and case aside. */
  ghost predicate HasVerb(ics: Ics, verb: string) {
    ics.itipMethod.Some? && ToUpper(Trim(ics.itipMethod.value)) == verb
  }

  ghost predicate HasFreeBusy(ics: Ics) {
    exists i :: 0 <= i < |ics.comps| && ToUpper(ics.comps[i].name) == "VFREEBUSY"
  }

  /** A posted CANCEL cancels for every local user that its lines name. */
  lemma PostedCancel(env: Env, w: World, user: User, ics: Ics, i: nat, u: User)
    requires Faithful(env) && HasVerb(ics, "CANCEL") && !HasFreeBusy(ics)
    requires i < |Attendees(ics)| && IsLocal(env, user, Attendees(ics)[i], u)
    ensures IsCancelled(env, HandleOutboxPost(env, w, user, ics), user, Attendees(ics), CalendarUID(ics), ics, u.id)
  {
    NamedAreListed(env, user, Attendees(ics), i, u);
    ListedAreCancelled(env, w, user, CalendarUID(ics), ics, Attendees(ics), u.id);
    hide IsCancelled, DeliverCancel, Faithful, LocalUsers, IsLocal;
  }

  /** Any other METHOD but REPLY, or none, is taken for a REQUEST to every local user that the lines name. */
  lemma PostedRequest(env: Env, w: World, user: User, ics: Ics, i: nat, u: User)
    requires Faithful(env) && !HasVerb(ics, "CANCEL") && !HasVerb(ics, "REPLY") && !HasFreeBusy(ics)
    requires i < |Attendees(ics)| && IsLocal(env, user, Attendees(ics)[i], u)
    ensures IsInvited(env, w, HandleOutboxPost(env, w, user, ics), user, CalendarUID(ics), StripMethod(ics), u.id)
  {
    var clean := StripMethod(ics);
    SameNames(ics.comps, clean.comps, (c: Component) => c.name == "VEVENT", 0);
    NamedAreListed(env, user, Attendees(ics), i, u);
    hide IsInvited, DeliverCopies, Faithful, LocalUsers, IsLocal;
    assert Attendees(clean) == Attendees(ics);
    ListedAreInvited(env, w, w, user, CalendarUID(ics), clean, u.id);
  }

  /** A request for free-busy times changes nothing. */
  lemma PostedFreeBusy(env: Env, w: World, user: User, ics: Ics, i: nat)
    requires Faithful(env) && i < |ics.comps| && ToUpper(ics.comps[i].name) == "VFREEBUSY"
    ensures HandleOutboxPost(env, w, user, ics) == w
  {
  }

  // ----- runs -----

  /** The calls of a run take effect one after the other, those that are not enabled none. */
  lemma RunIsStepwise(w: World, calls: seq<(Env, Call)>, env: Env, call: Call, names: UserId -> string)
    ensures Run(w, [], names) == w
    ensures !Enabled(env, Run(w, calls, names), call, names) ==> Run(w, calls + [(env, call)], names) == Run(w, calls, names)
    ensures var (before, after) := (Run(w, calls, names), Run(w, calls + [(env, call)], names));
            Enabled(env, before, call, names) ==>
              && (call.PutEvent? ==> after == DeliverFromPut(env, before, call.organizer, call.kind, call.uid, call.ics, call.prevIcs))
              && (call.DeleteEvent? ==> after == CancelFromDelete(env, before, call.organizer, call.kind, call.uid, call.ics))
              && (call.Invite? ==> after == DeliverCopies(env, before, call.organizer, call.uid, call.ics, call.attendees))
              && (call.Post? ==> after == HandleOutboxPost(env, before, call.user, call.ics))
              && (call.Write? ==> after == before.(objects := Upsert(env, before.objects, call.col, call.href, call.obj)))
              && (call.Erase? ==> after == before.(objects := before.objects[call.col := At(before.objects, call.col) - {call.href}]))
    ensures var (before, after) := (Run(w, calls, names), Run(w, calls + [(env, call)], names));
            Enabled(env, before, call, names) && call.Respond? ==>
              var response := if call.accept then Accept(env, before, call.attendee, call.id, before.rows[call.id], call.calendarId)
                              else Decline(env, before, call.attendee, call.id, before.rows[call.id]);
              after == if response.Some? then response.value else before
  {
    assert (calls + [(env, call)])[..|calls|] == calls;
    hide DeliverFromPut, CancelFromDelete, DeliverCopies, HandleOutboxPost, Upsert, Accept, Decline, Faithful;
  }
}

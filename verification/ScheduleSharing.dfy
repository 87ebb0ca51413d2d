/**
  What a PUT by the organizer does to ordinary calendars, those of bystanders included: an accepted
  copy is brought up to date in the first calendar its attendee may write to that has the UID,
  whoever owns it.  Every calendar's contents after the PUT are determined by the tables before it.
 */
module ScheduleSharing {
  import opened Itip
  import opened Schedule
  import opened ScheduleRuns
  import opened ScheduleDelivery
  import opened ScheduleEffects
  import opened Wrappers

  /** One of these users owns the calendar. */
  ghost predicate AnyOwns(env: Env, users: seq<User>, col: int) {
    exists i :: 0 <= i < |users| && InOwned(env, users[i].id, col)
  }

  /** Where an attendee's accepted copy is looked for once the copies of those dropped are gone. */
  ghost function TargetOf(env: Env, t: Objects, gone: seq<User>, list: seq<Listed>, uid: string): (i: Option<nat>)
    ensures i.Some? ==> i.value < |list|
  {
    if list == [] then None
    else
      match TargetOf(env, t, gone, list[..|list| - 1], uid)
      case Some(i) => Some(i)
      case None =>
        var c := list[|list| - 1];
        if c.CanWrite() && !AnyOwns(env, gone, c.id) && Holders(t, c.id, uid) != {} then Some(|list| - 1) else None
  }

  /** The attendee has accepted, and the calendar is the one where the copy is looked for. */
  ghost predicate WritesTo(env: Env, w: World, gone: seq<User>, uid: string, a: User, col: int) {
    var list := Calendars(env, a.id);
    var i := TargetOf(env, w.objects, gone, list, uid);
    RequestStatus(w, a, uid) == Some(Accepted) && i.Some? && list[i.value].id == col
  }

  /** The last attendee on the list who writes to the calendar. */
  ghost function LastWriter(env: Env, w: World, gone: seq<User>, uid: string, atts: seq<User>, col: int): Option<User> {
    if atts == [] then None
    else if WritesTo(env, w, gone, uid, atts[|atts| - 1], col) then Some(atts[|atts| - 1])
    else LastWriter(env, w, gone, uid, atts[..|atts| - 1], col)
  }

  /** The calendar after the deliveries of a version, if nobody dropped owns it. */
  ghost function Rewritten(env: Env, w: World, gone: seq<User>, uid: string, ics: Ics, atts: seq<User>, col: int): map<string, Obj> {
    var before := At(w.objects, col);
    match LastWriter(env, w, gone, uid, atts, col)
    case None => before
    case Some(a) => before[env.pickHref(Holders(w.objects, col, uid)) := ObjOf(env, uid, AcceptedCopy(a, ics))]
  }

  ghost predicate AllGuests(users: seq<User>, organizer: User) {
    forall i :: 0 <= i < |users| ==> users[i].active && users[i].id != organizer.id
  }

  // ----- one delivery -----

  /** Two worlds in which deliveries of this UID find the same. */
  ghost predicate SameFor(env: Env, w: World, x: World, uid: string) {
    && (forall a: User :: RequestStatus(w, a, uid) == Some(Accepted) <==> RequestStatus(x, a, uid) == Some(Accepted))
    && (forall col :: col > 0 ==> Holders(w.objects, col, uid) == Holders(x.objects, col, uid))
  }

  lemma {:induction false} SameTarget(env: Env, t: Objects, u: Objects, gone: seq<User>, list: seq<Listed>, uid: string)
    requires forall col :: col > 0 ==> Holders(t, col, uid) == Holders(u, col, uid)
    requires ListIsSound(list)
    ensures TargetOf(env, t, gone, list, uid) == TargetOf(env, u, gone, list, uid)
  {
    if list != [] {
      assert list[|list| - 1] in list;
      SameTarget(env, t, u, gone, list[..|list| - 1], uid);
    }
  }

  lemma CalendarsAreSound(env: Env, user: UserId)
    requires Faithful(env)
    ensures ListIsSound(Calendars(env, user))
  {
  }

  lemma {:induction false} NobodyGone(env: Env, t: Objects, list: seq<Listed>, uid: string)
    ensures TargetOf(env, t, [], list, uid) == RefreshTarget(t, list, uid)
  {
    if list != [] {
      NobodyGone(env, t, list[..|list| - 1], uid);
      assert !AnyOwns(env, [], list[|list| - 1].id);
    }
  }

  lemma {:induction false} TargetHolds(env: Env, t: Objects, gone: seq<User>, list: seq<Listed>, uid: string)
    requires TargetOf(env, t, gone, list, uid).Some?
    ensures var c := list[TargetOf(env, t, gone, list, uid).value];
            c.CanWrite() && !AnyOwns(env, gone, c.id) && Holders(t, c.id, uid) != {}
  {
    if TargetOf(env, t, gone, list[..|list| - 1], uid).Some? {
      TargetHolds(env, t, gone, list[..|list| - 1], uid);
    }
  }

  lemma SameWriter(env: Env, w: World, x: World, gone: seq<User>, uid: string, a: User, col: int)
    requires Faithful(env) && SameFor(env, w, x, uid)
    ensures WritesTo(env, w, gone, uid, a, col) <==> WritesTo(env, x, gone, uid, a, col)
  {
    CalendarsAreSound(env, a.id);
    SameTarget(env, w.objects, x.objects, gone, Calendars(env, a.id), uid);
  }

  /** What refreshing an accepted copy does to one calendar. */
  lemma RefreshAt(env: Env, t: Objects, a: User, uid: string, ics: Ics, col: int)
    requires Faithful(env)
    ensures var list := Calendars(env, a.id);
            var i := RefreshTarget(t, list, uid);
            var after := RefreshAcceptedCopy(env, t, a, uid, ics);
            && Holders(after, col, uid) == Holders(t, col, uid)
            && At(after, col) == if i.Some? && list[i.value].id == col
                                 then At(t, col)[env.pickHref(Holders(t, col, uid)) := ObjOf(env, uid, AcceptedCopy(a, ics))]
                                 else At(t, col)
  {
    var list := Calendars(env, a.id);
    var i := RefreshTarget(t, list, uid);
    if i.Some? {
      var holders := Holders(t, list[i.value].id, uid);
      assert env.pickHref(holders) in holders;
      OverwriteKeepsHolders(env, t, list[i.value].id, env.pickHref(holders), ObjOf(env, uid, AcceptedCopy(a, ics)));
    }
  }

  /** Exactly what one delivery does to an ordinary calendar. */
  lemma DeliverOneAt(env: Env, w: World, organizer: User, uid: string, ics: Ics, a: User, col: int)
    requires Faithful(env) && a.active && a.id != organizer.id && col > 0
    ensures var after := DeliverOne(env, w, organizer, uid, ics, a).objects;
            && At(after, col) == (if WritesTo(env, w, [], uid, a, col)
                                  then At(w.objects, col)[env.pickHref(Holders(w.objects, col, uid)) := ObjOf(env, uid, AcceptedCopy(a, ics))]
                                  else At(w.objects, col))
            && Holders(after, col, uid) == Holders(w.objects, col, uid)
  {
    hide RefreshAcceptedCopy, AcceptedCopy, WithMethod, RefreshTarget, FindRow, InsertRow, Faithful;
    NobodyGone(env, w.objects, Calendars(env, a.id), uid);
    RefreshAt(env, w.objects, a, uid, ics, col);
  }

  lemma AcceptedStays(env: Env, w: World, organizer: User, uid: string, ics: Ics, a: User, b: User)
    ensures var after := DeliverOne(env, w, organizer, uid, ics, a);
            RequestStatus(w, b, uid) == Some(Accepted) <==> RequestStatus(after, b, uid) == Some(Accepted)
  {
    if a.active && a.id != organizer.id {
      var request := WithMethod(ics, "REQUEST");
      var n1 := Row(a.id, Inbox, "REQUEST", uid, organizer.username, a.username, Pending, request);
      var n2 := Row(organizer.id, Outbox, "REQUEST", uid, organizer.username, a.username, Processed, request);
      assert DeliverOne(env, w, organizer, uid, ics, a).rows == InsertRow(InsertRow(w.rows, n1), n2);
      AcceptedStaysOnInsert(w, w.objects, n1, b, uid);
      AcceptedStaysOnInsert(World(w.objects, InsertRow(w.rows, n1)), w.objects, n2, b, uid);
    }
  }

  lemma AcceptedStaysOnInsert(w: World, t: Objects, n: Row, b: User, uid: string)
    requires !n.status.Accepted?
    ensures RequestStatus(w, b, uid) == Some(Accepted) <==> RequestStatus(World(t, InsertRow(w.rows, n)), b, uid) == Some(Accepted)
  {
    var key := Row(b.id, Inbox, "REQUEST", uid, "", b.username, Pending, n.ics);
    if SameKey(key, n) {
      RecordedRow(w.rows, n);
    } else {
      OtherRow(w.rows, key, n);
    }
  }

  lemma DeliverOneIsSame(env: Env, w: World, organizer: User, uid: string, ics: Ics, a: User)
    requires Faithful(env) && a.active && a.id != organizer.id
    ensures SameFor(env, w, DeliverOne(env, w, organizer, uid, ics, a), uid)
  {
    hide DeliverOne, RequestStatus, Holders, Faithful;
    var after := DeliverOne(env, w, organizer, uid, ics, a);
    forall b: User ensures RequestStatus(w, b, uid) == Some(Accepted) <==> RequestStatus(after, b, uid) == Some(Accepted) {
      AcceptedStays(env, w, organizer, uid, ics, a, b);
    }
    forall col | col > 0 ensures Holders(w.objects, col, uid) == Holders(after.objects, col, uid) {
      DeliverOneAt(env, w, organizer, uid, ics, a, col);
    }
  }

  // ----- all deliveries of a version -----

  /** Every ordinary calendar after the deliveries, from the tables before them. */
  lemma {:induction false} DeliverCopiesAt(env: Env, w: World, organizer: User, uid: string, ics: Ics, atts: seq<User>, col: int)
    requires Faithful(env) && AllGuests(atts, organizer) && col > 0
    ensures var after := DeliverCopies(env, w, organizer, uid, ics, atts);
            SameFor(env, w, after, uid) && At(after.objects, col) == Rewritten(env, w, [], uid, ics, atts, col)
  {
    hide DeliverOne, WritesTo, AcceptedCopy, RequestStatus, Holders, Faithful;
    if atts != [] {
      var k := |atts| - 1;
      var before := DeliverCopies(env, w, organizer, uid, ics, atts[..k]);
      var a := atts[k];
      DeliverCopiesAt(env, w, organizer, uid, ics, atts[..k], col);
      DeliverOneIsSame(env, before, organizer, uid, ics, a);
      DeliverOneAt(env, before, organizer, uid, ics, a, col);
      SameWriter(env, w, before, [], uid, a, col);
      assert Holders(w.objects, col, uid) == Holders(before.objects, col, uid);
      var h, obj := env.pickHref(Holders(w.objects, col, uid)), ObjOf(env, uid, AcceptedCopy(a, ics));
      assert Rewritten(env, w, [], uid, ics, atts[..k], col)[h := obj] == At(w.objects, col)[h := obj];
    }
  }

  // ----- the cancellations before them -----

  lemma {:induction false} DeleteFromOwnedAt(t: Objects, list: seq<Listed>, uid: string, col: int)
    ensures At(DeleteFromOwned(t, list, uid), col) ==
              if exists c :: c in list && IsOwn(c) && c.id == col then At(t, col) - Holders(t, col, uid) else At(t, col)
  {
    if list != [] {
      var k := |list| - 1;
      var before := DeleteFromOwned(t, list[..k], uid);
      DeleteFromOwnedAt(t, list[..k], uid, col);
      assert list == list[..k] + [list[k]];
      if IsOwn(list[k]) && list[k].id == col {
        assert list[k] in list;
        assert At(before, col) - Holders(before, col, uid) == At(t, col) - Holders(t, col, uid);
      }
    }
  }

  ghost function Without(t: Objects, col: int, uid: string, owned: bool): map<string, Obj> {
    if owned then At(t, col) - Holders(t, col, uid) else At(t, col)
  }

  lemma CancelOneAt(env: Env, w: World, organizer: User, uid: string, ics: Ics, a: User, col: int)
    requires Faithful(env) && a.active && a.id != organizer.id && col > 0
    ensures At(CancelOne(env, w, organizer, uid, ics, a).objects, col) == Without(w.objects, col, uid, InOwned(env, a.id, col))
  {
    hide InsertRow, ClosePending, DeleteFromOwned;
    var copy := ObjOf(env, uid, WithMethod(ics, "CANCEL"));
    var o1 := Upsert(env, w.objects, InboxOf(a.id), CopyHref(uid, a.username), copy);
    DeleteFromOwnedAt(o1, Calendars(env, a.id), uid, col);
    assert At(o1, col) == At(w.objects, col);
  }

  lemma AcceptedStaysOnCancel(env: Env, w: World, organizer: User, uid: string, ics: Ics, a: User, b: User)
    ensures var after := CancelOne(env, w, organizer, uid, ics, a);
            RequestStatus(w, b, uid) == Some(Accepted) <==> RequestStatus(after, b, uid) == Some(Accepted)
  {
    if a.active && a.id != organizer.id {
      var cancel := WithMethod(ics, "CANCEL");
      var n1 := Row(a.id, Inbox, "CANCEL", uid, organizer.username, a.username, Cancelled, cancel);
      var n3 := Row(organizer.id, Outbox, "CANCEL", uid, organizer.username, a.username, Processed, cancel);
      var r1 := InsertRow(w.rows, n1);
      var r2 := ClosePending(r1, a.id, uid);
      assert CancelOne(env, w, organizer, uid, ics, a).rows == InsertRow(r2, n3);
      AcceptedStaysOnInsert(w, w.objects, n1, b, uid);
      SamePlace(r1, r2, Row(b.id, Inbox, "REQUEST", uid, "", b.username, Pending, cancel));
      AcceptedStaysOnInsert(World(w.objects, r2), w.objects, n3, b, uid);
    }
  }

  /** Every ordinary calendar after the cancellations: without the UID if a dropped user owns it. */
  lemma {:induction false} DeliverCancelAt(env: Env, w: World, organizer: User, uid: string, ics: Ics, gone: seq<User>, col: int)
    requires Faithful(env) && AllGuests(gone, organizer) && col > 0
    ensures At(DeliverCancel(env, w, organizer, uid, ics, gone).objects, col) == Without(w.objects, col, uid, AnyOwns(env, gone, col))
  {
    if gone != [] {
      hide CancelOne, Faithful, InOwned, AnyOwns, Holders;
      var k := |gone| - 1;
      var before := DeliverCancel(env, w, organizer, uid, ics, gone[..k]);
      DeliverCancelAt(env, w, organizer, uid, ics, gone[..k], col);
      CancelOneAt(env, before, organizer, uid, ics, gone[k], col);
      OneMoreOwner(env, gone, col);
      WithoutTwice(w.objects, before.objects, col, uid);
    } else {
      assert !AnyOwns(env, [], col);
    }
  }

  lemma WithoutTwice(t: Objects, u: Objects, col: int, uid: string)
    ensures At(u, col) == At(t, col) - Holders(t, col, uid) ==> At(u, col) - Holders(u, col, uid) == At(u, col)
    ensures At(u, col) == At(t, col) ==> Holders(u, col, uid) == Holders(t, col, uid)
  {
  }

  lemma OneMoreOwner(env: Env, users: seq<User>, col: int)
    requires users != []
    ensures var k := |users| - 1;
            AnyOwns(env, users, col) <==> AnyOwns(env, users[..k], col) || InOwned(env, users[k].id, col)
  {
    var k := |users| - 1;
    if AnyOwns(env, users[..k], col) {
      var i :| 0 <= i < k && InOwned(env, users[..k][i].id, col);
      assert InOwned(env, users[i].id, col);
    }
    if AnyOwns(env, users, col) {
      var i :| 0 <= i < |users| && InOwned(env, users[i].id, col);
      assert i < k ==> users[..k][i] == users[i];
    }
  }

  lemma {:induction false} AcceptedStaysOnCancels(env: Env, w: World, organizer: User, uid: string, ics: Ics, gone: seq<User>, b: User)
    ensures var after := DeliverCancel(env, w, organizer, uid, ics, gone);
            RequestStatus(w, b, uid) == Some(Accepted) <==> RequestStatus(after, b, uid) == Some(Accepted)
  {
    hide CancelOne, RequestStatus;
    if gone != [] {
      var k := |gone| - 1;
      AcceptedStaysOnCancels(env, w, organizer, uid, ics, gone[..k], b);
      AcceptedStaysOnCancel(env, DeliverCancel(env, w, organizer, uid, ics, gone[..k]), organizer, uid, ics, gone[k], b);
    }
  }

  lemma {:induction false} TargetAfterCancels(env: Env, t: Objects, u: Objects, gone: seq<User>, list: seq<Listed>, uid: string)
    requires ListIsSound(list)
    requires forall col :: col > 0 ==> At(u, col) == Without(t, col, uid, AnyOwns(env, gone, col))
    ensures TargetOf(env, u, [], list, uid) == TargetOf(env, t, gone, list, uid)
  {
    if list != [] {
      var c := list[|list| - 1];
      assert c in list;
      TargetAfterCancels(env, t, u, gone, list[..|list| - 1], uid);
      assert !AnyOwns(env, [], c.id);
      if c.CanWrite() {
        assert Holders(u, c.id, uid) == if AnyOwns(env, gone, c.id) then {} else Holders(t, c.id, uid);
      }
    }
  }

  // ----- a PUT -----

  /** Those whom a PUT drops. */
  function Dropped(env: Env, organizer: User, ics: Ics, prevIcs: Option<Ics>): seq<User> {
    match prevIcs
    case None => []
    case Some(prev) => Removed(LocalAttendees(env, organizer, prev), LocalAttendees(env, organizer, ics))
  }

  lemma DroppedAreGuests(env: Env, organizer: User, ics: Ics, prevIcs: Option<Ics>)
    ensures AllGuests(Dropped(env, organizer, ics, prevIcs), organizer)
  {
    if prevIcs.Some? {
      var prev, cur := LocalAttendees(env, organizer, prevIcs.value), LocalAttendees(env, organizer, ics);
      RemovedAreDropped(prev, cur);
      forall i | 0 <= i < |Removed(prev, cur)|
        ensures Removed(prev, cur)[i].active && Removed(prev, cur)[i].id != organizer.id
      {
        IsGuest(env, organizer, Attendees(prevIcs.value), Removed(prev, cur)[i]);
      }
    }
  }

  /** The same attendees write to the calendar after the cancellations as the tables before tell. */
  lemma {:induction false} WritersAfterCancels(env: Env, w: World, organizer: User, uid: string, ics: Ics, gone: seq<User>, atts: seq<User>, col: int)
    requires Faithful(env) && AllGuests(gone, organizer)
    ensures LastWriter(env, DeliverCancel(env, w, organizer, uid, ics, gone), [], uid, atts, col)
              == LastWriter(env, w, gone, uid, atts, col)
  {
    hide DeliverCancel, RequestStatus, Without, Faithful;
    if atts != [] {
      var a := atts[|atts| - 1];
      var w1 := DeliverCancel(env, w, organizer, uid, ics, gone);
      WritersAfterCancels(env, w, organizer, uid, ics, gone, atts[..|atts| - 1], col);
      AcceptedStaysOnCancels(env, w, organizer, uid, ics, gone, a);
      CalendarsAreSound(env, a.id);
      forall c | c > 0 ensures At(w1.objects, c) == Without(w.objects, c, uid, AnyOwns(env, gone, c)) {
        DeliverCancelAt(env, w, organizer, uid, ics, gone, c);
      }
      TargetAfterCancels(env, w.objects, w1.objects, gone, Calendars(env, a.id), uid);
    }
  }

  lemma {:induction false} LastWriterWrites(env: Env, w: World, gone: seq<User>, uid: string, atts: seq<User>, col: int)
    ensures var a := LastWriter(env, w, gone, uid, atts, col);
            a.Some? ==> WritesTo(env, w, gone, uid, a.value, col) && !AnyOwns(env, gone, col)
  {
    if atts != [] {
      var a := atts[|atts| - 1];
      if WritesTo(env, w, gone, uid, a, col) {
        TargetHolds(env, w.objects, gone, Calendars(env, a.id), uid);
      } else {
        LastWriterWrites(env, w, gone, uid, atts[..|atts| - 1], col);
      }
    }
  }

  /** Every ordinary calendar after a PUT, whoever owns it, from the tables before the PUT. */
  lemma CalendarsAfterPut(env: Env, w: World, organizer: User, kind: CalKind, uid: string, ics: Ics, prevIcs: Option<Ics>, col: int)
    requires Faithful(env) && Schedules(organizer, kind, ics) && col > 0
    ensures var gone := Dropped(env, organizer, ics, prevIcs);
            At(DeliverFromPut(env, w, organizer, kind, uid, ics, prevIcs).objects, col) ==
              if AnyOwns(env, gone, col) then At(w.objects, col) - Holders(w.objects, col, uid)
              else Rewritten(env, w, gone, uid, ics, LocalAttendees(env, organizer, ics), col)
  {
    hide DeliverCopies, DeliverCancel, Removed, LocalAttendees, AcceptedCopy, WritesTo, Schedules, Faithful, AnyOwns;
    var gone, cur := Dropped(env, organizer, ics, prevIcs), LocalAttendees(env, organizer, ics);
    var w1 := DropRemoved(env, w, organizer, uid, ics, prevIcs);
    DroppedAreGuests(env, organizer, ics, prevIcs);
    NoCancels(env, w, organizer, uid, ics);
    assert w1 == DeliverCancel(env, w, organizer, uid, ics, gone);
    DeliverCancelAt(env, w, organizer, uid, ics, gone, col);
    CurrentAreGuests(env, organizer, ics);
    DeliverCopiesAt(env, w1, organizer, uid, ics, cur, col);
    WritersAfterCancels(env, w, organizer, uid, ics, gone, cur, col);
    LastWriterWrites(env, w, gone, uid, cur, col);
  }

  lemma NoCancels(env: Env, w: World, organizer: User, uid: string, ics: Ics)
    ensures DeliverCancel(env, w, organizer, uid, ics, []) == w
  {
  }

  lemma CurrentAreGuests(env: Env, organizer: User, ics: Ics)
    ensures AllGuests(LocalAttendees(env, organizer, ics), organizer)
  {
    LocalUsersAreGuests(env, organizer, Attendees(ics));
  }

  /**
    A bystander's calendar is changed by a PUT exactly when a current attendee has accepted, looks
    for the UID first in this calendar, and the copy there is not yet that of the last such attendee.
   */
  lemma BystandersCalendar(env: Env, w: World, organizer: User, kind: CalKind, uid: string, ics: Ics, prevIcs: Option<Ics>,
                           user: UserId, col: int)
    requires Faithful(env) && Schedules(organizer, kind, ics)
    requires InOwned(env, user, col) && !HasUser(Dropped(env, organizer, ics, prevIcs), user)
    ensures var gone, cur := Dropped(env, organizer, ics, prevIcs), LocalAttendees(env, organizer, ics);
            var before, h := At(w.objects, col), env.pickHref(Holders(w.objects, col, uid));
            At(DeliverFromPut(env, w, organizer, kind, uid, ics, prevIcs).objects, col) != before <==>
              match LastWriter(env, w, gone, uid, cur, col)
              case None => false
              case Some(a) => h !in before || before[h] != ObjOf(env, uid, AcceptedCopy(a, ics))
  {
    hide DeliverFromPut, Dropped, LocalAttendees, AcceptedCopy, LastWriter, Schedules;
    var gone := Dropped(env, organizer, ics, prevIcs);
    OwnedIsPositive(env, user, col);
    CalendarsAfterPut(env, w, organizer, kind, uid, ics, prevIcs, col);
    assert forall i :: 0 <= i < |gone| && InOwned(env, gone[i].id, col) ==> gone[i].id == user;
    assert !AnyOwns(env, gone, col);
  }

  /** The last writer, without recursion: a writer after whom there is none. */
  lemma {:induction false} LastWriterIsLast(env: Env, w: World, gone: seq<User>, uid: string, atts: seq<User>, col: int)
    ensures match LastWriter(env, w, gone, uid, atts, col)
            case None => forall i :: 0 <= i < |atts| ==> !WritesTo(env, w, gone, uid, atts[i], col)
            case Some(a) => exists k :: 0 <= k < |atts| && atts[k] == a && WritesTo(env, w, gone, uid, a, col)
                              && forall i :: k < i < |atts| ==> !WritesTo(env, w, gone, uid, atts[i], col)
  {
    hide WritesTo;
    if atts != [] && !WritesTo(env, w, gone, uid, atts[|atts| - 1], col) {
      LastWriterIsLast(env, w, gone, uid, atts[..|atts| - 1], col);
    }
  }
}

/**
  What every run of the scheduling operations keeps, whatever else clients do to the calendars in
  between.
 */
module ScheduleRuns {
  import opened Itip
  import opened Schedule
  import opened Wrappers

  // ----- calls -----

  datatype Call =
    | PutEvent(organizer: User, kind: CalKind, uid: string, ics: Ics, prevIcs: Option<Ics>)
    | DeleteEvent(organizer: User, kind: CalKind, uid: string, ics: Ics)
    | Invite(organizer: User, uid: string, ics: Ics, attendees: seq<User>)
    | Post(user: User, ics: Ics)
    | Respond(attendee: User, id: nat, accept: bool, calendarId: int)
    | Write(col: int, href: string, obj: Obj)
    | Erase(col: int, href: string)

  predicate IsInbox(col: int) {
    col < 0 && col % 2 == 1
  }

  lemma InboxIds(u: UserId, v: UserId)
    ensures IsInbox(InboxOf(u)) && !IsInbox(OutboxOf(v)) && InboxOf(u) != OutboxOf(v)
    ensures InboxOf(u) == InboxOf(v) ==> u == v
    ensures OutboxOf(u) == OutboxOf(v) ==> u == v
  {
  }

  ghost predicate Named(u: User, names: UserId -> string) {
    u.username == names(u.id)
  }

  /** Usernames never change; an answer needs a pending item of the user's own; inboxes are not client-writable. */
  ghost predicate Enabled(env: Env, w: World, call: Call, names: UserId -> string) {
    && Faithful(env)
    && (forall k :: k in env.find ==> Named(env.find[k], names))
    && match call
       case PutEvent(organizer, _, _, _, _) => Named(organizer, names)
       case DeleteEvent(organizer, _, _, _) => Named(organizer, names)
       case Invite(organizer, _, _, attendees) =>
         Named(organizer, names) && forall i :: 0 <= i < |attendees| ==> Named(attendees[i], names)
       case Post(user, _) => Named(user, names)
       case Respond(attendee, id, _, _) =>
         Named(attendee, names) && id < |w.rows| && w.rows[id].user == attendee.id && w.rows[id].status.Pending?
       case Write(col, _, _) => !IsInbox(col)
       case Erase(col, _) => true
  }

  ghost function Apply(env: Env, w: World, call: Call, names: UserId -> string): World {
    if !Enabled(env, w, call, names) then w else
      match call
      case PutEvent(organizer, kind, uid, ics, prevIcs) => DeliverFromPut(env, w, organizer, kind, uid, ics, prevIcs)
      case DeleteEvent(organizer, kind, uid, ics) => CancelFromDelete(env, w, organizer, kind, uid, ics)
      case Invite(organizer, uid, ics, attendees) => DeliverCopies(env, w, organizer, uid, ics, attendees)
      case Post(user, ics) => HandleOutboxPost(env, w, user, ics)
      case Respond(attendee, id, accept, calendarId) => Responded(env, w, attendee, id, accept, calendarId)
      case Write(col, href, obj) => w.(objects := Upsert(env, w.objects, col, href, obj))
      case Erase(col, href) => w.(objects := w.objects[col := At(w.objects, col) - {href}])
  }

  ghost function Responded(env: Env, w: World, attendee: User, id: nat, accept: bool, calendarId: int): World
    requires Faithful(env) && id < |w.rows|
  {
    match (if accept then Accept(env, w, attendee, id, w.rows[id], calendarId)
           else Decline(env, w, attendee, id, w.rows[id]))
    case Some(after) => after
    case None => w
  }

  /** A run: each call sees the database as it is then. */
  ghost function Run(w: World, calls: seq<(Env, Call)>, names: UserId -> string): World {
    if calls == [] then w else
      var (env, call) := calls[|calls| - 1];
      Apply(env, Run(w, calls[..|calls| - 1], names), call, names)
  }

  // ----- rows -----

  predicate SameKey(a: Row, b: Row) {
    a.user == b.user && a.box == b.box && a.verb == b.verb && a.uid == b.uid && a.attendee == b.attendee
  }

  /** At most one row per user, collection, method, UID and attendee. */
  ghost predicate KeysAreUnique(rows: Rows) {
    forall i, j :: 0 <= i < j < |rows| ==> !SameKey(rows[i], rows[j])
  }

  ghost predicate PendingAreRequests(rows: Rows) {
    forall i :: 0 <= i < |rows| && rows[i].status.Pending? ==> rows[i].box.Inbox? && rows[i].verb == "REQUEST"
  }

  /** Rows are never removed or re-keyed, and a settled status stays. */
  ghost predicate RowsExtend(a: Rows, b: Rows) {
    && |a| <= |b|
    && forall i :: 0 <= i < |a| ==>
         SameKey(a[i], b[i]) && (IsSettled(a[i].status) ==> b[i].status == a[i].status)
  }

  lemma RowsExtendTransitive(a: Rows, b: Rows, c: Rows)
    requires RowsExtend(a, b) && RowsExtend(b, c)
    ensures RowsExtend(a, c)
  {
  }

  ghost predicate RowsOk(rows: Rows) {
    KeysAreUnique(rows) && PendingAreRequests(rows)
  }

  /** There is an unsettled REQUEST row for the user and UID. */
  ghost predicate IsOpen(rows: Rows, user: UserId, uid: string, name: string) {
    exists i :: 0 <= i < |rows| && Matches(rows[i], user, Inbox, "REQUEST", uid, name) && !IsSettled(rows[i].status)
  }

  lemma InsertRowKeeps(rows: Rows, n: Row)
    requires RowsOk(rows) && (n.status.Pending? ==> n.box.Inbox? && n.verb == "REQUEST")
    ensures RowsOk(InsertRow(rows, n)) && RowsExtend(rows, InsertRow(rows, n))
    ensures forall user, uid, name :: IsOpen(rows, user, uid, name) && !IsSettled(n.status) ==>
              IsOpen(InsertRow(rows, n), user, uid, name)
    ensures forall user, uid, name :: IsOpen(rows, user, uid, name) && n.verb != "REQUEST" ==>
              IsOpen(InsertRow(rows, n), user, uid, name)
  {
    var after := InsertRow(rows, n);
    forall user, uid, name | IsOpen(rows, user, uid, name) && (!IsSettled(n.status) || n.verb != "REQUEST")
      ensures IsOpen(after, user, uid, name)
    {
      var i :| 0 <= i < |rows| && Matches(rows[i], user, Inbox, "REQUEST", uid, name) && !IsSettled(rows[i].status);
      assert Matches(after[i], user, Inbox, "REQUEST", uid, name) && !IsSettled(after[i].status);
    }
  }

  /** After a REQUEST is recorded as pending its row is there, and open unless it was settled. */
  lemma InsertOpens(rows: Rows, n: Row)
    requires n.box.Inbox? && n.verb == "REQUEST" && n.status.Pending?
    ensures var found := FindRow(rows, n.user, Inbox, "REQUEST", n.uid, n.attendee);
            found.None? || !IsSettled(rows[found.value].status) ==>
              IsOpen(InsertRow(rows, n), n.user, n.uid, n.attendee)
  {
    var found := FindRow(rows, n.user, Inbox, "REQUEST", n.uid, n.attendee);
    var after := InsertRow(rows, n);
    var i := if found.Some? then found.value else |rows|;
    if found.None? || !IsSettled(rows[i].status) {
      assert Matches(after[i], n.user, Inbox, "REQUEST", n.uid, n.attendee) && !IsSettled(after[i].status);
    }
  }

  lemma ClosePendingKeeps(rows: Rows, user: UserId, uid: string)
    requires RowsOk(rows)
    ensures RowsOk(ClosePending(rows, user, uid)) && RowsExtend(rows, ClosePending(rows, user, uid))
    ensures forall u, k, name :: IsOpen(rows, u, k, name) ==> IsOpen(ClosePending(rows, user, uid), u, k, name)
  {
    var after := ClosePending(rows, user, uid);
    forall u, k, name | IsOpen(rows, u, k, name) ensures IsOpen(after, u, k, name) {
      var i :| 0 <= i < |rows| && Matches(rows[i], u, Inbox, "REQUEST", k, name) && !IsSettled(rows[i].status);
      assert Matches(after[i], u, Inbox, "REQUEST", k, name) && !IsSettled(after[i].status);
    }
  }

  /** Settling a pending row leaves the open rows of other users and UIDs open. */
  lemma SetStatusKeeps(rows: Rows, user: UserId, id: nat, status: Status)
    requires RowsOk(rows) && id < |rows| && rows[id].user == user && rows[id].status.Pending? && IsSettled(status)
    ensures var after := SetStatus(rows, user, id, status);
            && RowsOk(after) && RowsExtend(rows, after)
            && (forall u, k, name :: IsOpen(rows, u, k, name) && (u != user || k != rows[id].uid) ==> IsOpen(after, u, k, name))
  {
    var after := SetStatus(rows, user, id, status);
    forall u, k, name | IsOpen(rows, u, k, name) && (u != user || k != rows[id].uid) ensures IsOpen(after, u, k, name) {
      var i :| 0 <= i < |rows| && Matches(rows[i], u, Inbox, "REQUEST", k, name) && !IsSettled(rows[i].status);
      assert Matches(after[i], u, Inbox, "REQUEST", k, name) && !IsSettled(after[i].status);
    }
  }

  // ----- objects -----

  ghost predicate Holds(t: Objects, col: int, uid: string, h: string) {
    h in At(t, col) && At(t, col)[h].uid == uid
  }

  ghost predicate UidsAreUnique(t: Objects) {
    forall col, uid, a, b | uid != "" :: Holds(t, col, uid, a) && Holds(t, col, uid, b) ==> a == b
  }

  /** A METHOD:REQUEST object lies in the user's inbox. */
  ghost predicate InvitedBy(t: Objects, user: UserId, uid: string) {
    exists h :: InvitedAt(t, user, uid, h)
  }

  ghost predicate InvitedAt(t: Objects, user: UserId, uid: string, h: string) {
    Holds(t, InboxOf(user), uid, h) && At(t, InboxOf(user))[h].ics.itipMethod == Some("REQUEST")
  }

  lemma UpsertAt(env: Env, t: Objects, col: int, href: string, obj: Obj, k: int, uid: string, h: string)
    ensures Holds(Upsert(env, t, col, href, obj), k, uid, h) ==>
              if k == col && h == href then uid == obj.uid && At(Upsert(env, t, col, href, obj), k)[h] == obj
              else Holds(t, k, uid, h) && At(Upsert(env, t, col, href, obj), k)[h] == At(t, k)[h]
  {
  }

  lemma UpsertIsUnique(env: Env, t: Objects, col: int, href: string, obj: Obj)
    requires Faithful(env) && UidsAreUnique(t)
    ensures UidsAreUnique(Upsert(env, t, col, href, obj))
  {
    var after := Upsert(env, t, col, href, obj);
    forall k, uid, a, b | uid != "" && Holds(after, k, uid, a) && Holds(after, k, uid, b) ensures a == b {
      UpsertAt(env, t, col, href, obj, k, uid, a);
      UpsertAt(env, t, col, href, obj, k, uid, b);
      if k == col && (a == href) != (b == href) {
        var other := if a == href then b else a;
        UpsertMakesRoom(env, t, col, href, obj, other);
      }
    }
  }

  /** After an upsert no other href of the collection holds the UID. */
  lemma UpsertMakesRoom(env: Env, t: Objects, col: int, href: string, obj: Obj, other: string)
    requires Faithful(env) && UidsAreUnique(t) && obj.uid != "" && other != href
    ensures !Holds(Upsert(env, t, col, href, obj), col, obj.uid, other)
  {
    var holders := Holders(t, col, obj.uid);
    if Holds(t, col, obj.uid, other) {
      assert other in holders;
      assert Holds(t, col, obj.uid, env.pickHref(holders));
    }
  }

  /** b holds no more than a, with the same objects. */
  ghost predicate Within(a: Objects, b: Objects) {
    forall k, uid, h :: Holds(b, k, uid, h) ==> Holds(a, k, uid, h) && At(b, k)[h] == At(a, k)[h]
  }

  lemma WithinIsUnique(a: Objects, b: Objects)
    requires Within(a, b) && UidsAreUnique(a)
    ensures UidsAreUnique(b)
  {
  }

  lemma DeleteUidIsWithin(t: Objects, col: int, uid: string)
    ensures Within(t, DeleteUid(t, col, uid))
    ensures forall h :: !Holds(DeleteUid(t, col, uid), col, uid, h)
  {
    forall h ensures !Holds(DeleteUid(t, col, uid), col, uid, h) {
      assert h in At(t, col) && At(t, col)[h].uid == uid ==> h in Holders(t, col, uid);
    }
  }

  lemma {:induction false} DeleteFromOwnedIsWithin(t: Objects, list: seq<Listed>, uid: string)
    ensures Within(t, DeleteFromOwned(t, list, uid))
  {
    if list != [] {
      var before, c := DeleteFromOwned(t, list[..|list| - 1], uid), list[|list| - 1];
      DeleteFromOwnedIsWithin(t, list[..|list| - 1], uid);
      DeleteUidIsWithin(before, c.id, uid);
    }
  }

  // ----- the invariant -----

  /** An invitation lies in an inbox only while the user's REQUEST row for it is open. */
  ghost predicate InboxTellsTruth(w: World, names: UserId -> string) {
    forall user, uid :: InvitedBy(w.objects, user, uid) ==> IsOpen(w.rows, user, uid, names(user))
  }

  ghost predicate Inv(w: World, names: UserId -> string) {
    UidsAreUnique(w.objects) && RowsOk(w.rows) && InboxTellsTruth(w, names)
  }

  ghost predicate Keeps(w: World, after: World, names: UserId -> string) {
    Inv(after, names) && RowsExtend(w.rows, after.rows)
  }

  /** No invitation has come into any inbox. */
  ghost predicate NoNewInvitation(a: Objects, b: Objects) {
    forall user, uid :: InvitedBy(b, user, uid) ==> InvitedBy(a, user, uid)
  }

  lemma WithinInvitesNobody(a: Objects, b: Objects)
    requires Within(a, b)
    ensures NoNewInvitation(a, b)
  {
    forall user, uid | InvitedBy(b, user, uid) ensures InvitedBy(a, user, uid) {
      var h :| InvitedAt(b, user, uid, h);
      assert InvitedAt(a, user, uid, h);
    }
  }

  /** Only writing a REQUEST into an inbox invites, and it invites only that user, for that UID. */
  lemma UpsertInvites(env: Env, t: Objects, col: int, href: string, obj: Obj, user: UserId, uid: string)
    requires InvitedBy(Upsert(env, t, col, href, obj), user, uid)
    ensures InvitedBy(t, user, uid)
         || (col == InboxOf(user) && uid == obj.uid && obj.ics.itipMethod == Some("REQUEST"))
  {
    var h :| InvitedAt(Upsert(env, t, col, href, obj), user, uid, h);
    UpsertAt(env, t, col, href, obj, InboxOf(user), uid, h);
    if !(InboxOf(user) == col && h == href) {
      assert InvitedAt(t, user, uid, h);
    }
  }

  lemma UpsertInvitesNobody(env: Env, t: Objects, col: int, href: string, obj: Obj)
    requires !IsInbox(col) || obj.ics.itipMethod != Some("REQUEST")
    ensures NoNewInvitation(t, Upsert(env, t, col, href, obj))
  {
    forall user, uid | InvitedBy(Upsert(env, t, col, href, obj), user, uid) ensures InvitedBy(t, user, uid) {
      UpsertInvites(env, t, col, href, obj, user, uid);
      InboxIds(user, user);
    }
  }

  lemma RefreshKeeps(env: Env, t: Objects, a: User, uid: string, ics: Ics)
    requires Faithful(env) && UidsAreUnique(t)
    ensures UidsAreUnique(RefreshAcceptedCopy(env, t, a, uid, ics))
    ensures NoNewInvitation(t, RefreshAcceptedCopy(env, t, a, uid, ics))
  {
    var list := Calendars(env, a.id);
    var target := RefreshTarget(t, list, uid);
    if target.Some? {
      var col := list[target.value].id;
      assert list[target.value] in list && col > 0;
      var copy := ObjOf(env, uid, AcceptedCopy(a, ics));
      UpsertIsUnique(env, t, col, env.pickHref(Holders(t, col, uid)), copy);
      UpsertInvitesNobody(env, t, col, env.pickHref(Holders(t, col, uid)), copy);
    }
  }

  /** With a REQUEST copy and its pending row the invitation is true. */
  lemma RequestKeeps(env: Env, w: World, organizer: User, uid: string, ics: Ics, a: User, names: UserId -> string)
    requires Faithful(env) && Inv(w, names) && Named(a, names)
    ensures var request := WithMethod(ics, "REQUEST");
            var o1 := if Settled(w, a, uid) then w.objects
                      else Upsert(env, w.objects, InboxOf(a.id), CopyHref(uid, a.username), ObjOf(env, uid, request));
            var r1 := InsertRow(w.rows, Row(a.id, Inbox, "REQUEST", uid, organizer.username, a.username, Pending, request));
            Keeps(w, World(o1, r1), names)
  {
    var request := WithMethod(ics, "REQUEST");
    var copy := ObjOf(env, uid, request);
    var n := Row(a.id, Inbox, "REQUEST", uid, organizer.username, a.username, Pending, request);
    var o1 := if Settled(w, a, uid) then w.objects
              else Upsert(env, w.objects, InboxOf(a.id), CopyHref(uid, a.username), copy);
    var r1 := InsertRow(w.rows, n);
    InsertRowKeeps(w.rows, n);
    InsertOpens(w.rows, n);
    UpsertIsUnique(env, w.objects, InboxOf(a.id), CopyHref(uid, a.username), copy);
    forall user, k | InvitedBy(o1, user, k) ensures IsOpen(r1, user, k, names(user)) {
      if !InvitedBy(w.objects, user, k) {
        UpsertInvites(env, w.objects, InboxOf(a.id), CopyHref(uid, a.username), copy, user, k);
        InboxIds(a.id, user);
      }
    }
  }

  lemma InsertKeepsTruth(w: World, n: Row, objects: Objects, names: UserId -> string)
    requires Inv(w, names) && UidsAreUnique(objects) && NoNewInvitation(w.objects, objects)
    requires !n.status.Pending? && (n.verb != "REQUEST" || !IsSettled(n.status))
    ensures Keeps(w, World(objects, InsertRow(w.rows, n)), names)
  {
    InsertRowKeeps(w.rows, n);
  }

  lemma DeliverOneKeeps(env: Env, w: World, organizer: User, uid: string, ics: Ics, a: User, names: UserId -> string)
    requires Faithful(env) && Inv(w, names) && Named(a, names)
    ensures Keeps(w, DeliverOne(env, w, organizer, uid, ics, a), names)
  {
    if a.id != organizer.id && a.active {
      var request := WithMethod(ics, "REQUEST");
      var copy := ObjOf(env, uid, request);
      var href := CopyHref(uid, a.username);
      var settled := Settled(w, a, uid);
      var o1 := if settled then w.objects else Upsert(env, w.objects, InboxOf(a.id), href, copy);
      var r1 := InsertRow(w.rows, Row(a.id, Inbox, "REQUEST", uid, organizer.username, a.username, Pending, request));
      RequestKeeps(env, w, organizer, uid, ics, a, names);
      var o2 := if settled && RequestStatus(w, a, uid).value.Accepted?
                then RefreshAcceptedCopy(env, o1, a, uid, ics) else o1;
      RefreshKeeps(env, o1, a, uid, ics);
      var out := OutboxOf(organizer.id);
      InboxIds(a.id, organizer.id);
      UpsertIsUnique(env, o2, out, href, copy);
      UpsertInvitesNobody(env, o2, out, href, copy);
      var n := Row(organizer.id, Outbox, "REQUEST", uid, organizer.username, a.username, Processed, request);
      InsertKeepsTruth(World(o1, r1), n, Upsert(env, o2, out, href, copy), names);
      RowsExtendTransitive(w.rows, r1, InsertRow(r1, n));
    }
  }

  lemma CancelOneKeeps(env: Env, w: World, organizer: User, uid: string, ics: Ics, a: User, names: UserId -> string)
    requires Faithful(env) && Inv(w, names)
    ensures Keeps(w, CancelOne(env, w, organizer, uid, ics, a), names)
  {
    if a.id != organizer.id && a.active {
      var cancel := WithMethod(ics, "CANCEL");
      var copy := ObjOf(env, uid, cancel);
      var href := CopyHref(uid, a.username);
      var o1 := Upsert(env, w.objects, InboxOf(a.id), href, copy);
      UpsertIsUnique(env, w.objects, InboxOf(a.id), href, copy);
      UpsertInvitesNobody(env, w.objects, InboxOf(a.id), href, copy);
      var n1 := Row(a.id, Inbox, "CANCEL", uid, organizer.username, a.username, Cancelled, cancel);
      var r1 := InsertRow(w.rows, n1);
      InsertKeepsTruth(w, n1, o1, names);
      var r2 := ClosePending(r1, a.id, uid);
      ClosePendingKeeps(r1, a.id, uid);
      var o2 := DeleteFromOwned(o1, Calendars(env, a.id), uid);
      DeleteFromOwnedIsWithin(o1, Calendars(env, a.id), uid);
      WithinIsUnique(o1, o2);
      WithinInvitesNobody(o1, o2);
      var out := OutboxOf(organizer.id);
      InboxIds(a.id, organizer.id);
      UpsertIsUnique(env, o2, out, href, copy);
      UpsertInvitesNobody(env, o2, out, href, copy);
      var n3 := Row(organizer.id, Outbox, "CANCEL", uid, organizer.username, a.username, Processed, cancel);
      InsertKeepsTruth(World(o1, r2), n3, Upsert(env, o2, out, href, copy), names);
      RowsExtendTransitive(w.rows, r1, r2);
      RowsExtendTransitive(w.rows, r2, InsertRow(r2, n3));
    }
  }

  ghost predicate AllNamed(users: seq<User>, names: UserId -> string) {
    forall i :: 0 <= i < |users| ==> Named(users[i], names)
  }

  lemma {:induction false} DeliverCopiesKeeps(env: Env, w: World, organizer: User, uid: string, ics: Ics,
                                              atts: seq<User>, names: UserId -> string)
    requires Faithful(env) && Inv(w, names) && AllNamed(atts, names)
    ensures Keeps(w, DeliverCopies(env, w, organizer, uid, ics, atts), names)
  {
    if atts != [] {
      var k := |atts| - 1;
      var before := DeliverCopies(env, w, organizer, uid, ics, atts[..k]);
      DeliverCopiesKeeps(env, w, organizer, uid, ics, atts[..k], names);
      DeliverOneKeeps(env, before, organizer, uid, ics, atts[k], names);
      RowsExtendTransitive(w.rows, before.rows, DeliverOne(env, before, organizer, uid, ics, atts[k]).rows);
    }
  }

  lemma {:induction false} DeliverCancelKeeps(env: Env, w: World, organizer: User, uid: string, ics: Ics,
                                              atts: seq<User>, names: UserId -> string)
    requires Faithful(env) && Inv(w, names)
    ensures Keeps(w, DeliverCancel(env, w, organizer, uid, ics, atts), names)
  {
    if atts != [] {
      var k := |atts| - 1;
      var before := DeliverCancel(env, w, organizer, uid, ics, atts[..k]);
      DeliverCancelKeeps(env, w, organizer, uid, ics, atts[..k], names);
      CancelOneKeeps(env, before, organizer, uid, ics, atts[k], names);
      RowsExtendTransitive(w.rows, before.rows, CancelOne(env, before, organizer, uid, ics, atts[k]).rows);
    }
  }

  lemma {:induction false} LocalUsersAreNamed(env: Env, organizer: User, lines: seq<Attendee>, names: UserId -> string)
    requires forall k :: k in env.find ==> Named(env.find[k], names)
    ensures AllNamed(LocalUsers(env, organizer, lines), names)
  {
    if lines != [] {
      LocalUsersAreNamed(env, organizer, lines[..|lines| - 1], names);
    }
  }

  lemma MergeReplyKeeps(env: Env, t: Objects, organizer: User, reply: Ics)
    requires Faithful(env) && UidsAreUnique(t)
    ensures UidsAreUnique(MergeReply(env, t, organizer, reply))
    ensures NoNewInvitation(t, MergeReply(env, t, organizer, reply))
  {
    var uid := CalendarUID(reply);
    var cals := OwnedHolding(env, t, organizer.id, uid);
    if uid != "" && Attendees(reply) != [] && cals != {} {
      var col := env.pickCal(cals);
      assert InOwned(env, organizer.id, col);
      var c :| c in Calendars(env, organizer.id) && IsOwn(c) && c.id == col;
      assert col > 0;
      var href := env.pickHref(Holders(t, col, uid));
      var obj := At(t, col)[href];
      var updated := WithAttendees(obj.ics, MergeLines(Attendees(obj.ics), Attendees(reply)));
      UpsertIsUnique(env, t, col, href, ObjOf(env, obj.uid, updated));
      UpsertInvitesNobody(env, t, col, href, ObjOf(env, obj.uid, updated));
    }
  }

  lemma WriteReplyKeeps(env: Env, w: World, organizer: User, attendee: User, item: Row, status: Status, answer: Ics,
                        names: UserId -> string)
    requires Faithful(env) && Inv(w, names) && IsSettled(status)
    ensures Keeps(w, WriteReply(env, w, organizer, attendee, item, status, answer), names)
  {
    var reply := WithMethod(answer, "REPLY");
    var copy := ObjOf(env, item.uid, reply);
    var href := ReplyHref(item.uid, attendee.username);
    var o1 := Upsert(env, w.objects, InboxOf(organizer.id), href, copy);
    UpsertIsUnique(env, w.objects, InboxOf(organizer.id), href, copy);
    UpsertInvitesNobody(env, w.objects, InboxOf(organizer.id), href, copy);
    MergeReplyKeeps(env, o1, organizer, reply);
    var n := Row(organizer.id, Inbox, "REPLY", item.uid, organizer.username, attendee.username, status, reply);
    InsertKeepsTruth(w, n, MergeReply(env, o1, organizer, reply), names);
  }

  /** The reply's row is not the item's, so the item is still pending when its status is set. */
  lemma ItemStaysPending(env: Env, w: World, organizer: User, attendee: User, id: nat, status: Status, answer: Ics)
    requires Faithful(env) && RowsOk(w.rows) && id < |w.rows| && w.rows[id].status.Pending?
    ensures var after := WriteReply(env, w, organizer, attendee, w.rows[id], status, answer);
            id < |after.rows| && after.rows[id] == w.rows[id]
  {
  }

  lemma NoObjectNoInvitation(t: Objects, user: UserId, uid: string)
    requires forall h :: !Holds(t, InboxOf(user), uid, h)
    ensures !InvitedBy(t, user, uid)
  {
  }

  lemma AnsweredKeeps(env: Env, w: World, organizer: User, attendee: User, id: nat, status: Status, names: UserId -> string)
    requires Faithful(env) && Inv(w, names) && IsSettled(status)
    requires id < |w.rows| && w.rows[id].user == attendee.id && w.rows[id].status.Pending?
    ensures Keeps(w, Answered(env, w, organizer, attendee, id, w.rows[id], status), names)
  {
    var item := w.rows[id];
    var answer := Answer(attendee, item, status);
    var w1 := WriteReply(env, w, organizer, attendee, item, status, answer);
    WriteReplyKeeps(env, w, organizer, attendee, item, status, answer, names);
    ItemStaysPending(env, w, organizer, attendee, id, status, answer);
    SetStatusKeeps(w1.rows, attendee.id, id, status);
    var o2 := DeleteUid(w1.objects, InboxOf(attendee.id), item.uid);
    DeleteUidIsWithin(w1.objects, InboxOf(attendee.id), item.uid);
    WithinIsUnique(w1.objects, o2);
    WithinInvitesNobody(w1.objects, o2);
    var r2 := SetStatus(w1.rows, attendee.id, id, status);
    NoObjectNoInvitation(o2, attendee.id, item.uid);
    forall user, uid | InvitedBy(o2, user, uid) ensures IsOpen(r2, user, uid, names(user)) {
      assert InvitedBy(w1.objects, user, uid);
    }
    RowsExtendTransitive(w.rows, w1.rows, r2);
  }

  lemma RespondedKeeps(env: Env, w: World, attendee: User, id: nat, accept: bool, calendarId: int, names: UserId -> string)
    requires Faithful(env) && Inv(w, names)
    requires id < |w.rows| && w.rows[id].user == attendee.id && w.rows[id].status.Pending?
    ensures Keeps(w, Responded(env, w, attendee, id, accept, calendarId), names)
  {
    var item := w.rows[id];
    var organizer := FindUser(env, item.organizer);
    if organizer.Some? {
      if accept {
        var col := AcceptCalendar(Calendars(env, attendee.id), calendarId);
        if col.Some? {
          AcceptCalendarIsListed(Calendars(env, attendee.id), calendarId);
          var copy := ObjOf(env, item.uid, Answer(attendee, item, Accepted));
          var o1 := Upsert(env, w.objects, col.value, item.uid + ".ics", copy);
          UpsertIsUnique(env, w.objects, col.value, item.uid + ".ics", copy);
          UpsertInvitesNobody(env, w.objects, col.value, item.uid + ".ics", copy);
          AnsweredKeeps(env, World(o1, w.rows), organizer.value, attendee, id, Accepted, names);
        }
      } else {
        AnsweredKeeps(env, w, organizer.value, attendee, id, Declined, names);
      }
    }
  }

  lemma {:induction false} AcceptCalendarIsListed(list: seq<Listed>, calendarId: int)
    requires AcceptCalendar(list, calendarId).Some?
    ensures exists c :: c in list && c.id == AcceptCalendar(list, calendarId).value && c.CanWrite()
  {
    if AcceptCalendar(list[..|list| - 1], calendarId).Some? {
      AcceptCalendarIsListed(list[..|list| - 1], calendarId);
    } else {
      assert list[|list| - 1] in list;
    }
  }

  lemma PutEventKeeps(env: Env, w: World, organizer: User, kind: CalKind, uid: string, ics: Ics, prevIcs: Option<Ics>,
                      names: UserId -> string)
    requires Faithful(env) && Inv(w, names) && forall k :: k in env.find ==> Named(env.find[k], names)
    ensures Keeps(w, DeliverFromPut(env, w, organizer, kind, uid, ics, prevIcs), names)
  {
    var cur := LocalAttendees(env, organizer, ics);
    LocalUsersAreNamed(env, organizer, Attendees(ics), names);
    var gone := if prevIcs.Some? then Removed(LocalAttendees(env, organizer, prevIcs.value), cur) else [];
    DeliverCancelKeeps(env, w, organizer, uid, ics, gone, names);
    var w1 := DropRemoved(env, w, organizer, uid, ics, prevIcs);
    DeliverCopiesKeeps(env, w1, organizer, uid, ics, cur, names);
    RowsExtendTransitive(w.rows, w1.rows, DeliverCopies(env, w1, organizer, uid, ics, cur).rows);
  }

  lemma PostKeeps(env: Env, w: World, user: User, ics: Ics, names: UserId -> string)
    requires Faithful(env) && Inv(w, names) && forall k :: k in env.find ==> Named(env.find[k], names)
    ensures Keeps(w, HandleOutboxPost(env, w, user, ics), names)
  {
    hide MergeReply, CalendarUID, Verb, AsksFreeBusy, Faithful;
    var uid, atts := CalendarUID(ics), LocalAttendees(env, user, ics);
    LocalUsersAreNamed(env, user, Attendees(ics), names);
    DeliverCancelKeeps(env, w, user, uid, ics, atts, names);
    DeliverCopiesKeeps(env, w, user, uid, StripMethod(ics), atts, names);
    var organizer := FindUser(env, OrganizerValue(ics));
    if organizer.Some? {
      MergeReplyKeeps(env, w.objects, organizer.value, ics);
    }
  }

  lemma WriteKeeps(env: Env, w: World, col: int, href: string, obj: Obj, names: UserId -> string)
    requires Faithful(env) && Inv(w, names) && !IsInbox(col)
    ensures Keeps(w, w.(objects := Upsert(env, w.objects, col, href, obj)), names)
  {
    UpsertIsUnique(env, w.objects, col, href, obj);
    UpsertInvitesNobody(env, w.objects, col, href, obj);
  }

  lemma EraseKeeps(w: World, col: int, href: string, names: UserId -> string)
    requires Inv(w, names)
    ensures Keeps(w, w.(objects := w.objects[col := At(w.objects, col) - {href}]), names)
  {
    var t := w.objects[col := At(w.objects, col) - {href}];
    assert Within(w.objects, t);
    WithinIsUnique(w.objects, t);
    WithinInvitesNobody(w.objects, t);
  }

  lemma ApplyKeeps(env: Env, w: World, call: Call, names: UserId -> string)
    requires Inv(w, names)
    ensures Keeps(w, Apply(env, w, call, names), names)
  {
    if Enabled(env, w, call, names) {
      match call
      case PutEvent(organizer, kind, uid, ics, prevIcs) =>
        PutEventKeeps(env, w, organizer, kind, uid, ics, prevIcs, names);
      case DeleteEvent(organizer, kind, uid, ics) =>
        DeliverCancelKeeps(env, w, organizer, uid, ics, LocalAttendees(env, organizer, ics), names);
      case Invite(organizer, uid, ics, attendees) =>
        DeliverCopiesKeeps(env, w, organizer, uid, ics, attendees, names);
      case Post(user, ics) => PostKeeps(env, w, user, ics, names);
      case Respond(attendee, id, accept, calendarId) =>
        RespondedKeeps(env, w, attendee, id, accept, calendarId, names);
      case Write(col, href, obj) => WriteKeeps(env, w, col, href, obj, names);
      case Erase(col, href) => EraseKeeps(w, col, href, names);
    }
  }

  /**
    Over every run: one row per key, a settled answer stays settled, one object per UID, and an
    invitation lies in an inbox only while its row is open.
   */
  lemma {:induction false} RunKeeps(w: World, calls: seq<(Env, Call)>, names: UserId -> string)
    requires Inv(w, names)
    ensures Keeps(w, Run(w, calls, names), names)
  {
    if calls != [] {
      var before := Run(w, calls[..|calls| - 1], names);
      RunKeeps(w, calls[..|calls| - 1], names);
      var (env, call) := calls[|calls| - 1];
      ApplyKeeps(env, before, call, names);
      RowsExtendTransitive(w.rows, before.rows, Apply(env, before, call, names).rows);
    }
  }

  lemma NewServerIsFine(names: UserId -> string)
    ensures Inv(World(map[], []), names)
  {
    var w := World(map[], []);
    forall user, uid ensures !InvitedBy(w.objects, user, uid) {
    }
  }
}

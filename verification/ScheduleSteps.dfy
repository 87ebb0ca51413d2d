/**
  Scheduling as the program runs it: loops over attendees and calendars that change the object
  tables and the schedule rows in place.  Each method is proved to do what the function of the same
  name in `Schedule` says; single SQL statements are the functions on tables themselves.
 */
module ScheduleSteps {
  import opened Itip
  import opened Schedule
  import opened Wrappers

  /** The active local users among the attendees, with the ids seen so far. */
  method CollectLocalAttendees(env: Env, organizer: User, ics: Ics) returns (users: seq<User>)
    ensures users == LocalAttendees(env, organizer, ics)
  {
    hide FindUser, Attendees;
    users := [];
    var seen: set<UserId> := {};
    var lines := Attendees(ics);
    assert lines[..0] == [];
    for i := 0 to |lines|
      invariant users == LocalUsers(env, organizer, lines[..i])
      invariant forall id :: id in seen <==> HasUser(users, id)
    {
      assert lines[..i + 1][..i] == lines[..i];
      var found := FindUser(env, lines[i].value);
      if found.None? || !found.value.active || found.value.id == organizer.id || found.value.id in seen {
        continue;
      }
      OneMoreSeen(users, seen, found.value);
      seen := seen + {found.value.id};
      users := users + [found.value];
    }
    assert lines[..|lines|] == lines;
  }

  lemma OneMoreSeen(users: seq<User>, seen: set<UserId>, u: User)
    requires forall id :: id in seen <==> HasUser(users, id)
    ensures forall id :: id in seen + {u.id} <==> HasUser(users + [u], id)
  {
    forall id ensures id in seen + {u.id} <==> HasUser(users + [u], id) {
      HasUserSnoc(users, u, id);
    }
  }

  lemma HasUserSnoc(users: seq<User>, u: User, id: UserId)
    ensures HasUser(users + [u], id) <==> HasUser(users, id) || u.id == id
  {
    if i :| 0 <= i < |users| && users[i].id == id {
      assert (users + [u])[i].id == id;
    }
    if u.id == id {
      assert (users + [u])[|users|].id == id;
    }
  }

  /** The previous attendees who are no longer on the list. */
  method CollectRemoved(prev: seq<User>, cur: seq<User>) returns (removed: seq<User>)
    ensures removed == Removed(prev, cur)
  {
    var curIds: set<UserId> := {};
    assert cur[..0] == [];
    for i := 0 to |cur|
      invariant forall id :: id in curIds <==> HasUser(cur[..i], id)
    {
      assert cur[..i + 1] == cur[..i] + [cur[i]];
      forall id { HasUserSnoc(cur[..i], cur[i], id); }
      curIds := curIds + {cur[i].id};
    }
    assert cur[..|cur|] == cur;
    removed := [];
    assert prev[..0] == [];
    for i := 0 to |prev|
      invariant removed == Removed(prev[..i], cur)
    {
      assert prev[..i + 1][..i] == prev[..i];
      if prev[i].id !in curIds {
        removed := removed + [prev[i]];
      }
    }
    assert prev[..|prev|] == prev;
  }

  class Server {
    var objects: Objects
    var rows: Rows

    ghost function State(): World
      reads this
    {
      World(objects, rows)
    }

    constructor ()
      ensures State() == World(map[], [])
    {
      objects := map[];
      rows := [];
    }

    method DeliverCopies(env: Env, organizer: User, uid: string, ics: Ics, attendees: seq<User>)
      modifies this
      ensures State() == Schedule.DeliverCopies(env, old(State()), organizer, uid, ics, attendees)
    {
      ghost var before := State();
      assert attendees[..0] == [];
      for i := 0 to |attendees|
        invariant State() == Schedule.DeliverCopies(env, before, organizer, uid, ics, attendees[..i])
      {
        assert attendees[..i + 1][..i] == attendees[..i];
        DeliverCopy(env, organizer, uid, ics, attendees[i]);
      }
      assert attendees[..|attendees|] == attendees;
    }

    /** The body of the loop over attendees. */
    method DeliverCopy(env: Env, organizer: User, uid: string, ics: Ics, a: User)
      modifies this
      ensures State() == DeliverOne(env, old(State()), organizer, uid, ics, a)
    {
      if a.id == organizer.id || !a.active {
        return;
      }
      var request := WithMethod(ics, "REQUEST");
      var copy := ObjOf(env, uid, request);
      var prev := FindRow(rows, a.id, Inbox, "REQUEST", uid, a.username);
      var status := if prev.Some? then rows[prev.value].status else Pending;
      if !IsSettled(status) {
        objects := Upsert(env, objects, InboxOf(a.id), CopyHref(uid, a.username), copy);
      }
      rows := InsertRow(rows, Row(a.id, Inbox, "REQUEST", uid, organizer.username, a.username, Pending, request));
      if status.Accepted? {
        RefreshAcceptedCopy(env, a, uid, ics);
      }
      objects := Upsert(env, objects, OutboxOf(organizer.id), CopyHref(uid, a.username), copy);
      rows := InsertRow(rows, Row(organizer.id, Outbox, "REQUEST", uid, organizer.username, a.username, Processed, request));
    }

    method RefreshAcceptedCopy(env: Env, a: User, uid: string, ics: Ics)
      modifies this`objects
      ensures objects == Schedule.RefreshAcceptedCopy(env, old(objects), a, uid, ics)
    {
      var list := Calendars(env, a.id);
      var copy := ObjOf(env, uid, AcceptedCopy(a, ics));
      assert list[..0] == [];
      for i := 0 to |list|
        invariant objects == old(objects) && RefreshTarget(objects, list[..i], uid) == None
      {
        var c := list[i];
        assert list[..i + 1][..i] == list[..i];
        var holders := Holders(objects, c.id, uid);
        if c.CanWrite() && holders != {} {
          TargetFound(objects, list, uid, i);
          objects := Upsert(env, objects, c.id, env.pickHref(holders), copy);
          return;
        }
      }
      assert list[..|list|] == list;
    }

    method DeliverCancel(env: Env, organizer: User, uid: string, ics: Ics, attendees: seq<User>)
      modifies this
      ensures State() == Schedule.DeliverCancel(env, old(State()), organizer, uid, ics, attendees)
    {
      ghost var before := State();
      assert attendees[..0] == [];
      for i := 0 to |attendees|
        invariant State() == Schedule.DeliverCancel(env, before, organizer, uid, ics, attendees[..i])
      {
        assert attendees[..i + 1][..i] == attendees[..i];
        CancelCopy(env, organizer, uid, ics, attendees[i]);
      }
      assert attendees[..|attendees|] == attendees;
    }

    /** The body of the loop over attendees. */
    method CancelCopy(env: Env, organizer: User, uid: string, ics: Ics, a: User)
      modifies this
      ensures State() == CancelOne(env, old(State()), organizer, uid, ics, a)
    {
      if a.id == organizer.id || !a.active {
        return;
      }
      var cancel := WithMethod(ics, "CANCEL");
      var copy := ObjOf(env, uid, cancel);
      objects := Upsert(env, objects, InboxOf(a.id), CopyHref(uid, a.username), copy);
      rows := InsertRow(rows, Row(a.id, Inbox, "CANCEL", uid, organizer.username, a.username, Cancelled, cancel));
      rows := ClosePending(rows, a.id, uid);
      DeleteFromOwned(Calendars(env, a.id), uid);
      objects := Upsert(env, objects, OutboxOf(organizer.id), CopyHref(uid, a.username), copy);
      rows := InsertRow(rows, Row(organizer.id, Outbox, "CANCEL", uid, organizer.username, a.username, Processed, cancel));
    }

    method DeleteFromOwned(list: seq<Listed>, uid: string)
      modifies this`objects
      ensures objects == Schedule.DeleteFromOwned(old(objects), list, uid)
    {
      assert list[..0] == [];
      for i := 0 to |list|
        invariant objects == Schedule.DeleteFromOwned(old(objects), list[..i], uid)
      {
        var c := list[i];
        assert list[..i + 1][..i] == list[..i];
        if c.shared || c.kind.InboxKind? || c.kind.OutboxKind? {
          continue;
        }
        objects := DeleteUid(objects, c.id, uid);
      }
      assert list[..|list|] == list;
    }

    method DeliverFromPut(env: Env, organizer: User, kind: CalKind, uid: string, ics: Ics, prevIcs: Option<Ics>)
      modifies this
      ensures State() == Schedule.DeliverFromPut(env, old(State()), organizer, kind, uid, ics, prevIcs)
    {
      if !Schedules(organizer, kind, ics) {
        return;
      }
      var cur := CollectLocalAttendees(env, organizer, ics);
      if prevIcs.Some? {
        var prev := CollectLocalAttendees(env, organizer, prevIcs.value);
        var removed := CollectRemoved(prev, cur);
        if |removed| > 0 {
          DeliverCancel(env, organizer, uid, ics, removed);
        }
      }
      if |cur| == 0 {
        return;
      }
      DeliverCopies(env, organizer, uid, ics, cur);
    }

    method CancelFromDelete(env: Env, organizer: User, kind: CalKind, uid: string, ics: Ics)
      modifies this
      ensures State() == Schedule.CancelFromDelete(env, old(State()), organizer, kind, uid, ics)
    {
      if !Schedules(organizer, kind, ics) {
        return;
      }
      var atts := CollectLocalAttendees(env, organizer, ics);
      if |atts| == 0 {
        return;
      }
      DeliverCancel(env, organizer, uid, ics, atts);
    }

    method MergeReply(env: Env, organizer: User, reply: Ics)
      requires Faithful(env)
      modifies this`objects
      ensures objects == Schedule.MergeReply(env, old(objects), organizer, reply)
    {
      var uid := CalendarUID(reply);
      var atts := Attendees(reply);
      if uid == "" || |atts| == 0 {
        return;
      }
      var cals := OwnedHolding(env, objects, organizer.id, uid);
      if cals == {} {
        return;
      }
      var col := env.pickCal(cals);
      var href := env.pickHref(Holders(objects, col, uid));
      var obj := At(objects, col)[href];
      var updated := MergeAttendees(obj.ics, atts);
      if updated == obj.ics {
        return;
      }
      objects := Upsert(env, objects, col, href, ObjOf(env, obj.uid, updated));
    }

    /** writeReply, deleteInboxCopies and SetScheduleStatus, in that order. */
    method Answer(env: Env, organizer: User, attendee: User, id: nat, item: Row, status: Status)
      requires Faithful(env) && IsSettled(status)
      modifies this
      ensures State() == Answered(env, old(State()), organizer, attendee, id, item, status)
    {
      var answer := Schedule.Answer(attendee, item, status);
      var reply := WithMethod(answer, "REPLY");
      objects := Upsert(env, objects, InboxOf(organizer.id), ReplyHref(item.uid, attendee.username), ObjOf(env, item.uid, reply));
      rows := InsertRow(rows, Row(organizer.id, Inbox, "REPLY", item.uid, organizer.username, attendee.username, status, reply));
      MergeReply(env, organizer, reply);
      objects := DeleteUid(objects, InboxOf(attendee.id), item.uid);
      rows := SetStatus(rows, attendee.id, id, status);
    }

    method FindAcceptCalendar(env: Env, attendee: User, calendarId: int) returns (col: Option<int>)
      ensures col == AcceptCalendar(Calendars(env, attendee.id), calendarId)
    {
      var list := Calendars(env, attendee.id);
      assert list[..0] == [];
      for i := 0 to |list|
        invariant AcceptCalendar(list[..i], calendarId) == None
      {
        var c := list[i];
        assert list[..i + 1][..i] == list[..i];
        if (if calendarId != 0 then c.id == calendarId else c.kind.Personal? && !c.shared) && c.CanWrite() {
          AcceptFound(list, calendarId, i);
          return Some(c.id);
        }
      }
      assert list[..|list|] == list;
      return None;
    }

    /** One transaction: an error puts everything back. */
    method Accept(env: Env, attendee: User, id: nat, item: Row, calendarId: int) returns (ok: bool)
      requires Faithful(env)
      modifies this
      ensures ok ==> Schedule.Accept(env, old(State()), attendee, id, item, calendarId) == Some(State())
      ensures !ok ==> Schedule.Accept(env, old(State()), attendee, id, item, calendarId) == None && State() == old(State())
    {
      var col := FindAcceptCalendar(env, attendee, calendarId);
      if col.None? {
        return false;
      }
      var saved := objects;
      objects := Upsert(env, objects, col.value, item.uid + ".ics", ObjOf(env, item.uid, Schedule.Answer(attendee, item, Accepted)));
      var organizer := FindUser(env, item.organizer);
      if organizer.None? {
        objects := saved;
        return false;
      }
      Answer(env, organizer.value, attendee, id, item, Accepted);
      return true;
    }

    method Decline(env: Env, attendee: User, id: nat, item: Row) returns (ok: bool)
      requires Faithful(env)
      modifies this
      ensures ok ==> Schedule.Decline(env, old(State()), attendee, id, item) == Some(State())
      ensures !ok ==> Schedule.Decline(env, old(State()), attendee, id, item) == None && State() == old(State())
    {
      var organizer := FindUser(env, item.organizer);
      if organizer.None? {
        return false;
      }
      Answer(env, organizer.value, attendee, id, item, Declined);
      return true;
    }

    method HandleOutboxPost(env: Env, user: User, ics: Ics)
      requires Faithful(env)
      modifies this
      ensures State() == Schedule.HandleOutboxPost(env, old(State()), user, ics)
    {
      if AsksFreeBusy(ics) {
        return;
      }
      var uid := CalendarUID(ics);
      if Verb(ics) == "CANCEL" {
        var atts := CollectLocalAttendees(env, user, ics);
        DeliverCancel(env, user, uid, ics, atts);
      } else if Verb(ics) == "REPLY" {
        var organizer := FindUser(env, OrganizerValue(ics));
        if organizer.None? {
          return;
        }
        MergeReply(env, organizer.value, ics);
      } else {
        var atts := CollectLocalAttendees(env, user, ics);
        DeliverCopies(env, user, uid, StripMethod(ics), atts);
      }
    }
  }

  /** Once found, the first target stays the first. */
  lemma {:induction false} TargetFound(t: Objects, list: seq<Listed>, uid: string, i: nat)
    requires i < |list| && RefreshTarget(t, list[..i], uid) == None
    requires list[i].CanWrite() && Holders(t, list[i].id, uid) != {}
    ensures RefreshTarget(t, list, uid) == Some(i)
  {
    var k := |list| - 1;
    if i < k {
      assert list[..k][..i] == list[..i];
      TargetFound(t, list[..k], uid, i);
    }
  }

  lemma {:induction false} AcceptFound(list: seq<Listed>, calendarId: int, i: nat)
    requires i < |list| && AcceptCalendar(list[..i], calendarId) == None && list[i].CanWrite()
    requires if calendarId != 0 then list[i].id == calendarId else list[i].kind.Personal? && !list[i].shared
    ensures AcceptCalendar(list, calendarId) == Some(list[i].id)
  {
    var k := |list| - 1;
    if i < k {
      assert list[..k][..i] == list[..i];
      AcceptFound(list[..k], calendarId, i);
    }
  }
}

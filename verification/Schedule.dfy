/**
  Local iTIP scheduling (RFC 5546 sections 3.2.2, 3.2.3 and 3.2.5; RFC 6638 section 3.2): what the
  deliver, cancel, accept, decline and reply operations do to the object tables and to the schedule
  rows.  Ids of collections are integers; a user's scheduling inbox and outbox have ids of their
  own, and every other calendar has a positive id.
 */
module Schedule {
  import opened Itip
  import opened Strings
  import opened Wrappers

  type UserId = nat

  datatype User = User(id: UserId, username: string, active: bool, identities: seq<string>)

  datatype CalKind = Personal | SharedKind | ImportantDates | InboxKind | OutboxKind

  /** A row of ListCalendars. */
  datatype Listed = Listed(id: int, kind: CalKind, readOnly: bool, shared: bool, writeAccess: bool) {
    predicate CanWrite() {
      && !readOnly && !kind.InboxKind? && !kind.OutboxKind? && !kind.ImportantDates?
      && (shared ==> writeAccess)
    }
  }

  function InboxOf(user: UserId): int { -2 * user - 1 }

  function OutboxOf(user: UserId): int { -2 * user - 2 }

  datatype Obj = Obj(uid: string, etag: string, ics: Ics)

  /** The calendar_objects table: per collection, the objects by href. */
  type Objects = map<int, map<string, Obj>>

  datatype Box = Inbox | Outbox

  datatype Status = Pending | Accepted | Declined | Cancelled | Processed

  datatype Row = Row(user: UserId, box: Box, verb: string, uid: string, organizer: string, attendee: string,
                     status: Status, ics: Ics)

  /** The schedule_items table in the order of its ids: row i has id i + 1. */
  type Rows = seq<Row>

  datatype World = World(objects: Objects, rows: Rows)

  /**
    What one call sees of the rest of the database, and the choices SQL leaves open: which of several
    rows LIMIT 1 returns, and which of several calendars a UID is found in.
   */
  datatype Env = Env(
    find: map<string, User>,
    lists: map<UserId, seq<Listed>>,
    owned: map<UserId, set<int>>,
    hash: Ics -> string,
    pickHref: set<string> -> string,
    pickCal: set<int> -> int)

  /** A calendar of the user's own, other than inbox and outbox. */
  predicate IsOwn(c: Listed) {
    !c.shared && !c.kind.InboxKind? && !c.kind.OutboxKind?
  }

  /** The choices are among the rows offered, and the calendar lists and owners agree. */
  ghost predicate Faithful(env: Env) {
    && (forall s :: s != {} ==> env.pickHref(s) in s)
    && (forall s :: s != {} ==> env.pickCal(s) in s)
    && (forall u :: u in env.lists ==> ListIsSound(env.lists[u]))
    && (forall u, id :: InOwned(env, u, id) <==> exists c :: c in Calendars(env, u) && IsOwn(c) && c.id == id)
    && (forall u, v, id :: InOwned(env, u, id) && InOwned(env, v, id) ==> u == v)
  }

  ghost predicate ListIsSound(list: seq<Listed>) {
    forall c :: c in list && !c.kind.InboxKind? && !c.kind.OutboxKind? ==> c.id > 0
  }

  predicate InOwned(env: Env, user: UserId, id: int) {
    user in env.owned && id in env.owned[user]
  }

  function Calendars(env: Env, user: UserId): seq<Listed> {
    if user in env.lists then env.lists[user] else []
  }

  // ----- objects -----

  function At(t: Objects, col: int): map<string, Obj> {
    if col in t then t[col] else map[]
  }

  function Holders(t: Objects, col: int, uid: string): set<string> {
    set h | h in At(t, col) && At(t, col)[h].uid == uid
  }

  /** UpsertCalendarObject: one other href with the UID gives way, then the row is written. */
  function Upsert(env: Env, t: Objects, col: int, href: string, obj: Obj): Objects {
    var holders := Holders(t, col, obj.uid);
    var room := if obj.uid != "" && holders != {} && env.pickHref(holders) != href
                then At(t, col) - {env.pickHref(holders)} else At(t, col);
    t[col := room[href := obj]]
  }

  /** DeleteObjectsByUID */
  function DeleteUid(t: Objects, col: int, uid: string): Objects {
    t[col := At(t, col) - Holders(t, col, uid)]
  }

  // ----- schedule rows -----

  predicate IsSettled(status: Status) {
    status.Accepted? || status.Declined?
  }

  predicate Matches(r: Row, user: UserId, box: Box, verb: string, uid: string, attendee: string) {
    r.user == user && r.box == box && r.verb == verb && r.uid == uid && r.attendee == attendee
  }

  /** The newest matching row's place, if there is one. */
  function FindRow(rows: Rows, user: UserId, box: Box, verb: string, uid: string, attendee: string): (i: Option<nat>)
    ensures i.Some? ==> i.value < |rows| && Matches(rows[i.value], user, box, verb, uid, attendee)
    ensures i.None? ==> forall k :: 0 <= k < |rows| ==> !Matches(rows[k], user, box, verb, uid, attendee)
  {
    if rows == [] then None
    else if Matches(rows[|rows| - 1], user, box, verb, uid, attendee) then Some(|rows| - 1)
    else FindRow(rows[..|rows| - 1], user, box, verb, uid, attendee)
  }

  /** The UPDATE of InsertSchedule: a settled row keeps its status. */
  function Refreshed(r: Row, n: Row): Row {
    r.(ics := n.ics, organizer := n.organizer, status := if IsSettled(r.status) then r.status else n.status)
  }

  /** InsertSchedule: update every row with the same key, insert one if there is none. */
  function InsertRow(rows: Rows, n: Row): Rows {
    if FindRow(rows, n.user, n.box, n.verb, n.uid, n.attendee).None? then rows + [n]
    else seq(|rows|, i requires 0 <= i < |rows| =>
           if Matches(rows[i], n.user, n.box, n.verb, n.uid, n.attendee) then Refreshed(rows[i], n) else rows[i])
  }

  /** ClosePendingInbox */
  function ClosePending(rows: Rows, user: UserId, uid: string): Rows {
    seq(|rows|, i requires 0 <= i < |rows| =>
      if rows[i].user == user && rows[i].uid == uid && rows[i].box.Inbox? && rows[i].status.Pending?
      then rows[i].(status := Cancelled) else rows[i])
  }

  /** SetScheduleStatus */
  function SetStatus(rows: Rows, user: UserId, id: nat, status: Status): Rows {
    if id < |rows| && rows[id].user == user then rows[id := rows[id].(status := status)] else rows
  }

  // ----- calendar texts -----

  function WithMethod(ics: Ics, verb: string): Ics {
    ics.(itipMethod := Some(verb))
  }

  function StripMethod(ics: Ics): Ics {
    ics.(itipMethod := None)
  }

  function SetPartstat(ics: Ics, emails: seq<string>, partstat: string): Ics {
    WithAttendees(ics, SetLines(Attendees(ics), KeysOf(emails), partstat))
  }

  function CopyHref(uid: string, username: string): string {
    uid + "-" + username + ".ics"
  }

  function ObjOf(env: Env, uid: string, ics: Ics): Obj {
    Obj(uid, env.hash(ics), ics)
  }

  // ----- attendees of this server -----

  function FindUser(env: Env, ident: string): Option<User> {
    var a := AddrOf(ident);
    if a == "" || a !in env.find then None else Some(env.find[a])
  }

  predicate HasUser(users: seq<User>, id: UserId) {
    exists i :: 0 <= i < |users| && users[i].id == id
  }

  /** The active local users among the lines, each once, without the organizer. */
  function LocalUsers(env: Env, organizer: User, lines: seq<Attendee>): seq<User> {
    if lines == [] then []
    else
      var before := LocalUsers(env, organizer, lines[..|lines| - 1]);
      match FindUser(env, lines[|lines| - 1].value)
      case None => before
      case Some(u) => if !u.active || u.id == organizer.id || HasUser(before, u.id) then before else before + [u]
  }

  function LocalAttendees(env: Env, organizer: User, ics: Ics): seq<User> {
    LocalUsers(env, organizer, Attendees(ics))
  }

  // ----- REQUEST -----

  /** The place of the first calendar that takes an accepted copy's update: writable, with the UID. */
  function RefreshTarget(t: Objects, list: seq<Listed>, uid: string): (i: Option<nat>)
    ensures i.Some? ==> i.value < |list| && list[i.value].CanWrite() && Holders(t, list[i.value].id, uid) != {}
  {
    if list == [] then None
    else
      match RefreshTarget(t, list[..|list| - 1], uid)
      case Some(i) => Some(i)
      case None =>
        var c := list[|list| - 1];
        if c.CanWrite() && Holders(t, c.id, uid) != {} then Some(|list| - 1) else None
  }

  function AcceptedCopy(a: User, ics: Ics): Ics {
    SetPartstat(StripMethod(ics), a.identities, "ACCEPTED")
  }

  function RefreshAcceptedCopy(env: Env, t: Objects, a: User, uid: string, ics: Ics): Objects {
    var list := Calendars(env, a.id);
    match RefreshTarget(t, list, uid)
    case None => t
    case Some(i) =>
      var col := list[i].id;
      Upsert(env, t, col, env.pickHref(Holders(t, col, uid)), ObjOf(env, uid, AcceptedCopy(a, ics)))
  }

  function RequestStatus(w: World, a: User, uid: string): Option<Status> {
    match FindRow(w.rows, a.id, Inbox, "REQUEST", uid, a.username)
    case None => None
    case Some(i) => Some(w.rows[i].status)
  }

  predicate Settled(w: World, a: User, uid: string) {
    RequestStatus(w, a, uid).Some? && IsSettled(RequestStatus(w, a, uid).value)
  }

  /** One attendee's share of deliverCopies. */
  function DeliverOne(env: Env, w: World, organizer: User, uid: string, ics: Ics, a: User): World {
    if a.id == organizer.id || !a.active then w else
      var request := WithMethod(ics, "REQUEST");
      var copy := ObjOf(env, uid, request);
      var href := CopyHref(uid, a.username);
      var settled := Settled(w, a, uid);
      var o1 := if settled then w.objects else Upsert(env, w.objects, InboxOf(a.id), href, copy);
      var r1 := InsertRow(w.rows, Row(a.id, Inbox, "REQUEST", uid, organizer.username, a.username, Pending, request));
      var o2 := if settled && RequestStatus(w, a, uid).value.Accepted?
                then RefreshAcceptedCopy(env, o1, a, uid, ics) else o1;
      var o3 := Upsert(env, o2, OutboxOf(organizer.id), href, copy);
      var r2 := InsertRow(r1, Row(organizer.id, Outbox, "REQUEST", uid, organizer.username, a.username, Processed, request));
      World(o3, r2)
  }

  function DeliverCopies(env: Env, w: World, organizer: User, uid: string, ics: Ics, atts: seq<User>): World {
    if atts == [] then w
    else DeliverOne(env, DeliverCopies(env, w, organizer, uid, ics, atts[..|atts| - 1]), organizer, uid, ics, atts[|atts| - 1])
  }

  // ----- CANCEL -----

  /** Delete the UID from every calendar the user owns, inbox and outbox aside. */
  function DeleteFromOwned(t: Objects, list: seq<Listed>, uid: string): Objects {
    if list == [] then t
    else
      var before, c := DeleteFromOwned(t, list[..|list| - 1], uid), list[|list| - 1];
      if c.shared || c.kind.InboxKind? || c.kind.OutboxKind? then before else DeleteUid(before, c.id, uid)
  }

  function CancelOne(env: Env, w: World, organizer: User, uid: string, ics: Ics, a: User): World {
    if a.id == organizer.id || !a.active then w else
      var cancel := WithMethod(ics, "CANCEL");
      var copy := ObjOf(env, uid, cancel);
      var href := CopyHref(uid, a.username);
      var o1 := Upsert(env, w.objects, InboxOf(a.id), href, copy);
      var r1 := InsertRow(w.rows, Row(a.id, Inbox, "CANCEL", uid, organizer.username, a.username, Cancelled, cancel));
      var r2 := ClosePending(r1, a.id, uid);
      var o2 := DeleteFromOwned(o1, Calendars(env, a.id), uid);
      var o3 := Upsert(env, o2, OutboxOf(organizer.id), href, copy);
      var r3 := InsertRow(r2, Row(organizer.id, Outbox, "CANCEL", uid, organizer.username, a.username, Processed, cancel));
      World(o3, r3)
  }

  function DeliverCancel(env: Env, w: World, organizer: User, uid: string, ics: Ics, atts: seq<User>): World {
    if atts == [] then w
    else CancelOne(env, DeliverCancel(env, w, organizer, uid, ics, atts[..|atts| - 1]), organizer, uid, ics, atts[|atts| - 1])
  }

  // ----- PUT and DELETE by the organizer -----

  /** SameUser: one of the user's identities, in any case. */
  predicate SameUser(u: User, ident: string) {
    var key := ToLower(AddrOf(ident));
    key != "" && exists i :: 0 <= i < |u.identities| && ToLower(u.identities[i]) == key
  }

  predicate Schedules(organizer: User, kind: CalKind, ics: Ics) {
    && (kind.Personal? || kind.SharedKind?)
    && (AddrOf(OrganizerValue(ics)) == "" || SameUser(organizer, AddrOf(OrganizerValue(ics))))
  }

  /** The previous attendees who are not current. */
  function Removed(prev: seq<User>, cur: seq<User>): seq<User> {
    if prev == [] then []
    else
      var before, u := Removed(prev[..|prev| - 1], cur), prev[|prev| - 1];
      if HasUser(cur, u.id) then before else before + [u]
  }

  function DropRemoved(env: Env, w: World, organizer: User, uid: string, ics: Ics, prevIcs: Option<Ics>): World {
    match prevIcs
    case None => w
    case Some(prev) =>
      var gone := Removed(LocalAttendees(env, organizer, prev), LocalAttendees(env, organizer, ics));
      DeliverCancel(env, w, organizer, uid, ics, gone)
  }

  function DeliverFromPut(env: Env, w: World, organizer: User, kind: CalKind, uid: string, ics: Ics, prevIcs: Option<Ics>): World {
    if !Schedules(organizer, kind, ics) then w
    else DeliverCopies(env, DropRemoved(env, w, organizer, uid, ics, prevIcs), organizer, uid, ics,
                       LocalAttendees(env, organizer, ics))
  }

  function CancelFromDelete(env: Env, w: World, organizer: User, kind: CalKind, uid: string, ics: Ics): World {
    if !Schedules(organizer, kind, ics) then w
    else DeliverCancel(env, w, organizer, uid, ics, LocalAttendees(env, organizer, ics))
  }

  // ----- REPLY -----

  function OwnedHolding(env: Env, t: Objects, user: UserId, uid: string): set<int> {
    if user in env.owned then set id | id in env.owned[user] && Holders(t, id, uid) != {} else {}
  }

  /** MergeReply: the attendees of the reply are merged into the organizer's own object. */
  ghost function MergeReply(env: Env, t: Objects, organizer: User, reply: Ics): Objects
    requires Faithful(env)
  {
    var uid := CalendarUID(reply);
    var cals := OwnedHolding(env, t, organizer.id, uid);
    if uid == "" || Attendees(reply) == [] || cals == {} then t
    else
      var col := env.pickCal(cals);
      var href := env.pickHref(Holders(t, col, uid));
      var obj := At(t, col)[href];
      var updated := WithAttendees(obj.ics, MergeLines(Attendees(obj.ics), Attendees(reply)));
      if updated == obj.ics then t else Upsert(env, t, col, href, ObjOf(env, obj.uid, updated))
  }

  function ReplyHref(uid: string, username: string): string {
    uid + "-reply-" + username + ".ics"
  }

  function PartstatOf(status: Status): string
    requires IsSettled(status)
  {
    if status.Accepted? then "ACCEPTED" else "DECLINED"
  }

  /** The attendee's answer, without METHOD, as it is kept and sent. */
  function Answer(attendee: User, item: Row, status: Status): Ics
    requires IsSettled(status)
  {
    SetPartstat(StripMethod(item.ics), attendee.identities, PartstatOf(status))
  }

  ghost function WriteReply(env: Env, w: World, organizer: User, attendee: User, item: Row, status: Status, answer: Ics): World
    requires Faithful(env)
  {
    var reply := WithMethod(answer, "REPLY");
    var o1 := Upsert(env, w.objects, InboxOf(organizer.id), ReplyHref(item.uid, attendee.username), ObjOf(env, item.uid, reply));
    var r1 := InsertRow(w.rows, Row(organizer.id, Inbox, "REPLY", item.uid, organizer.username, attendee.username, status, reply));
    World(MergeReply(env, o1, organizer, reply), r1)
  }

  /** The user answers the pending item: the shared tail of Accept and Decline. */
  ghost function Answered(env: Env, w: World, organizer: User, attendee: User, id: nat, item: Row, status: Status): World
    requires Faithful(env) && IsSettled(status)
  {
    var w1 := WriteReply(env, w, organizer, attendee, item, status, Answer(attendee, item, status));
    World(DeleteUid(w1.objects, InboxOf(attendee.id), item.uid), SetStatus(w1.rows, attendee.id, id, status))
  }

  /** The calendar an accepted event goes to: the one asked for, or the first writable own personal one. */
  function AcceptCalendar(list: seq<Listed>, calendarId: int): Option<int> {
    if list == [] then None
    else
      match AcceptCalendar(list[..|list| - 1], calendarId)
      case Some(id) => Some(id)
      case None =>
        var c := list[|list| - 1];
        if calendarId != 0 then (if c.id == calendarId && c.CanWrite() then Some(c.id) else None)
        else if c.kind.Personal? && !c.shared && c.CanWrite() then Some(c.id)
        else None
  }

  /** Accept; None is an error, after which the transaction leaves everything as it was. */
  ghost function Accept(env: Env, w: World, attendee: User, id: nat, item: Row, calendarId: int): Option<World>
    requires Faithful(env)
  {
    match (AcceptCalendar(Calendars(env, attendee.id), calendarId), FindUser(env, item.organizer))
    case (Some(col), Some(organizer)) =>
      var copy := ObjOf(env, item.uid, Answer(attendee, item, Accepted));
      var o1 := Upsert(env, w.objects, col, item.uid + ".ics", copy);
      Some(Answered(env, World(o1, w.rows), organizer, attendee, id, item, Accepted))
    case _ => None
  }

  ghost function Decline(env: Env, w: World, attendee: User, id: nat, item: Row): Option<World>
    requires Faithful(env)
  {
    match FindUser(env, item.organizer)
    case Some(organizer) => Some(Answered(env, w, organizer, attendee, id, item, Declined))
    case None => None
  }

  // ----- the outbox -----

  function Verb(ics: Ics): string {
    match ics.itipMethod
    case None => ""
    case Some(m) => ToUpper(Trim(m))
  }

  predicate AsksFreeBusy(ics: Ics) {
    exists i :: 0 <= i < |ics.comps| && ToUpper(ics.comps[i].name) == "VFREEBUSY"
  }

  /** Dispatch on the METHOD of a posted calendar; a free-busy request changes nothing. */
  ghost function HandleOutboxPost(env: Env, w: World, user: User, ics: Ics): World
    requires Faithful(env)
  {
    var uid := CalendarUID(ics);
    if AsksFreeBusy(ics) then w
    else if Verb(ics) == "CANCEL" then
      DeliverCancel(env, w, user, uid, ics, LocalAttendees(env, user, ics))
    else if Verb(ics) == "REPLY" then
      match FindUser(env, OrganizerValue(ics))
      case None => w
      case Some(organizer) => World(MergeReply(env, w.objects, organizer, ics), w.rows)
    else
      DeliverCopies(env, w, user, uid, StripMethod(ics), LocalAttendees(env, user, ics))
  }
}

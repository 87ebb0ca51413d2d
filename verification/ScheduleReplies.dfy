/**
  What the answer to an invitation says, everywhere it goes: an acceptance is an acceptance in the
  stored copy, in the reply, in the organizer's event and in the row, and so is a refusal.  And which
  calendars an answer or a delivery may write to.
 */
module ScheduleReplies {
  import opened Itip
  import opened Strings
  import opened Schedule
  import opened ScheduleRuns
  import opened ScheduleDelivery
  import opened ScheduleEffects
  import opened ScheduleAnswers
  import opened ScheduleLines
  import opened Wrappers

  // ----- what the lines say -----

  /** The line is for one of the user's addresses. */
  ghost predicate IsOwnLine(user: User, line: Attendee) {
    exists m :: 0 <= m < |user.identities| && Key(user.identities[m]) == Key(line.value) != ""
  }

  /** Every line for the user says so. */
  ghost predicate AllSay(lines: seq<Attendee>, user: User, word: string) {
    forall i | 0 <= i < |lines| :: IsOwnLine(user, lines[i]) ==> lines[i].partstat == word
  }

  /** The lines of the invitation, but those for the user say so. */
  ghost predicate IsAnswerTo(lines: seq<Attendee>, invitation: seq<Attendee>, user: User, word: string) {
    && |lines| == |invitation|
    && forall i | 0 <= i < |lines| ::
         lines[i] == if IsOwnLine(user, invitation[i]) then invitation[i].(partstat := word) else invitation[i]
  }

  lemma OwnKeys(user: User, line: Attendee)
    ensures Key(line.value) in KeysOf(user.identities) <==> IsOwnLine(user, line)
  {
    hide Key;
    if IsOwnLine(user, line) {
      var m :| 0 <= m < |user.identities| && Key(user.identities[m]) == Key(line.value) != "";
      assert user.identities[m] in user.identities;
    }
    if Key(line.value) in KeysOf(user.identities) {
      var e :| e in user.identities && Key(e) != "" && Key(e) == Key(line.value);
      var m :| 0 <= m < |user.identities| && user.identities[m] == e;
    }
  }

  lemma SetLinesAnswer(invitation: seq<Attendee>, user: User, word: string)
    ensures IsAnswerTo(SetLines(invitation, KeysOf(user.identities), word), invitation, user, word)
  {
    forall i | 0 <= i < |invitation|
      ensures Key(invitation[i].value) in KeysOf(user.identities) <==> IsOwnLine(user, invitation[i])
    {
      OwnKeys(user, invitation[i]);
    }
    hide Key, KeysOf;
  }

  lemma AnswersSay(lines: seq<Attendee>, invitation: seq<Attendee>, user: User, word: string)
    requires IsAnswerTo(lines, invitation, user, word)
    ensures AllSay(lines, user, word)
  {
    hide Key;
  }

  // ----- an answer, wherever it goes -----

  function Word(accepted: bool): string {
    if accepted then "ACCEPTED" else "DECLINED"
  }

  lemma AnswerIs(attendee: User, item: Row, accepted: bool)
    ensures var answer := Answer(attendee, item, if accepted then Accepted else Declined);
            && answer.itipMethod == None && CalendarUID(answer) == CalendarUID(item.ics)
            && IsAnswerTo(Attendees(answer), Attendees(item.ics), attendee, Word(accepted))
  {
    var clean := StripMethod(item.ics);
    EventStaysFirst(clean, SetLines(Attendees(clean), KeysOf(attendee.identities), Word(accepted)));
    SetLinesAnswer(Attendees(item.ics), attendee, Word(accepted));
    assert Attendees(clean) == Attendees(item.ics);
    hide SetLines, KeysOf, IsOwnLine;
    assert FirstEvent(clean) == FirstEvent(item.ics);
  }

  /** An object in the organizer's inbox that answers the invitation. */
  ghost predicate ReplyAt(t: Objects, organizer: User, uid: string, invitation: seq<Attendee>, attendee: User, word: string, h: string) {
    && h in At(t, InboxOf(organizer.id)) && At(t, InboxOf(organizer.id))[h].uid == uid
    && At(t, InboxOf(organizer.id))[h].ics.itipMethod == Some("REPLY")
    && IsAnswerTo(Attendees(At(t, InboxOf(organizer.id))[h].ics), invitation, attendee, word)
  }

  /** The reply lies under the UID and the attendee's name. */
  ghost predicate HasReply(t: Objects, organizer: User, uid: string, invitation: seq<Attendee>, attendee: User, word: string) {
    ReplyAt(t, organizer, uid, invitation, attendee, word, uid + "-reply-" + attendee.username + ".ics")
  }

  /** In the organizer's event every line for the attendee that the invitation has says the word. */
  ghost predicate EventSays(copy: Ics, invitation: seq<Attendee>, attendee: User, word: string) {
    forall i | 0 <= i < |Attendees(copy)| :: IsOwnLine(attendee, Attendees(copy)[i]) && Occurs(invitation, Key(Attendees(copy)[i].value)) ==>
      Attendees(copy)[i].partstat == word
  }

  lemma AnswerIsSent(env: Env, w: World, organizer: User, attendee: User, id: nat, accepted: bool)
    requires Faithful(env) && attendee.id != organizer.id && id < |w.rows| && w.rows[id].user == attendee.id
    ensures var item := w.rows[id];
            var after := Answered(env, w, organizer, attendee, id, item, if accepted then Accepted else Declined);
            && id < |after.rows| && after.rows[id].status == (if accepted then Accepted else Declined)
            && HasReply(after.objects, organizer, item.uid, Attendees(item.ics), attendee, Word(accepted))
  {
    var status := if accepted then Accepted else Declined;
    var item := w.rows[id];
    AnswerLeaves(env, w, organizer, attendee, id, status);
    AnswerIs(attendee, item, accepted);
    hide Answered, Answer, IsAnswerTo, Faithful, FindRow, Key;
    var reply := WithMethod(Answer(attendee, item, status), "REPLY");
    assert FirstEvent(reply) == FirstEvent(Answer(attendee, item, status));
    assert ReplyAt(Answered(env, w, organizer, attendee, id, item, status).objects, organizer, item.uid,
                   Attendees(item.ics), attendee, Word(accepted), ReplyHref(item.uid, attendee.username));
  }

  /** One of the organizer's own calendars has the event there. */
  ghost predicate IsKeptAt(env: Env, t: Objects, organizer: User, uid: string, c: Listed, h: string) {
    c in Calendars(env, organizer.id) && IsOwn(c) && h in At(t, c.id) && At(t, c.id)[h].uid == uid
  }

  /** The organizer's event is found exactly if a calendar of the organizer's own has one with the UID, and is one of these. */
  lemma CopyIsFound(env: Env, t: Objects, organizer: User, uid: string)
    requires Faithful(env)
    ensures var copy := OrganizersCopy(env, t, organizer, uid);
            && (copy.Some? <==> exists c, h :: IsKeptAt(env, t, organizer, uid, c, h))
            && (copy.Some? ==> exists c, h :: IsKeptAt(env, t, organizer, uid, c, h) && copy.value == At(t, c.id)[h].ics)
  {
    var cals := OwnedHolding(env, t, organizer.id, uid);
    if cals != {} {
      var col := env.pickCal(cals);
      assert InOwned(env, organizer.id, col);
      var c :| c in Calendars(env, organizer.id) && IsOwn(c) && c.id == col;
      var h := env.pickHref(Holders(t, col, uid));
      assert IsKeptAt(env, t, organizer, uid, c, h);
    }
    if c, h :| IsKeptAt(env, t, organizer, uid, c, h) {
      assert InOwned(env, organizer.id, c.id);
      assert h in Holders(t, c.id, uid);
      assert c.id in cals;
    }
  }

  lemma NoCopyNoMerge(env: Env, w: World, organizer: User, attendee: User, id: nat, item: Row, status: Status)
    requires Faithful(env) && IsSettled(status) && CalendarUID(item.ics) != ""
    requires OrganizersCopy(env, w.objects, organizer, CalendarUID(item.ics)).None?
    ensures OrganizersCopy(env, Answered(env, w, organizer, attendee, id, item, status).objects, organizer, CalendarUID(item.ics)).None?
  {
    var uid := CalendarUID(item.ics);
    var reply := WithMethod(Answer(attendee, item, status), "REPLY");
    AnswerLines(attendee, item, status);
    hide Answer, Faithful, InsertRow, SetStatus, Attendees, WithAttendees, MergeLines, CalendarUID;
    var o1 := Upsert(env, w.objects, InboxOf(organizer.id), ReplyHref(item.uid, attendee.username), ObjOf(env, item.uid, reply));
    BoxesDoNotMatter(env, w.objects, o1, organizer, uid);
    assert MergeReply(env, o1, organizer, reply) == o1;
    BoxesDoNotMatter(env, o1, DeleteUid(o1, InboxOf(attendee.id), item.uid), organizer, uid);
  }

  /** The organizer's event, if there is one, says what the attendee answered. */
  lemma AnswerIsMerged(env: Env, w: World, organizer: User, attendee: User, id: nat, item: Row, accepted: bool)
    requires Faithful(env) && CalendarUID(item.ics) != "" && Attendees(item.ics) != []
    ensures var uid := CalendarUID(item.ics);
            var before := OrganizersCopy(env, w.objects, organizer, uid);
            var after := OrganizersCopy(env, Answered(env, w, organizer, attendee, id, item, if accepted then Accepted else Declined).objects,
                                        organizer, uid);
            && (before.Some? <==> after.Some?)
            && (after.Some? ==> EventSays(after.value, Attendees(item.ics), attendee, Word(accepted)))
  {
    var status := if accepted then Accepted else Declined;
    var uid := CalendarUID(item.ics);
    if OrganizersCopy(env, w.objects, organizer, uid).None? {
      NoCopyNoMerge(env, w, organizer, attendee, id, item, status);
    } else {
      AnswerReachesOrganizer(env, w, organizer, attendee, id, item, status);
      var lines := Attendees(OrganizersCopy(env, w.objects, organizer, uid).value);
      var copy := OrganizersCopy(env, Answered(env, w, organizer, attendee, id, item, status).objects, organizer, uid).value;
      hide Answered, OrganizersCopy, Attendees, CalendarUID, Faithful;
      LinesSay(lines, Attendees(copy), Attendees(item.ics), attendee, accepted);
    }
  }

  lemma LinesSay(lines: seq<Attendee>, after: seq<Attendee>, invitation: seq<Attendee>, attendee: User, accepted: bool)
    requires |after| == |lines|
    requires forall i :: 0 <= i < |lines| ==>
               after[i] == AnsweredLine(lines[i], attendee, invitation, if accepted then Accepted else Declined)
    ensures forall i | 0 <= i < |after| :: IsOwnLine(attendee, after[i]) && Occurs(invitation, Key(after[i].value)) ==>
              after[i].partstat == Word(accepted)
  {
    hide Occurs, Key, KeysOf;
    forall i | 0 <= i < |after| && IsOwnLine(attendee, after[i]) && Occurs(invitation, Key(after[i].value))
      ensures after[i].partstat == Word(accepted)
    {
      OwnKeys(attendee, lines[i]);
    }
  }

  /**
    A refusal: the row is declined, the reply says DECLINED, and so does the organizer's event for
    every line of the attendee's that was invited.
   */
  lemma DeclineSays(env: Env, w: World, attendee: User, id: nat)
    requires Faithful(env) && id < |w.rows| && w.rows[id].user == attendee.id
    requires CalendarUID(w.rows[id].ics) != "" && Attendees(w.rows[id].ics) != []
    requires FindUser(env, w.rows[id].organizer).Some? && FindUser(env, w.rows[id].organizer).value.id != attendee.id
    ensures var (item, organizer) := (w.rows[id], FindUser(env, w.rows[id].organizer).value);
            var after := Decline(env, w, attendee, id, item);
            && after.Some? && id < |after.value.rows| && after.value.rows[id].status == Declined
            && HasReply(after.value.objects, organizer, item.uid, Attendees(item.ics), attendee, "DECLINED")
            && var uid := CalendarUID(item.ics);
               var copy := OrganizersCopy(env, after.value.objects, organizer, uid);
               && (copy.Some? <==> OrganizersCopy(env, w.objects, organizer, uid).Some?)
               && (copy.Some? ==> EventSays(copy.value, Attendees(item.ics), attendee, "DECLINED"))
  {
    hide Answered, OrganizersCopy, HasReply, EventSays, Faithful, CalendarUID, Attendees, FindUser;
    var organizer := FindUser(env, w.rows[id].organizer).value;
    AnswerIsSent(env, w, organizer, attendee, id, false);
    AnswerIsMerged(env, w, organizer, attendee, id, w.rows[id], false);
  }

  // ----- where an accepted event goes -----

  /** The user may write to it: not read-only, no scheduling box, not generated, and if shared then for writing. */
  ghost predicate MayWrite(c: Listed) {
    && !c.readOnly && (c.kind.Personal? || c.kind.SharedKind?)
    && (c.shared ==> c.writeAccess)
  }

  /** The calendar is the one asked for, or else a personal one of the user's own. */
  ghost predicate MayTake(c: Listed, calendarId: int) {
    MayWrite(c) && if calendarId != 0 then c.id == calendarId else c.kind.Personal? && !c.shared
  }

  /** The first calendar that may take the event takes it. */
  lemma {:induction false} FirstThatMayTake(list: seq<Listed>, calendarId: int)
    ensures match AcceptCalendar(list, calendarId)
            case None => forall i | 0 <= i < |list| :: !MayTake(list[i], calendarId)
            case Some(col) => exists i | 0 <= i < |list| :: list[i].id == col && MayTake(list[i], calendarId)
                                && forall j | 0 <= j < i :: !MayTake(list[j], calendarId)
  {
    if list != [] {
      var k := |list| - 1;
      FirstThatMayTake(list[..k], calendarId);
      hide MayTake;
      if AcceptCalendar(list[..k], calendarId).Some? {
        var i :| 0 <= i < k && list[..k][i].id == AcceptCalendar(list[..k], calendarId).value && MayTake(list[..k][i], calendarId)
              && forall j | 0 <= j < i :: !MayTake(list[..k][j], calendarId);
        assert list[i] == list[..k][i] && forall j | 0 <= j < i :: list[j] == list[..k][j];
      } else {
        TakesLast(list, calendarId);
        assert forall j | 0 <= j < k :: list[j] == list[..k][j];
      }
    }
  }

  lemma TakesLast(list: seq<Listed>, calendarId: int)
    requires list != [] && AcceptCalendar(list[..|list| - 1], calendarId).None?
    ensures AcceptCalendar(list, calendarId) ==
            if MayTake(list[|list| - 1], calendarId) then Some(list[|list| - 1].id) else None
  {
  }

  /** An acceptance succeeds exactly when the organizer is known and some calendar may take the event. */
  lemma AcceptSucceedsIff(env: Env, w: World, attendee: User, id: nat, item: Row, calendarId: int)
    requires Faithful(env)
    ensures Accept(env, w, attendee, id, item, calendarId).Some? <==>
              FindUser(env, item.organizer).Some? && exists c :: c in Calendars(env, attendee.id) && MayTake(c, calendarId)
  {
    hide MayTake, FindUser, Answered, Faithful;
    var list := Calendars(env, attendee.id);
    FirstThatMayTake(list, calendarId);
    if c :| c in list && MayTake(c, calendarId) {
      var i :| 0 <= i < |list| && list[i] == c;
    }
  }

  /** The object says that the attendee has accepted, and carries no METHOD. */
  ghost predicate IsAcceptance(obj: Obj, uid: string, attendee: User) {
    obj.uid == uid && obj.ics.itipMethod == None && AllSay(Attendees(obj.ics), attendee, "ACCEPTED")
  }

  lemma MergedAnswer(attendee: User, item: Row)
    ensures var answer := Answer(attendee, item, Accepted);
            var reply := WithMethod(answer, "REPLY");
            && answer.itipMethod == None && AllSay(Attendees(answer), attendee, "ACCEPTED")
            && Merged(answer, reply).itipMethod == None && AllSay(Attendees(Merged(answer, reply)), attendee, "ACCEPTED")
  {
    var answer := Answer(attendee, item, Accepted);
    var reply := WithMethod(answer, "REPLY");
    AnswerIs(attendee, item, true);
    var lines := Attendees(answer);
    AnswersSay(lines, Attendees(item.ics), attendee, "ACCEPTED");
    EventStaysFirst(answer, MergeLines(lines, lines));
    assert FirstEvent(reply) == FirstEvent(answer) && Attendees(reply) == lines;
    hide Answer, Key, IsAnswerTo, FirstEvent, WithAttendees;
    forall i | 0 <= i < |lines| && IsOwnLine(attendee, lines[i])
      ensures MergeLines(lines, lines)[i].partstat == "ACCEPTED"
    {
      MergedLine(lines, lines, i);
      LastSays(lines, attendee, "ACCEPTED", lines[i]);
    }
    forall i | 0 <= i < |lines| ensures MergeLines(lines, lines)[i].value == lines[i].value {
      MergedLine(lines, lines, i);
    }
  }

  /** Where all lines for the user say a word, so does the last one for an address. */
  lemma {:induction false} LastSays(lines: seq<Attendee>, user: User, word: string, line: Attendee)
    requires AllSay(lines, user, word) && IsOwnLine(user, line)
    ensures LastPartstat(lines, Key(line.value)).Some? ==> LastPartstat(lines, Key(line.value)).value == word
  {
    hide Key;
    if lines != [] {
      LastSays(lines[..|lines| - 1], user, word, line);
    }
  }

  lemma StoredAcceptance(env: Env, w: World, attendee: User, id: nat, item: Row, calendarId: int)
    requires Faithful(env) && Accept(env, w, attendee, id, item, calendarId).Some?
    ensures var col := AcceptCalendar(Calendars(env, attendee.id), calendarId).value;
            var t := Accept(env, w, attendee, id, item, calendarId).value.objects;
            var h := item.uid + ".ics";
            h in At(t, col) && IsAcceptance(At(t, col)[h], item.uid, attendee)
  {
    AcceptedEventIsThere(env, w, attendee, id, item, calendarId);
    MergedAnswer(attendee, item);
    hide Accept, AcceptCalendar, Answer, MergesInto, Merged, WithMethod, Upsert, Faithful, FindUser, Attendees, AllSay, InOwned;
  }

  lemma OtherCalendarsStay(env: Env, w: World, organizer: User, uid: string, col: int, href: string, obj: Obj)
    requires Faithful(env) && !InOwned(env, organizer.id, col)
    ensures OrganizersCopy(env, Upsert(env, w.objects, col, href, obj), organizer, uid) == OrganizersCopy(env, w.objects, organizer, uid)
  {
    var a, b := w.objects, Upsert(env, w.objects, col, href, obj);
    forall c | InOwned(env, organizer.id, c) ensures Holders(a, c, uid) == Holders(b, c, uid) {
      assert At(a, c) == At(b, c);
    }
    assert OwnedHolding(env, a, organizer.id, uid) == OwnedHolding(env, b, organizer.id, uid);
    var cals := OwnedHolding(env, a, organizer.id, uid);
    if cals != {} {
      assert InOwned(env, organizer.id, env.pickCal(cals));
      assert At(a, env.pickCal(cals)) == At(b, env.pickCal(cals));
    }
  }

  /**
    An acceptance: the row is accepted, the stored copy and the reply say ACCEPTED, and so does the
    organizer's event for every line of the attendee's that was invited.
   */
  lemma AcceptSays(env: Env, w: World, attendee: User, id: nat, calendarId: int)
    requires Faithful(env) && id < |w.rows| && w.rows[id].user == attendee.id
    requires CalendarUID(w.rows[id].ics) != "" && Attendees(w.rows[id].ics) != []
    requires FindUser(env, w.rows[id].organizer).Some? && FindUser(env, w.rows[id].organizer).value.id != attendee.id
    requires Accept(env, w, attendee, id, w.rows[id], calendarId).Some?
    ensures var (item, organizer) := (w.rows[id], FindUser(env, w.rows[id].organizer).value);
            var after := Accept(env, w, attendee, id, item, calendarId).value;
            var (col, h) := (AcceptCalendar(Calendars(env, attendee.id), calendarId).value, item.uid + ".ics");
            && id < |after.rows| && after.rows[id].status == Accepted
            && HasReply(after.objects, organizer, item.uid, Attendees(item.ics), attendee, "ACCEPTED")
            && h in At(after.objects, col) && IsAcceptance(At(after.objects, col)[h], item.uid, attendee)
            && var uid := CalendarUID(item.ics);
               var copy := OrganizersCopy(env, after.objects, organizer, uid);
               && (!InOwned(env, organizer.id, col) ==> (copy.Some? <==> OrganizersCopy(env, w.objects, organizer, uid).Some?))
               && (copy.Some? ==> EventSays(copy.value, Attendees(item.ics), attendee, "ACCEPTED"))
  {
    var item, organizer := w.rows[id], FindUser(env, w.rows[id].organizer).value;
    var col := AcceptCalendar(Calendars(env, attendee.id), calendarId).value;
    var copy := ObjOf(env, item.uid, Answer(attendee, item, Accepted));
    StoredAcceptance(env, w, attendee, id, item, calendarId);
    hide Answered, OrganizersCopy, HasReply, EventSays, Faithful, CalendarUID, Attendees, FindUser, Answer, Upsert, InOwned, IsAcceptance;
    var w1 := World(Upsert(env, w.objects, col, item.uid + ".ics", copy), w.rows);
    AnswerIsSent(env, w1, organizer, attendee, id, true);
    AnswerIsMerged(env, w1, organizer, attendee, id, item, true);
    if !InOwned(env, organizer.id, col) {
      OtherCalendarsStay(env, w, organizer, CalendarUID(item.ics), col, item.uid + ".ics", copy);
    }
  }

  // ----- accepted copies -----

  /** The first calendar the user may write to that has the UID is brought up to date; none if there is none. */
  lemma {:induction false} FirstThatHolds(t: Objects, list: seq<Listed>, uid: string)
    ensures match RefreshTarget(t, list, uid)
            case None => forall j | 0 <= j < |list| :: !(MayWrite(list[j]) && Holders(t, list[j].id, uid) != {})
            case Some(i) => MayWrite(list[i]) && Holders(t, list[i].id, uid) != {}
                              && forall j | 0 <= j < i :: !(MayWrite(list[j]) && Holders(t, list[j].id, uid) != {})
  {
    hide Holders;
    if list != [] {
      var k := |list| - 1;
      FirstThatHolds(t, list[..k], uid);
      assert forall j | 0 <= j < k :: list[j] == list[..k][j];
    }
  }

  /** What it is brought up to date with says that the user has accepted. */
  lemma RefreshedSays(a: User, ics: Ics)
    ensures AcceptedCopy(a, ics).itipMethod == None
    ensures IsAnswerTo(Attendees(AcceptedCopy(a, ics)), Attendees(ics), a, "ACCEPTED")
  {
    var clean := StripMethod(ics);
    EventStaysFirst(clean, SetLines(Attendees(clean), KeysOf(a.identities), "ACCEPTED"));
    SetLinesAnswer(Attendees(ics), a, "ACCEPTED");
    assert FirstEvent(clean) == FirstEvent(ics) && Attendees(clean) == Attendees(ics);
    hide SetLines, KeysOf, IsOwnLine;
  }

  /** A delivery changes an ordinary calendar only if the attendee has accepted and may write to it. */
  lemma DeliveryRespectsRights(env: Env, w: World, organizer: User, uid: string, ics: Ics, a: User, col: int)
    requires Faithful(env) && col > 0
    requires At(DeliverOne(env, w, organizer, uid, ics, a).objects, col) != At(w.objects, col)
    ensures HasAnswered(w.rows, a, uid) && exists c :: c in Calendars(env, a.id) && c.id == col && MayWrite(c)
  {
    SettledHasAnswered(w, a, uid);
    var list := Calendars(env, a.id);
    FirstThatHolds(w.objects, list, uid);
    hide HasAnswered, Holders, InsertRow, FindRow;
    var i := RefreshTarget(w.objects, list, uid);
    assert i.Some? ==> list[i.value] in list;
  }

  // ----- posted replies -----

  /** A posted REPLY is merged into the organizer's event: each line takes the last PARTSTAT the reply has for it. */
  lemma PostedReply(env: Env, w: World, user: User, ics: Ics, organizer: User)
    requires Faithful(env) && HasVerb(ics, "REPLY") && !HasFreeBusy(ics)
    requires FindUser(env, OrganizerValue(ics)) == Some(organizer)
    requires CalendarUID(ics) != "" && Attendees(ics) != []
    requires OrganizersCopy(env, w.objects, organizer, CalendarUID(ics)).Some?
    ensures var lines := Attendees(OrganizersCopy(env, w.objects, organizer, CalendarUID(ics)).value);
            var after := HandleOutboxPost(env, w, user, ics);
            var copy := OrganizersCopy(env, after.objects, organizer, CalendarUID(ics));
            && after.rows == w.rows && copy.Some? && |Attendees(copy.value)| == |lines|
            && forall i | 0 <= i < |lines| ::
                 && Attendees(copy.value)[i] == lines[i].(partstat := Attendees(copy.value)[i].partstat)
                 && Attendees(copy.value)[i].partstat ==
                      if Key(lines[i].value) != "" && LastPartstat(Attendees(ics), Key(lines[i].value)).Some?
                      then LastPartstat(Attendees(ics), Key(lines[i].value)).value else lines[i].partstat
  {
    var before := OrganizersCopy(env, w.objects, organizer, CalendarUID(ics)).value;
    var lines := Attendees(before);
    MergedIntoCopy(env, w.objects, organizer, ics);
    EventStaysFirst(before, MergeLines(lines, Attendees(ics)));
    forall i | 0 <= i < |lines| {
      MergedLine(lines, Attendees(ics), i);
    }
    hide OrganizersCopy, MergeReply, Key, LastPartstat, FindUser, CalendarUID, Faithful, MergeLines;
  }
}

/**
  Calendars as far as scheduling reads them: METHOD, the components, and the ATTENDEE lines of the
  event; with the edits that scheduling makes to them.  Encoding and parsing are each other's
  inverse here, so an ICS text is its parsed form.
 */
module Itip {
  import opened Strings
  import opened Wrappers

  /** An ATTENDEE line; `rest` has its parameters other than CN and PARTSTAT, which are "" when absent. */
  datatype Attendee = Attendee(value: string, cn: string, partstat: string, rest: map<string, string>)

  datatype Component = Component(name: string, uid: string, organizer: string, organizerCn: string,
                                 attendees: seq<Attendee>, body: int)

  datatype Ics = Ics(itipMethod: Option<string>, comps: seq<Component>)

  /** The first VEVENT, or else the first component that is not a time zone. */
  function FirstEvent(ics: Ics): (i: Option<nat>)
    ensures i.Some? ==> i.value < |ics.comps|
  {
    match FirstWhere(ics.comps, (c: Component) => c.name == "VEVENT", 0)
    case Some(i) => Some(i)
    case None => FirstWhere(ics.comps, (c: Component) => c.name != "VTIMEZONE", 0)
  }

  function FirstWhere(comps: seq<Component>, p: Component -> bool, from: nat): (i: Option<nat>)
    requires from <= |comps|
    ensures i.Some? ==> from <= i.value < |comps| && p(comps[i.value])
    ensures i.None? ==> forall k :: from <= k < |comps| ==> !p(comps[k])
    decreases |comps| - from
  {
    if from == |comps| then None
    else if p(comps[from]) then Some(from)
    else FirstWhere(comps, p, from + 1)
  }

  /** The first non-empty UID outside the time zones. */
  function CalendarUID(ics: Ics): string {
    match FirstWhere(ics.comps, (c: Component) => c.name != "VTIMEZONE" && c.uid != "", 0)
    case Some(i) => ics.comps[i].uid
    case None => ""
  }

  function Attendees(ics: Ics): seq<Attendee> {
    match FirstEvent(ics)
    case Some(i) => ics.comps[i].attendees
    case None => []
  }

  function OrganizerValue(ics: Ics): string {
    match FirstEvent(ics)
    case Some(i) => ics.comps[i].organizer
    case None => ""
  }

  function WithAttendees(ics: Ics, lines: seq<Attendee>): Ics {
    match FirstEvent(ics)
    case Some(i) => ics.(comps := ics.comps[i := ics.comps[i].(attendees := lines)])
    case None => ics
  }

  lemma EventStaysFirst(ics: Ics, lines: seq<Attendee>)
    ensures FirstEvent(WithAttendees(ics, lines)) == FirstEvent(ics)
    ensures FirstEvent(ics).Some? ==> Attendees(WithAttendees(ics, lines)) == lines
    ensures CalendarUID(WithAttendees(ics, lines)) == CalendarUID(ics)
    ensures WithAttendees(ics, lines).itipMethod == ics.itipMethod
  {
    var after := WithAttendees(ics, lines);
    SameNames(ics.comps, after.comps, (c: Component) => c.name == "VEVENT", 0);
    SameNames(ics.comps, after.comps, (c: Component) => c.name != "VTIMEZONE", 0);
    SameNames(ics.comps, after.comps, (c: Component) => c.name != "VTIMEZONE" && c.uid != "", 0);
  }

  lemma {:induction false} SameNames(a: seq<Component>, b: seq<Component>, p: Component -> bool, from: nat)
    requires |a| == |b| && from <= |a|
    requires forall k :: 0 <= k < |a| ==> p(a[k]) == p(b[k])
    ensures FirstWhere(a, p, from) == FirstWhere(b, p, from)
    decreases |a| - from
  {
    if from < |a| {
      SameNames(a, b, p, from + 1);
    }
  }

  // ----- addresses -----

  function TrimPrefix(s: string, prefix: string): string {
    if prefix <= s then s[|prefix|..] else s
  }

  function AddrOf(v: string): string {
    TrimPrefix(TrimPrefix(Trim(v), "mailto:"), "MAILTO:")
  }

  /** The case-folded address by which ATTENDEE lines are matched. */
  function Key(v: string): string {
    ToLower(AddrOf(v))
  }

  // ----- setting PARTSTAT -----

  function KeysOf(emails: seq<string>): set<string> {
    set e | e in emails && Key(e) != "" :: Key(e)
  }

  function SetLines(lines: seq<Attendee>, want: set<string>, partstat: string): (after: seq<Attendee>)
    ensures |after| == |lines|
  {
    seq(|lines|, i requires 0 <= i < |lines| =>
      if Key(lines[i].value) in want then lines[i].(partstat := partstat) else lines[i])
  }

  method CollectKeys(emails: seq<string>) returns (want: set<string>)
    ensures want == KeysOf(emails)
  {
    want := {};
    for i := 0 to |emails|
      invariant want == KeysOf(emails[..i])
    {
      var a := Key(emails[i]);
      assert emails[..i + 1] == emails[..i] + [emails[i]];
      if a != "" {
        want := want + {a};
      }
    }
    assert emails[..|emails|] == emails;
  }

  /** Every ATTENDEE line of the event is taken off and put back, with PARTSTAT set where wanted. */
  method SetAttendeePartstatAny(ics: Ics, emails: seq<string>, partstat: string) returns (after: Ics)
    ensures after == WithAttendees(ics, SetLines(Attendees(ics), KeysOf(emails), partstat))
  {
    var ev := FirstEvent(ics);
    if ev.None? {
      return ics;
    }
    var want := CollectKeys(emails);
    var props := ics.comps[ev.value].attendees;
    var lines: seq<Attendee> := [];
    for i := 0 to |props|
      invariant |lines| == i
      invariant forall k :: 0 <= k < i ==> lines[k] == SetLines(props, want, partstat)[k]
    {
      var p := props[i];
      if Key(p.value) in want {
        p := p.(partstat := partstat);
      }
      lines := lines + [p];
    }
    assert lines == SetLines(props, want, partstat);
    after := WithAttendees(ics, lines);
  }

  // ----- merging a reply -----

  /** What merging the reply's attendees does to the lines, one attendee after the other. */
  function MergeLines(lines: seq<Attendee>, reply: seq<Attendee>): (after: seq<Attendee>)
    ensures |after| == |lines|
  {
    if reply == [] then lines
    else
      var before, a := MergeLines(lines, reply[..|reply| - 1]), reply[|reply| - 1];
      if a.partstat == "" then before else SetLines(before, KeysOf([a.value]), a.partstat)
  }

  /** The last non-empty PARTSTAT the reply gives the address. */
  function LastPartstat(reply: seq<Attendee>, key: string): Option<string> {
    if reply == [] then None
    else
      var a := reply[|reply| - 1];
      if a.partstat != "" && Key(a.value) == key then Some(a.partstat)
      else LastPartstat(reply[..|reply| - 1], key)
  }

  /** The lines keep their addresses, order and number; each takes the last PARTSTAT replied for it. */
  lemma {:induction false} MergedLine(lines: seq<Attendee>, reply: seq<Attendee>, i: nat)
    requires i < |lines|
    ensures var after := MergeLines(lines, reply)[i];
            && after == lines[i].(partstat := after.partstat)
            && after.partstat ==
                 if Key(lines[i].value) != "" && LastPartstat(reply, Key(lines[i].value)).Some?
                 then LastPartstat(reply, Key(lines[i].value)).value else lines[i].partstat
  {
    if reply != [] {
      MergedLine(lines, reply[..|reply| - 1], i);
    }
  }

  method MergeAttendees(ics: Ics, atts: seq<Attendee>) returns (updated: Ics)
    ensures updated == WithAttendees(ics, MergeLines(Attendees(ics), atts))
  {
    updated := ics;
    assert atts[..0] == [];
    KeepAttendees(ics);
    for i := 0 to |atts|
      invariant updated == WithAttendees(ics, MergeLines(Attendees(ics), atts[..i]))
    {
      var part := atts[i].partstat;
      assert atts[..i + 1][..i] == atts[..i];
      if part == "" {
        continue;
      }
      ghost var before := MergeLines(Attendees(ics), atts[..i]);
      EventStaysFirst(ics, before);
      updated := SetAttendeePartstatAny(updated, [atts[i].value], part);
      WriteTwice(ics, before, SetLines(before, KeysOf([atts[i].value]), part));
    }
    assert atts[..|atts|] == atts;
  }

  lemma KeepAttendees(ics: Ics)
    ensures WithAttendees(ics, Attendees(ics)) == ics
  {
    match FirstEvent(ics)
    case Some(i) => assert ics.comps[i := ics.comps[i]] == ics.comps;
    case None =>
  }

  lemma WriteTwice(ics: Ics, first: seq<Attendee>, second: seq<Attendee>)
    ensures WithAttendees(WithAttendees(ics, first), second) == WithAttendees(ics, second)
  {
    EventStaysFirst(ics, first);
  }

  // ----- adding attendees -----

  function InviteKey(a: Attendee): string {
    Key(a.value)
  }

  predicate HasKey(entries: seq<Attendee>, key: string) {
    exists i :: 0 <= i < |entries| && InviteKey(entries[i]) == key
  }

  /** The entries whose address is not empty and not seen before, in order. */
  function FirstPerKey(entries: seq<Attendee>): seq<Attendee> {
    if entries == [] then []
    else
      var before, a := FirstPerKey(entries[..|entries| - 1]), entries[|entries| - 1];
      if InviteKey(a) == "" || HasKey(before, InviteKey(a)) then before else before + [a]
  }

  lemma HasKeySnoc(entries: seq<Attendee>, a: Attendee, key: string)
    ensures HasKey(entries + [a], key) <==> HasKey(entries, key) || InviteKey(a) == key
  {
    if HasKey(entries, key) {
      var i :| 0 <= i < |entries| && InviteKey(entries[i]) == key;
      assert InviteKey((entries + [a])[i]) == key;
    }
    if InviteKey(a) == key {
      assert InviteKey((entries + [a])[|entries|]) == key;
    }
  }

  lemma FirstPerKeySnoc(entries: seq<Attendee>, a: Attendee)
    ensures FirstPerKey(entries + [a]) ==
            if InviteKey(a) == "" || HasKey(FirstPerKey(entries), InviteKey(a)) then FirstPerKey(entries)
            else FirstPerKey(entries) + [a]
  {
    assert (entries + [a])[..|entries|] == entries;
  }

  /** The loops of MergeOrganizerAttendees: the event's own attendees first, then those to add. */
  method MergeInvitees(existing: seq<Attendee>, add: seq<Attendee>) returns (merged: seq<Attendee>)
    ensures merged == FirstPerKey(existing + add)
  {
    hide InviteKey;
    var seen: set<string> := {};
    merged := [];
    ghost var all := existing + add;
    assert all[..0] == [];
    for i := 0 to |existing| + |add|
      invariant merged == FirstPerKey(all[..i])
      invariant forall k :: k in seen <==> HasKey(merged, k)
    {
      var a := if i < |existing| then existing[i] else add[i - |existing|];
      assert all[..i + 1] == all[..i] + [a];
      FirstPerKeySnoc(all[..i], a);
      var k := InviteKey(a);
      if !(k == "" || k in seen) {
        forall key ensures HasKey(merged + [a], key) <==> key in seen + {k} {
          HasKeySnoc(merged, a, key);
        }
        seen := seen + {k};
        merged := merged + [a];
      }
    }
    assert all[..|all|] == all;
  }

  lemma KeyMissing(entries: seq<Attendee>, key: string, i: nat)
    requires !HasKey(entries, key) && i < |entries|
    ensures InviteKey(entries[i]) != key
  {
  }

  ghost predicate DistinctKeys(entries: seq<Attendee>) {
    && (forall i, j :: 0 <= i < j < |entries| ==> InviteKey(entries[i]) != InviteKey(entries[j]))
    && (forall i :: 0 <= i < |entries| ==> InviteKey(entries[i]) != "")
  }

  lemma DistinctKeysSnoc(entries: seq<Attendee>, a: Attendee)
    requires DistinctKeys(entries) && InviteKey(a) != "" && !HasKey(entries, InviteKey(a))
    ensures DistinctKeys(entries + [a])
  {
    hide InviteKey;
    forall i | 0 <= i < |entries| ensures InviteKey(entries[i]) != InviteKey(a) {
      KeyMissing(entries, InviteKey(a), i);
    }
  }

  /** Addresses are distinct and not empty. */
  lemma {:induction false} KeysAreDistinct(entries: seq<Attendee>)
    ensures DistinctKeys(FirstPerKey(entries))
  {
    if entries != [] {
      var k := |entries| - 1;
      var before, a := FirstPerKey(entries[..k]), entries[k];
      KeysAreDistinct(entries[..k]);
      if InviteKey(a) != "" && !HasKey(before, InviteKey(a)) {
        DistinctKeysSnoc(before, a);
      }
    }
  }

  /** No address is lost, and none is made up. */
  lemma {:induction false} KeysAreKept(entries: seq<Attendee>, key: string)
    requires key != ""
    ensures HasKey(FirstPerKey(entries), key) <==> HasKey(entries, key)
  {
    hide HasKey, InviteKey, FirstPerKey;
    if entries == [] {
      NoKeys(key);
    } else {
      var k := |entries| - 1;
      KeysAreKept(entries[..k], key);
      assert entries == entries[..k] + [entries[k]];
      KeptSnoc(entries[..k], entries[k], key);
    }
  }

  lemma NoKeys(key: string)
    ensures FirstPerKey([]) == [] && !HasKey([], key)
  {
  }

  lemma KeptSnoc(entries: seq<Attendee>, a: Attendee, key: string)
    requires key != "" && (HasKey(FirstPerKey(entries), key) <==> HasKey(entries, key))
    ensures HasKey(FirstPerKey(entries + [a]), key) <==> HasKey(entries + [a], key)
  {
    hide InviteKey;
    FirstPerKeySnoc(entries, a);
    HasKeySnoc(entries, a, key);
    HasKeySnoc(FirstPerKey(entries), a, key);
  }

  /** Of two entries for one address the earlier wins. */
  lemma {:induction false} EarlierWins(entries: seq<Attendee>, n: nat)
    requires n < |entries| && InviteKey(entries[n]) != ""
    requires !HasKey(entries[..n], InviteKey(entries[n]))
    ensures entries[n] in FirstPerKey(entries)
  {
    if n < |entries| - 1 {
      assert entries[..|entries| - 1][..n] == entries[..n];
      EarlierWins(entries[..|entries| - 1], n);
    } else {
      KeysAreKept(entries[..n], InviteKey(entries[n]));
    }
  }

  // ----- writing organizer and attendees -----

  function Mailto(email: string): string {
    var v := Trim(email);
    if "mailto:" <= ToLower(v) then v else "mailto:" + v
  }

  const INVITED := map["RSVP" := "TRUE", "ROLE" := "REQ-PARTICIPANT"]

  /** The line written for an attendee: nothing else of the old line is kept. */
  function InvitedLine(a: Attendee): Attendee {
    Attendee(Mailto(a.value), a.cn, if a.partstat == "" then "NEEDS-ACTION" else a.partstat, INVITED)
  }

  function InvitedLines(entries: seq<Attendee>): (lines: seq<Attendee>)
    ensures |lines| == |entries|
  {
    seq(|entries|, i requires 0 <= i < |entries| => InvitedLine(entries[i]))
  }

  function WithInvited(ics: Ics, email: string, cn: string, entries: seq<Attendee>): Ics {
    match FirstEvent(ics)
    case Some(i) =>
      ics.(comps := ics.comps[i := ics.comps[i].(organizer := Mailto(email), organizerCn := cn,
                                                 attendees := InvitedLines(entries))])
    case None => ics
  }

  method SetOrganizerAttendees(ics: Ics, email: string, cn: string, entries: seq<Attendee>) returns (after: Ics)
    ensures after == WithInvited(ics, email, cn, entries)
  {
    var ev := FirstEvent(ics);
    if ev.None? {
      return ics;
    }
    var lines: seq<Attendee> := [];
    for i := 0 to |entries|
      invariant lines == InvitedLines(entries)[..i]
    {
      var a := entries[i];
      var part := a.partstat;
      if part == "" {
        part := "NEEDS-ACTION";
      }
      lines := lines + [Attendee(Mailto(a.value), a.cn, part, INVITED)];
    }
    assert InvitedLines(entries)[..|entries|] == InvitedLines(entries);
    var event := ics.comps[ev.value].(organizer := Mailto(email), organizerCn := cn, attendees := lines);
    after := ics.(comps := ics.comps[ev.value := event]);
  }

  /** What MergeOrganizerAttendees makes of a calendar. */
  function Inviting(ics: Ics, email: string, cn: string, add: seq<Attendee>): Ics {
    WithInvited(ics, email, cn, FirstPerKey(Attendees(ics) + add))
  }

  method MergeOrganizerAttendees(ics: Ics, email: string, cn: string, add: seq<Attendee>) returns (after: Ics)
    ensures after == Inviting(ics, email, cn, add)
  {
    var merged := MergeInvitees(Attendees(ics), add);
    after := SetOrganizerAttendees(ics, email, cn, merged);
  }

  /** Writing an address keeps the key it is matched by, and writing it twice is writing it once. */
  lemma MailtoKeepsKey(v: string)
    ensures Key(Mailto(v)) == Key(v)
    ensures Mailto(Mailto(v)) == Mailto(v)
  {
    hide Trim, IsSpace;
    var t, m := Trim(v), Mailto(v);
    TrimIsTrimmed(v);
    TrimOfTrimmed(t);
    assert ToLower("mailto:") == "mailto:" == ToLower("MAILTO:");
    if !("mailto:" <= ToLower(t)) {
      assert m[0] == 'm' && m[|m| - 1] == if t == "" then ':' else t[|t| - 1];
      LettersAreNoSpace();
      TrimOfTrimmed(m);
      assert m[7..] == t;
      LowerPrefix("mailto:", t);
      LowerPrefix("MAILTO:", t);
      LowerPrefix("mailto:", m);
    }
  }

  lemma LettersAreNoSpace()
    ensures !IsSpace('m') && !IsSpace(':')
  {
  }

  lemma LowerPrefix(a: string, b: string)
    ensures a <= b ==> ToLower(a) <= ToLower(b)
  {
  }

  /** What is written stays the event, with its UID and METHOD, and reads back as the lines written. */
  lemma InvitedIsRead(ics: Ics, email: string, cn: string, entries: seq<Attendee>)
    ensures var after := WithInvited(ics, email, cn, entries);
            && FirstEvent(after) == FirstEvent(ics) && CalendarUID(after) == CalendarUID(ics) && after.itipMethod == ics.itipMethod
            && (FirstEvent(ics).Some? ==> Attendees(after) == InvitedLines(entries) && OrganizerValue(after) == Mailto(email))
  {
    var after := WithInvited(ics, email, cn, entries);
    SameNames(ics.comps, after.comps, (c: Component) => c.name == "VEVENT", 0);
    SameNames(ics.comps, after.comps, (c: Component) => c.name != "VTIMEZONE", 0);
    SameNames(ics.comps, after.comps, (c: Component) => c.name != "VTIMEZONE" && c.uid != "", 0);
  }

  lemma {:induction false} DistinctStay(lines: seq<Attendee>)
    requires DistinctKeys(lines)
    ensures FirstPerKey(lines) == lines
  {
    hide InviteKey, HasKey;
    if lines != [] {
      var k := |lines| - 1;
      DistinctStay(lines[..k]);
      KeyIsNew(lines);
      assert lines == lines[..k] + [lines[k]];
    }
  }

  lemma KeyIsNew(lines: seq<Attendee>)
    requires lines != [] && DistinctKeys(lines)
    ensures var k := |lines| - 1; InviteKey(lines[k]) != "" && !HasKey(lines[..k], InviteKey(lines[k]))
  {
    hide InviteKey;
  }

  /** Entries whose addresses are all there already add nothing. */
  lemma {:induction false} NothingToAdd(lines: seq<Attendee>, add: seq<Attendee>)
    requires DistinctKeys(lines)
    requires forall i :: 0 <= i < |add| ==> InviteKey(add[i]) == "" || HasKey(lines, InviteKey(add[i]))
    ensures FirstPerKey(lines + add) == lines
    decreases |add|
  {
    hide InviteKey, HasKey, FirstPerKey, DistinctKeys;
    if add == [] {
      DistinctStay(lines);
      assert lines + add == lines;
    } else {
      var k := |add| - 1;
      NothingToAdd(lines, add[..k]);
      assert lines + add == (lines + add[..k]) + [add[k]];
      FirstPerKeySnoc(lines + add[..k], add[k]);
    }
  }

  lemma InvitedKeys(entries: seq<Attendee>)
    requires DistinctKeys(entries)
    ensures DistinctKeys(InvitedLines(entries))
    ensures forall key :: HasKey(InvitedLines(entries), key) <==> HasKey(entries, key)
    ensures InvitedLines(InvitedLines(entries)) == InvitedLines(entries)
  {
    hide Mailto, Key;
    var lines := InvitedLines(entries);
    forall i | 0 <= i < |entries|
      ensures InviteKey(lines[i]) == InviteKey(entries[i]) && InvitedLine(lines[i]) == lines[i]
    {
      MailtoKeepsKey(entries[i].value);
    }
    hide InviteKey;
    forall key ensures HasKey(lines, key) <==> HasKey(entries, key) {
      if HasKey(lines, key) {
        var i :| 0 <= i < |lines| && InviteKey(lines[i]) == key;
        assert InviteKey(entries[i]) == key;
      }
      if HasKey(entries, key) {
        var i :| 0 <= i < |entries| && InviteKey(entries[i]) == key;
        assert InviteKey(lines[i]) == key;
      }
    }
  }

  /** Inviting the same attendees again changes nothing. */
  lemma InviteTwice(ics: Ics, email: string, cn: string, add: seq<Attendee>)
    ensures Inviting(Inviting(ics, email, cn, add), email, cn, add) == Inviting(ics, email, cn, add)
  {
    hide InviteKey, FirstPerKey, InvitedLine;
    if FirstEvent(ics).Some? {
      var all := Attendees(ics) + add;
      var merged := FirstPerKey(all);
      var lines := InvitedLines(merged);
      var once := Inviting(ics, email, cn, add);
      InvitedIsRead(ics, email, cn, merged);
      KeysAreDistinct(all);
      InvitedKeys(merged);
      forall i | 0 <= i < |add| && InviteKey(add[i]) != "" ensures HasKey(lines, InviteKey(add[i])) {
        assert all[|Attendees(ics)| + i] == add[i];
        KeysAreKept(all, InviteKey(add[i]));
      }
      NothingToAdd(lines, add);
    }
  }
}

/**
  Recurring events in a time range: the filter that says whether any occurrence overlaps it, and the
  expansion into the occurrences that do (RFC 4791 sections 9.6.5 and 9.9).  Times are in seconds.
 */
module Expand {
  import opened Wrappers

  const HOUR := 3600
  const DAY := 24 * HOUR
  const YEAR := 366 * DAY
  const FILTER_CAP := 500
  const EXPAND_CAP := 400

  /** DTEND: not there, there but not a time, or a time. */
  datatype End = NoEnd | BadEnd | EndAt(time: int)

  /** A property as it was given, or a time written by the expansion, as a date or with the time of day. */
  datatype Prop = Given(text: string) | Stamp(time: int, asDate: bool)

  /** The properties of a component, by name. */
  type Props = map<string, seq<Prop>>

  /**
    An event: DTSTART as a time, whether its text has eight characters, and has after trimming; DTEND;
    the recurrence set if it has one; all its properties, and what stands for its nested components.
   */
  datatype Event = Event(dtstart: Option<int>, eightChars: bool, eightTrimmed: bool, dtend: End, rule: Option<int -> bool>,
                         props: Props, nested: int)

  /** A time range, open at an end that is missing. */
  datatype Range = Range(start: Option<int>, end: Option<int>)

  /** rangeOverlap */
  predicate Overlaps(r: Range, from: int, to: int) {
    (r.end.Some? ==> from < r.end.value) && (r.start.Some? ==> to > r.start.value)
  }

  /** set.Between(from, to, true): the occurrences from the first to the last time, both included, in order. */
  function Between(occurs: int -> bool, from: int, to: int): seq<int>
    decreases if from <= to then to - from + 1 else 0
  {
    if from > to then [] else Between(occurs, from, to - 1) + if occurs(to) then [to] else []
  }

  ghost predicate Ascending(s: seq<int>) {
    forall i, j :: 0 <= i < j < |s| ==> s[i] < s[j]
  }

  lemma {:induction false} BetweenIs(occurs: int -> bool, from: int, to: int)
    ensures forall t :: t in Between(occurs, from, to) <==> occurs(t) && from <= t <= to
    ensures Ascending(Between(occurs, from, to))
    decreases if from <= to then to - from + 1 else 0
  {
    if from <= to {
      BetweenIs(occurs, from, to - 1);
      var front := Between(occurs, from, to - 1);
      forall i | 0 <= i < |front| ensures front[i] < to {
        assert front[i] in front;
      }
    }
  }

  // ----- durations and windows -----

  predicate EndsAfterStart(ev: Event) {
    ev.dtstart.Some? && ev.dtend.EndAt? && ev.dtend.time > ev.dtstart.value
  }

  /** The duration that componentOverlaps takes. */
  function FilterDuration(ev: Event): (d: int)
    ensures d > 0
  {
    if EndsAfterStart(ev) then ev.dtend.time - ev.dtstart.value
    else if ev.dtend.NoEnd? && ev.eightChars then DAY
    else HOUR
  }

  /** The duration that expandEvent takes. */
  function ExpandDuration(ev: Event): (d: int)
    ensures d > 0
  {
    if EndsAfterStart(ev) then ev.dtend.time - ev.dtstart.value
    else if ev.eightTrimmed then DAY
    else HOUR
  }

  /** The durations differ just for a date without a usable DTEND that only one of the two takes for a whole day. */
  lemma DurationsAgree(ev: Event)
    ensures FilterDuration(ev) == ExpandDuration(ev) <==>
              EndsAfterStart(ev) || (ev.eightTrimmed <==> ev.dtend.NoEnd? && ev.eightChars)
  {
  }

  function From(dtstart: int, r: Range, duration: int): int {
    if r.start.None? then dtstart
    else if r.start.value - duration < dtstart then dtstart - 1
    else r.start.value - duration
  }

  function To(from: int, r: Range, horizon: int): int {
    var to := if r.end.Some? then r.end.value else from + horizon;
    if to - from > 3 * YEAR then from + 3 * YEAR else to
  }

  function Cap(s: seq<int>, n: nat): (t: seq<int>)
    ensures t <= s && |t| <= n
  {
    if |s| > n then s[..n] else s
  }

  /** The occurrences that are looked at. */
  function Candidates(dtstart: int, occurs: int -> bool, r: Range, duration: int, horizon: int, cap: nat): seq<int> {
    var from := From(dtstart, r, duration);
    Cap(Between(occurs, from, To(from, r, horizon)), cap)
  }

  // ----- the filter -----

  /** timesOverlap, for an event that does not recur. */
  predicate SimpleOverlap(ev: Event, r: Range) {
    ev.dtstart.Some? ==>
      Overlaps(r, ev.dtstart.value,
               if ev.dtend.EndAt? then ev.dtend.time else ev.dtstart.value + if ev.eightChars then DAY else HOUR)
  }

  predicate SomeOverlap(occ: seq<int>, r: Range, d: int) {
    exists i :: 0 <= i < |occ| && Overlaps(r, occ[i], occ[i] + d)
  }

  predicate ComponentOverlaps(ev: Event, r: Range) {
    if ev.rule.None? then SimpleOverlap(ev, r)
    else if ev.dtstart.None? then true
    else
      var d := FilterDuration(ev);
      SomeOverlap(Candidates(ev.dtstart.value, ev.rule.value, r, d, 2 * YEAR, FILTER_CAP), r, d)
  }

  method CheckOverlap(ev: Event, r: Range) returns (yes: bool)
    ensures yes <==> ComponentOverlaps(ev, r)
  {
    hide Between, Overlaps, SomeOverlap;
    if ev.rule.None? {
      return SimpleOverlap(ev, r);
    }
    if ev.dtstart.None? {
      return true;
    }
    var dtstart := ev.dtstart.value;
    var dur := HOUR;
    if ev.dtend != NoEnd {
      if ev.dtend.EndAt? && ev.dtend.time > dtstart {
        dur := ev.dtend.time - dtstart;
      }
    } else if ev.eightChars {
      dur := DAY;
    }
    var from := dtstart;
    if r.start.Some? {
      from := r.start.value - dur;
      if from < dtstart {
        from := dtstart - 1;
      }
    }
    var to := if r.end.Some? then r.end.value else from + 2 * YEAR;
    if to - from > 3 * YEAR {
      to := from + 3 * YEAR;
    }
    var occ := Between(ev.rule.value, from, to);
    if |occ| > FILTER_CAP {
      occ := occ[..FILTER_CAP];
    }
    assert occ == Candidates(dtstart, ev.rule.value, r, dur, 2 * YEAR, FILTER_CAP);
    yes := AnyOverlap(occ, r, dur);
  }

  method AnyOverlap(occ: seq<int>, r: Range, dur: int) returns (yes: bool)
    ensures yes <==> SomeOverlap(occ, r, dur)
  {
    for i := 0 to |occ|
      invariant forall k :: 0 <= k < i ==> !Overlaps(r, occ[k], occ[k] + dur)
    {
      if Overlaps(r, occ[i], occ[i] + dur) {
        return true;
      }
    }
    return false;
  }

  // ----- the expansion -----

  /** The event at one occurrence. */
  datatype Instance = Instance(start: int, end: int, props: Props, nested: int)

  /** instanceOf: without the recurrence, with the times of the occurrence and a DTSTAMP. */
  function InstanceOf(ev: Event, o: int, d: int, now: int): Instance {
    var kept := ev.props - {"RRULE", "RDATE", "EXDATE"};
    var stamp := [Stamp(o, ev.eightTrimmed)];
    var dated := kept["DTSTART" := stamp]["DTEND" := [Stamp(o + d, ev.eightTrimmed)]]["RECURRENCE-ID" := stamp];
    var stamped := if "DTSTAMP" in dated && dated["DTSTAMP"] != [] then dated else dated["DTSTAMP" := [Stamp(now, false)]];
    Instance(o, o + d, stamped, ev.nested)
  }

  const REPLACED := {"RRULE", "RDATE", "EXDATE", "DTSTART", "DTEND", "RECURRENCE-ID", "DTSTAMP"}

  /** An instance does not recur, has the times of its occurrence, and is otherwise the event. */
  lemma InstanceIsTheEvent(ev: Event, o: int, d: int, now: int, name: string)
    ensures var x := InstanceOf(ev, o, d, now); x.start == o && x.end == o + d && x.nested == ev.nested
    ensures var props := InstanceOf(ev, o, d, now).props;
            && "RRULE" !in props && "RDATE" !in props && "EXDATE" !in props
            && {"DTSTART", "DTEND", "RECURRENCE-ID", "DTSTAMP"} <= props.Keys
            && props["DTSTART"] == props["RECURRENCE-ID"] == [Stamp(o, ev.eightTrimmed)]
            && props["DTEND"] == [Stamp(o + d, ev.eightTrimmed)]
            && props["DTSTAMP"] == (if "DTSTAMP" in ev.props && ev.props["DTSTAMP"] != [] then ev.props["DTSTAMP"]
                                    else [Stamp(now, false)])
            && (name !in REPLACED ==> (name in props <==> name in ev.props) && (name in props ==> props[name] == ev.props[name]))
  {
    NamesDiffer();
  }

  lemma NamesDiffer()
    ensures "DTSTART" != "DTEND" && |"RECURRENCE-ID"| == 13 && "DTSTAMP" != "DTSTART"
  {
    assert "DTSTART"[2] != "DTEND"[2];
    assert "DTSTAMP"[5] != "DTSTART"[5];
  }

  function Instances(ev: Event, occ: seq<int>, r: Range, d: int, now: int): seq<Instance> {
    if occ == [] then []
    else
      var o := occ[|occ| - 1];
      Instances(ev, occ[..|occ| - 1], r, d, now) + if Overlaps(r, o, o + d) then [InstanceOf(ev, o, d, now)] else []
  }

  function ExpandEvent(ev: Event, r: Range, now: int): seq<Instance> {
    if ev.rule.None? || ev.dtstart.None? then []
    else
      var d := ExpandDuration(ev);
      Instances(ev, Candidates(ev.dtstart.value, ev.rule.value, r, d, YEAR, EXPAND_CAP), r, d, now)
  }

  method ComputeInstances(ev: Event, r: Range, now: int) returns (out: seq<Instance>)
    ensures out == ExpandEvent(ev, r, now)
  {
    hide Between, Overlaps, Instances;
    if ev.rule.None? || ev.dtstart.None? {
      return [];
    }
    var dtstart := ev.dtstart.value;
    var dur := HOUR;
    if ev.eightTrimmed {
      dur := DAY;
    }
    if ev.dtend.EndAt? && ev.dtend.time > dtstart {
      dur := ev.dtend.time - dtstart;
    }
    var from := dtstart;
    if r.start.Some? {
      from := r.start.value - dur;
      if from < dtstart {
        from := dtstart - 1;
      }
    }
    var to := if r.end.Some? then r.end.value else from + YEAR;
    if to - from > 3 * YEAR {
      to := from + 3 * YEAR;
    }
    var occ := Between(ev.rule.value, from, to);
    if |occ| > EXPAND_CAP {
      occ := occ[..EXPAND_CAP];
    }
    assert occ == Candidates(dtstart, ev.rule.value, r, dur, YEAR, EXPAND_CAP);
    out := OverlappingInstances(ev, occ, r, dur, now);
  }

  method OverlappingInstances(ev: Event, occ: seq<int>, r: Range, dur: int, now: int) returns (out: seq<Instance>)
    ensures out == Instances(ev, occ, r, dur, now)
  {
    out := [];
    assert occ[..0] == [];
    for i := 0 to |occ|
      invariant out == Instances(ev, occ[..i], r, dur, now)
    {
      assert occ[..i + 1][..i] == occ[..i];
      var o := occ[i];
      if !Overlaps(r, o, o + dur) {
        continue;
      }
      out := out + [InstanceOf(ev, o, dur, now)];
    }
    assert occ[..|occ|] == occ;
  }

  ghost predicate IsInstance(ev: Event, occ: seq<int>, r: Range, d: int, now: int, x: Instance) {
    exists o :: o in occ && Overlaps(r, o, o + d) && x == InstanceOf(ev, o, d, now)
  }

  lemma IsInstanceSnoc(ev: Event, occ: seq<int>, o: int, r: Range, d: int, now: int, x: Instance)
    ensures IsInstance(ev, occ + [o], r, d, now, x) <==>
              IsInstance(ev, occ, r, d, now, x) || (Overlaps(r, o, o + d) && x == InstanceOf(ev, o, d, now))
  {
    hide Overlaps, InstanceOf;
    assert forall p :: p in occ + [o] <==> p in occ || p == o;
  }

  /** The instances are those of the overlapping candidates, each once and in order. */
  lemma {:induction false} InstancesAre(ev: Event, occ: seq<int>, r: Range, d: int, now: int)
    requires Ascending(occ)
    ensures var out := Instances(ev, occ, r, d, now);
            && (forall x :: x in out <==> IsInstance(ev, occ, r, d, now, x))
            && (forall x :: x in out ==> x.start in occ)
            && (forall i, j :: 0 <= i < j < |out| ==> out[i].start < out[j].start)
  {
    hide Overlaps, IsInstance;
    if occ != [] {
      var front, o := occ[..|occ| - 1], occ[|occ| - 1];
      InstancesAre(ev, front, r, d, now);
      assert occ == front + [o];
      var before, out := Instances(ev, front, r, d, now), Instances(ev, occ, r, d, now);
      forall x ensures x in out <==> IsInstance(ev, occ, r, d, now, x) {
        IsInstanceSnoc(ev, front, o, r, d, now, x);
      }
      forall i | 0 <= i < |before| ensures before[i].start < o {
        assert before[i] in before;
        var k :| 0 <= k < |front| && front[k] == before[i].start;
        assert occ[k] == front[k];
      }
    } else {
      forall x ensures !IsInstance(ev, [], r, d, now, x) {
        NoInstance(ev, r, d, now, x);
      }
    }
  }

  lemma NoInstance(ev: Event, r: Range, d: int, now: int, x: Instance)
    ensures !IsInstance(ev, [], r, d, now, x)
  {
  }

  /** What a recurring event is expanded into: an instance for each overlapping occurrence looked at, in order. */
  lemma ExpansionIs(ev: Event, r: Range, now: int)
    requires ev.rule.Some? && ev.dtstart.Some?
    ensures var d := ExpandDuration(ev);
            var out := ExpandEvent(ev, r, now);
            && (forall x :: x in out <==>
                  IsInstance(ev, Candidates(ev.dtstart.value, ev.rule.value, r, d, YEAR, EXPAND_CAP), r, d, now, x))
            && (forall i, j :: 0 <= i < j < |out| ==> out[i].start < out[j].start)
  {
    hide IsInstance, Instances, Between;
    var d := ExpandDuration(ev);
    var from := From(ev.dtstart.value, r, d);
    BetweenIs(ev.rule.value, from, To(from, r, YEAR));
    var candidates := Candidates(ev.dtstart.value, ev.rule.value, r, d, YEAR, EXPAND_CAP);
    assert Ascending(candidates);
    InstancesAre(ev, candidates, r, d, now);
  }

  // ----- what the window and the caps lose -----

  /** Occurrences are not before DTSTART. */
  ghost predicate Regular(ev: Event) {
    ev.dtstart.Some? && ev.rule.Some? && forall t :: ev.rule.value(t) ==> t >= ev.dtstart.value
  }

  /** An overlapping occurrence is in the window exactly if it is not after the window's end. */
  lemma WindowIsComplete(ev: Event, r: Range, d: int, horizon: int, o: int)
    requires Regular(ev) && d > 0 && ev.rule.value(o) && Overlaps(r, o, o + d)
    ensures var from := From(ev.dtstart.value, r, d);
            var to := To(from, r, horizon);
            o in Between(ev.rule.value, from, to) <==> o <= to
  {
    var from := From(ev.dtstart.value, r, d);
    BetweenIs(ev.rule.value, from, To(from, r, horizon));
  }

  /** All but the first and the last occurrence of the window overlap. */
  lemma InnerOverlap(ev: Event, r: Range, d: int, horizon: int, i: nat)
    requires Regular(ev) && d > 0
    ensures var from := From(ev.dtstart.value, r, d);
            var s := Between(ev.rule.value, from, To(from, r, horizon));
            0 < i < |s| - 1 ==> Overlaps(r, s[i], s[i] + d)
  {
    var from := From(ev.dtstart.value, r, d);
    var to := To(from, r, horizon);
    var s := Between(ev.rule.value, from, to);
    BetweenIs(ev.rule.value, from, to);
    if 0 < i < |s| - 1 {
      assert s[0] in s && s[|s| - 1] in s && s[i] in s;
      assert from <= s[0] < s[i] < s[|s| - 1] <= to;
    }
  }

  /** The cap never hides the last overlapping occurrence: if one in the window overlaps, one before the cap does. */
  lemma CapIsHarmless(ev: Event, r: Range, d: int, horizon: int, cap: nat)
    requires Regular(ev) && d > 0 && cap >= 3
    ensures var from := From(ev.dtstart.value, r, d);
            var s := Between(ev.rule.value, from, To(from, r, horizon));
            SomeOverlap(Cap(s, cap), r, d) <==> SomeOverlap(s, r, d)
  {
    var from := From(ev.dtstart.value, r, d);
    var s := Between(ev.rule.value, from, To(from, r, horizon));
    if |s| > cap {
      InnerOverlap(ev, r, d, horizon, 1);
      assert s[..cap][1] == s[1];
    }
    if i :| 0 <= i < |Cap(s, cap)| && Overlaps(r, Cap(s, cap)[i], Cap(s, cap)[i] + d) {
      assert Overlaps(r, s[i], s[i] + d);
    }
  }

  /** An occurrence overlaps the range and is not later than the given time. */
  ghost predicate OccursBy(ev: Event, r: Range, d: int, last: int)
    requires ev.rule.Some?
  {
    exists o :: ev.rule.value(o) && Overlaps(r, o, o + d) && o <= last
  }

  lemma WindowFinds(ev: Event, r: Range, d: int, horizon: int)
    requires Regular(ev) && d > 0
    ensures var from := From(ev.dtstart.value, r, d);
            var to := To(from, r, horizon);
            SomeOverlap(Between(ev.rule.value, from, to), r, d) <==> OccursBy(ev, r, d, to)
  {
    var from := From(ev.dtstart.value, r, d);
    var to := To(from, r, horizon);
    var s := Between(ev.rule.value, from, to);
    BetweenIs(ev.rule.value, from, to);
    if i :| 0 <= i < |s| && Overlaps(r, s[i], s[i] + d) {
      assert s[i] in s;
    }
    if o :| ev.rule.value(o) && Overlaps(r, o, o + d) && o <= to {
      WindowIsComplete(ev, r, d, horizon, o);
      var i :| 0 <= i < |s| && s[i] == o;
    }
  }

  lemma {:induction false} InstancesExist(ev: Event, occ: seq<int>, r: Range, d: int, now: int)
    ensures Instances(ev, occ, r, d, now) != [] <==> SomeOverlap(occ, r, d)
  {
    if occ != [] {
      var k := |occ| - 1;
      InstancesExist(ev, occ[..k], r, d, now);
      if i :| 0 <= i < |occ| && Overlaps(r, occ[i], occ[i] + d) {
        assert i < k ==> occ[..k][i] == occ[i];
      }
      if i :| 0 <= i < k && Overlaps(r, occ[..k][i], occ[..k][i] + d) {
        assert Overlaps(r, occ[i], occ[i] + d);
      }
    }
  }

  /** The filter says yes exactly when an occurrence within its window overlaps, whatever its cap. */
  lemma FilterFinds(ev: Event, r: Range)
    requires Regular(ev)
    ensures var d := FilterDuration(ev);
            ComponentOverlaps(ev, r) <==> OccursBy(ev, r, d, To(From(ev.dtstart.value, r, d), r, 2 * YEAR))
  {
    var d := FilterDuration(ev);
    CapIsHarmless(ev, r, d, 2 * YEAR, FILTER_CAP);
    WindowFinds(ev, r, d, 2 * YEAR);
  }

  /** The expansion is not empty exactly when an occurrence within its window overlaps, whatever its cap. */
  lemma ExpansionFinds(ev: Event, r: Range, now: int)
    requires Regular(ev)
    ensures var d := ExpandDuration(ev);
            ExpandEvent(ev, r, now) != [] <==> OccursBy(ev, r, d, To(From(ev.dtstart.value, r, d), r, YEAR))
  {
    var d := ExpandDuration(ev);
    CapIsHarmless(ev, r, d, YEAR, EXPAND_CAP);
    WindowFinds(ev, r, d, YEAR);
    InstancesExist(ev, Candidates(ev.dtstart.value, ev.rule.value, r, d, YEAR, EXPAND_CAP), r, d, now);
  }

  /** For a range with an end, filter and expansion agree if they take the same duration. */
  lemma FilterAndExpansionAgree(ev: Event, r: Range, now: int)
    requires Regular(ev) && r.end.Some? && FilterDuration(ev) == ExpandDuration(ev)
    ensures ComponentOverlaps(ev, r) <==> ExpandEvent(ev, r, now) != []
  {
    FilterFinds(ev, r);
    ExpansionFinds(ev, r, now);
  }

  /** Within three years the filter says what RFC 4791 asks: whether any occurrence at all overlaps. */
  lemma FilterIsRight(ev: Event, r: Range)
    requires Regular(ev) && r.end.Some?
    requires r.end.value - From(ev.dtstart.value, r, FilterDuration(ev)) <= 3 * YEAR
    ensures ComponentOverlaps(ev, r) <==>
              exists o :: ev.rule.value(o) && Overlaps(r, o, o + FilterDuration(ev))
  {
    FilterFinds(ev, r);
    if o :| ev.rule.value(o) && Overlaps(r, o, o + FilterDuration(ev)) {
      assert o <= r.end.value;
    }
  }

  // ----- where they differ -----

  ghost predicate AgreeOn(ev: Event, r: Range, now: int) {
    ComponentOverlaps(ev, r) <==> ExpandEvent(ev, r, now) != []
  }

  /**
    Without an end the expansion looks one year ahead and the filter two: with equal durations they
    agree exactly when an occurrence overlaps within the first year or none does within two.
   */
  lemma OpenEndAgreesIff(ev: Event, r: Range, now: int)
    requires Regular(ev) && r.end.None? && FilterDuration(ev) == ExpandDuration(ev)
    ensures var d := FilterDuration(ev);
            var from := From(ev.dtstart.value, r, d);
            AgreeOn(ev, r, now) <==> OccursBy(ev, r, d, from + YEAR) || !OccursBy(ev, r, d, from + 2 * YEAR)
  {
    FilterFinds(ev, r);
    ExpansionFinds(ev, r, now);
    hide ComponentOverlaps, ExpandEvent, FilterDuration, ExpandDuration, From;
    var d := FilterDuration(ev);
    var from := From(ev.dtstart.value, r, d);
    LaterFindsMore(ev, r, d, from + YEAR, from + 2 * YEAR);
  }

  lemma LaterFindsMore(ev: Event, r: Range, d: int, last: int, later: int)
    requires ev.rule.Some? && last <= later
    ensures OccursBy(ev, r, d, last) ==> OccursBy(ev, r, d, later)
  {
    if o :| ev.rule.value(o) && Overlaps(r, o, o + d) && o <= last {
      assert ev.rule.value(o) && Overlaps(r, o, o + d) && o <= later;
    }
  }

  /** The event with another recurrence set. */
  function WithRule(ev: Event, rule: int -> bool): Event {
    ev.(rule := Some(rule))
  }

  /** Filter and expansion agree whenever the event occurs. */
  ghost predicate AgreeForEveryRule(ev: Event, r: Range, now: int) {
    forall rule: int -> bool :: Regular(WithRule(ev, rule)) ==> AgreeOn(WithRule(ev, rule), r, now)
  }

  /** The earliest time from DTSTART on at which a day reaches into the range. */
  function FirstDayIn(dtstart: int, start: int): int {
    if dtstart > start - DAY + 1 then dtstart else start - DAY + 1
  }

  /** There is a time from DTSTART on at which a day reaches into the range and an hour does not. */
  predicate DayButNoHour(dtstart: int, r: Range)
    requires r.end.Some?
  {
    && r.start.Some?
    && FirstDayIn(dtstart, r.start.value) <= r.start.value - HOUR
    && FirstDayIn(dtstart, r.start.value) < r.end.value
  }

  /**
    In a range with an end they agree however the event recurs exactly when they take the same
    duration, or no time from DTSTART on is an hour or more, but less than a day, before the range.  If
    the range starts before it ends, this says that DTSTART is less than an hour before it, or later.
   */
  lemma AgreeForEveryRuleIff(ev: Event, r: Range, now: int)
    requires ev.dtstart.Some? && r.end.Some?
    ensures AgreeForEveryRule(ev, r, now) <==>
              FilterDuration(ev) == ExpandDuration(ev) || !DayButNoHour(ev.dtstart.value, r)
    ensures r.start.None? || r.start.value < r.end.value ==>
              (DayButNoHour(ev.dtstart.value, r) <==> r.start.Some? && r.start.value - HOUR >= ev.dtstart.value)
  {
    hide ComponentOverlaps, ExpandEvent;
    if FilterDuration(ev) == ExpandDuration(ev) || !DayButNoHour(ev.dtstart.value, r) {
      forall rule: int -> bool | Regular(WithRule(ev, rule)) ensures AgreeOn(WithRule(ev, rule), r, now) {
        AgreeUnlessDayOnly(WithRule(ev, rule), r, now);
      }
    } else {
      var o := FirstDayIn(ev.dtstart.value, r.start.value);
      var once := (t: int) => t == o;
      OnceDiffers(WithRule(ev, once), r, o, now);
      assert Regular(WithRule(ev, once)) && !AgreeOn(WithRule(ev, once), r, now);
    }
  }

  lemma AgreeUnlessDayOnly(ev: Event, r: Range, now: int)
    requires Regular(ev) && r.end.Some?
    requires FilterDuration(ev) == ExpandDuration(ev) || !DayButNoHour(ev.dtstart.value, r)
    ensures AgreeOn(ev, r, now)
  {
    hide ComponentOverlaps, ExpandEvent;
    FilterFinds(ev, r);
    ExpansionFinds(ev, r, now);
    if FilterDuration(ev) != ExpandDuration(ev) {
      SameTimes(ev, r, FilterDuration(ev), ExpandDuration(ev));
      SameTimes(ev, r, ExpandDuration(ev), FilterDuration(ev));
    }
  }

  /** Then an occurrence that overlaps for one of the durations does for the other, in its window too. */
  lemma SameTimes(ev: Event, r: Range, d: int, e: int)
    requires Regular(ev) && r.end.Some? && !DayButNoHour(ev.dtstart.value, r)
    requires d in {HOUR, DAY} && e in {HOUR, DAY}
    ensures OccursBy(ev, r, d, To(From(ev.dtstart.value, r, d), r, 2 * YEAR)) ==>
              OccursBy(ev, r, e, To(From(ev.dtstart.value, r, e), r, YEAR))
    ensures OccursBy(ev, r, d, To(From(ev.dtstart.value, r, d), r, YEAR)) ==>
              OccursBy(ev, r, e, To(From(ev.dtstart.value, r, e), r, 2 * YEAR))
  {
  }

  /** An event that occurs just then: for a day it overlaps, for an hour it does not. */
  lemma OnceDiffers(ev: Event, r: Range, o: int, now: int)
    requires Regular(ev) && r.end.Some? && DayButNoHour(ev.dtstart.value, r)
    requires FilterDuration(ev) != ExpandDuration(ev)
    requires o == FirstDayIn(ev.dtstart.value, r.start.value) && forall t :: ev.rule.value(t) <==> t == o
    ensures !AgreeOn(ev, r, now)
  {
    hide ComponentOverlaps, ExpandEvent;
    FilterFinds(ev, r);
    ExpansionFinds(ev, r, now);
    assert Overlaps(r, o, o + DAY) && !Overlaps(r, o, o + HOUR);
    assert ev.rule.value(o);
  }

  /** Without an end the expansion looks one year ahead and the filter two. */
  lemma OpenEndDiffers(now: int)
    ensures var ev := Event(Some(0), false, false, NoEnd, Some((t: int) => t == 0 || t == 500 * DAY), map[], 0);
            var r := Range(Some(100 * DAY), None);
            && Regular(ev) && FilterDuration(ev) == ExpandDuration(ev)
            && ComponentOverlaps(ev, r) && ExpandEvent(ev, r, now) == []
  {
    var ev := Event(Some(0), false, false, NoEnd, Some((t: int) => t == 0 || t == 500 * DAY), map[], 0);
    var r := Range(Some(100 * DAY), None);
    FilterFinds(ev, r);
    ExpansionFinds(ev, r, now);
    assert ev.rule.value(500 * DAY) && Overlaps(r, 500 * DAY, 500 * DAY + HOUR);
  }

  /** A date whose DTEND is not after it lasts an hour for the filter and a day for the expansion. */
  lemma EmptyDateDiffers(now: int)
    ensures var ev := Event(Some(0), true, true, EndAt(0), Some((t: int) => t == 0), map[], 0);
            var r := Range(Some(2 * HOUR), Some(3 * HOUR));
            Regular(ev) && !ComponentOverlaps(ev, r) && ExpandEvent(ev, r, now) != []
  {
    var ev := Event(Some(0), true, true, EndAt(0), Some((t: int) => t == 0), map[], 0);
    var r := Range(Some(2 * HOUR), Some(3 * HOUR));
    FilterFinds(ev, r);
    ExpansionFinds(ev, r, now);
    assert ev.rule.value(0) && Overlaps(r, 0, DAY);
  }

  // ----- the whole calendar -----

  datatype Child = EventChild(event: Event) | OtherChild(id: int) | InstanceChild(of: Instance)

  datatype Calendar = Calendar(name: string, props: Props, children: seq<Child>)

  function Expanded(children: seq<Child>, r: Range, now: int): seq<Child> {
    if children == [] then []
    else Expanded(children[..|children| - 1], r, now) + ExpandedChild(children[|children| - 1], r, now)
  }

  function InstanceChildren(inst: seq<Instance>): (children: seq<Child>)
    ensures |children| == |inst|
  {
    seq(|inst|, i requires 0 <= i < |inst| => InstanceChild(inst[i]))
  }

  /** An event gives its instances; without any it stays as it is if it overlaps. */
  function ExpandedChild(c: Child, r: Range, now: int): seq<Child> {
    if !c.EventChild? then [c]
    else
      var inst := ExpandEvent(c.event, r, now);
      if inst != [] then InstanceChildren(inst)
      else if ComponentOverlaps(c.event, r) then [c]
      else []
  }

  method ExpandCalendar(cal: Calendar, r: Range, now: int) returns (out: Calendar)
    ensures out == if r.start.None? && r.end.None? then cal else Calendar(cal.name, cal.props, Expanded(cal.children, r, now))
  {
    if r.start.None? && r.end.None? {
      return cal;
    }
    var children := cal.children;
    var expanded := [];
    assert children[..0] == [];
    for i := 0 to |children|
      invariant expanded == Expanded(children[..i], r, now)
    {
      assert children[..i + 1][..i] == children[..i];
      var child := children[i];
      if !child.EventChild? {
        expanded := expanded + [child];
        continue;
      }
      var inst := ComputeInstances(child.event, r, now);
      if |inst| == 0 {
        var yes := CheckOverlap(child.event, r);
        if yes {
          expanded := expanded + [child];
        }
        continue;
      }
      expanded := expanded + InstanceChildren(inst);
    }
    assert children[..|children|] == children;
    out := Calendar(cal.name, cal.props, expanded);
  }

  /** In a range with an end no recurring event is left unexpanded. */
  lemma {:induction false} NothingIsLeftUnexpanded(children: seq<Child>, r: Range, now: int, i: nat)
    requires r.end.Some? && i < |Expanded(children, r, now)| && Expanded(children, r, now)[i].EventChild?
    requires forall k :: 0 <= k < |children| && children[k].EventChild? && children[k].event.rule.Some? ==>
               Regular(children[k].event) && FilterDuration(children[k].event) == ExpandDuration(children[k].event)
    ensures Expanded(children, r, now)[i].event.rule.None?
  {
    var front, last := children[..|children| - 1], children[|children| - 1];
    if i < |Expanded(front, r, now)| {
      NothingIsLeftUnexpanded(front, r, now, i);
    } else if last.EventChild? && last.event.rule.Some? {
      FilterAndExpansionAgree(last.event, r, now);
    }
  }
}

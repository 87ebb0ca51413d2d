/**
  What is in an expanded calendar, for each kind of child, told by instants: an event is shown if it
  shares an instant with the time range.
 */
module ExpandMeaning {
  import opened Expand
  import opened Wrappers

  ghost predicate InRange(r: Range, t: int) {
    (r.start.Some? ==> r.start.value <= t) && (r.end.Some? ==> t < r.end.value)
  }

  /** Some instant from the first on and before the second is in the range. */
  ghost predicate SharesInstant(r: Range, from: int, to: int) {
    exists t :: from <= t < to && InRange(r, t)
  }

  ghost predicate IsProper(r: Range) {
    r.start.Some? && r.end.Some? ==> r.start.value < r.end.value
  }

  lemma OverlapIsShared(r: Range, from: int, to: int)
    requires from < to && IsProper(r)
    ensures Overlaps(r, from, to) <==> SharesInstant(r, from, to)
  {
    var t := if r.start.Some? && r.start.value > from then r.start.value else from;
    if Overlaps(r, from, to) {
      assert InRange(r, t);
    }
  }

  // ----- children -----

  /** The children of the result are what the children give, in order. */
  lemma {:induction false} ExpandedConcat(a: seq<Child>, b: seq<Child>, r: Range, now: int)
    ensures Expanded(a + b, r, now) == Expanded(a, r, now) + Expanded(b, r, now)
    decreases |b|
  {
    hide ExpandedChild;
    if b == [] {
      assert a + b == a;
    } else {
      var k := |b| - 1;
      ExpandedConcat(a, b[..k], r, now);
      assert (a + b)[..|a + b| - 1] == a + b[..k];
    }
  }

  lemma {:induction false} ComesFromChild(children: seq<Child>, r: Range, now: int, x: Child)
    ensures x in Expanded(children, r, now) <==>
              exists i :: 0 <= i < |children| && x in ExpandedChild(children[i], r, now)
  {
    hide ExpandedChild;
    if children != [] {
      var k := |children| - 1;
      ComesFromChild(children[..k], r, now, x);
      if i :| 0 <= i < |children| && x in ExpandedChild(children[i], r, now) {
        assert i < k ==> children[..k][i] == children[i];
      }
      if i :| 0 <= i < k && x in ExpandedChild(children[..k][i], r, now) {
        assert children[..k][i] == children[i];
      }
    }
  }

  /** Components other than events stay. */
  lemma OthersStay(children: seq<Child>, r: Range, now: int, x: Child)
    requires !x.EventChild? && !x.InstanceChild?
    ensures x in Expanded(children, r, now) <==> x in children
  {
    ComesFromChild(children, r, now, x);
    hide ExpandEvent, ComponentOverlaps;
    if x in children {
      var i :| 0 <= i < |children| && children[i] == x;
      assert x in ExpandedChild(children[i], r, now);
    }
  }

  /** The end of a single event: DTEND if it is a time, or else a day or an hour after the start. */
  ghost predicate Ends(ev: Event, end: int)
    requires ev.dtstart.Some?
  {
    end == if ev.dtend.EndAt? then ev.dtend.time
           else if ev.eightChars then ev.dtstart.value + 24 * 60 * 60 else ev.dtstart.value + 60 * 60
  }

  /** An event that does not recur stays exactly if it shares an instant with the range. */
  lemma SingleEventStays(children: seq<Child>, r: Range, now: int, ev: Event, end: int)
    requires EventChild(ev) in children && ev.rule.None? && IsProper(r)
    requires ev.dtstart.Some? && Ends(ev, end) && ev.dtstart.value < end
    ensures EventChild(ev) in Expanded(children, r, now) <==> SharesInstant(r, ev.dtstart.value, end)
  {
    OverlapIsShared(r, ev.dtstart.value, end);
    ComesFromChild(children, r, now, EventChild(ev));
    hide Overlaps, SharesInstant;
    if SharesInstant(r, ev.dtstart.value, end) {
      var i :| 0 <= i < |children| && children[i] == EventChild(ev);
      assert EventChild(ev) in ExpandedChild(children[i], r, now);
    }
    hide ExpandEvent, InstanceChildren;
  }

  /** One without a usable DTSTART stays in any case. */
  lemma UndatedEventStays(children: seq<Child>, r: Range, now: int, ev: Event)
    requires EventChild(ev) in children && ev.dtstart.None?
    ensures EventChild(ev) in Expanded(children, r, now)
  {
    ComesFromChild(children, r, now, EventChild(ev));
    var i :| 0 <= i < |children| && children[i] == EventChild(ev);
    assert EventChild(ev) in ExpandedChild(children[i], r, now);
  }

  // ----- instances -----

  /** How long an occurrence lasts: as the event does, or else a day for a date and an hour for a time. */
  ghost predicate Lasts(ev: Event, d: int)
    requires ev.dtstart.Some?
  {
    d == if ev.dtend.EndAt? && ev.dtend.time > ev.dtstart.value then ev.dtend.time - ev.dtstart.value
         else if ev.eightTrimmed then 24 * 60 * 60 else 60 * 60
  }

  /** An occurrence that shares an instant with the range, and its instance. */
  ghost predicate IsShown(ev: Event, r: Range, d: int, now: int, x: Instance, o: int)
    requires ev.rule.Some?
  {
    ev.rule.value(o) && SharesInstant(r, o, o + d) && x == InstanceOf(ev, o, d, now)
  }

  lemma NothingIsCut(ev: Event, r: Range, d: int)
    requires ev.dtstart.Some? && ev.rule.Some? && Lasts(ev, d) && r.end.Some?
    requires var from := From(ev.dtstart.value, r, d);
             r.end.value - from <= 3 * YEAR && |Between(ev.rule.value, from, r.end.value)| <= 400
    ensures d == ExpandDuration(ev)
    ensures Candidates(ev.dtstart.value, ev.rule.value, r, d, YEAR, EXPAND_CAP) ==
            Between(ev.rule.value, From(ev.dtstart.value, r, d), r.end.value)
  {
    hide Between, From;
  }

  lemma SeenIffOverlapping(ev: Event, r: Range, d: int, o: int)
    requires Regular(ev) && d > 0 && r.end.Some?
    requires r.end.value - From(ev.dtstart.value, r, d) <= 3 * YEAR
    ensures var occ := Between(ev.rule.value, From(ev.dtstart.value, r, d), r.end.value);
            o in occ && Overlaps(r, o, o + d) <==> ev.rule.value(o) && Overlaps(r, o, o + d)
  {
    BetweenIs(ev.rule.value, From(ev.dtstart.value, r, d), r.end.value);
  }

  /**
    A recurring event is shown as exactly the occurrences that share an instant with the range, if
    the range, with the duration before it, is within three years and has at most 400 of them.
   */
  lemma ExpansionIsComplete(ev: Event, r: Range, d: int, now: int, x: Instance)
    requires Regular(ev) && Lasts(ev, d) && r.end.Some? && IsProper(r)
    requires var from := From(ev.dtstart.value, r, d);
             r.end.value - from <= 3 * YEAR && |Between(ev.rule.value, from, r.end.value)| <= 400
    ensures x in ExpandEvent(ev, r, now) <==> exists o :: IsShown(ev, r, d, now, x, o)
  {
    hide Between, InstanceOf, ExpandEvent, SharesInstant, Overlaps, From, Candidates, ExpandDuration, IsProper;
    ExpansionIs(ev, r, now);
    NothingIsCut(ev, r, d);
    var occ := Between(ev.rule.value, From(ev.dtstart.value, r, d), r.end.value);
    if IsInstance(ev, occ, r, d, now, x) {
      var o :| o in occ && Overlaps(r, o, o + d) && x == InstanceOf(ev, o, d, now);
      SeenIffOverlapping(ev, r, d, o);
      OverlapIsShared(r, o, o + d);
      assert IsShown(ev, r, d, now, x, o);
    }
    if o :| IsShown(ev, r, d, now, x, o) {
      OverlapIsShared(r, o, o + d);
      SeenIffOverlapping(ev, r, d, o);
      assert o in occ && Overlaps(r, o, o + d);
    }
  }

  /** The instances in the expanded calendar are those of its recurring events. */
  lemma InstancesAreShown(children: seq<Child>, r: Range, now: int, x: Instance)
    requires forall i | 0 <= i < |children| :: !children[i].InstanceChild?
    ensures InstanceChild(x) in Expanded(children, r, now) <==>
              exists i :: 0 <= i < |children| && children[i].EventChild? && x in ExpandEvent(children[i].event, r, now)
  {
    ComesFromChild(children, r, now, InstanceChild(x));
    hide ExpandEvent, ComponentOverlaps;
    if i :| 0 <= i < |children| && InstanceChild(x) in ExpandedChild(children[i], r, now) {
      var inst := ExpandEvent(children[i].event, r, now);
      var j :| 0 <= j < |inst| && InstanceChildren(inst)[j] == InstanceChild(x);
      assert x in inst;
    }
    if i :| 0 <= i < |children| && children[i].EventChild? && x in ExpandEvent(children[i].event, r, now) {
      var inst := ExpandEvent(children[i].event, r, now);
      var j :| 0 <= j < |inst| && inst[j] == x;
      assert InstanceChildren(inst)[j] == InstanceChild(x);
      assert InstanceChild(x) in ExpandedChild(children[i], r, now);
    }
  }

  /** An event that has instances gives way to them. */
  lemma ExpandedEventGoes(children: seq<Child>, r: Range, now: int, ev: Event)
    requires ExpandEvent(ev, r, now) != []
    ensures EventChild(ev) !in Expanded(children, r, now)
  {
    ComesFromChild(children, r, now, EventChild(ev));
    hide ExpandEvent, ComponentOverlaps;
  }

  /**
    In a range with an end, filter and expansion see an occurrence exactly if it overlaps and comes
    within three years of the window's start, which is the later of the range's start less the
    duration and the event's.
   */
  lemma ThreeYearsAreSeen(ev: Event, r: Range, now: int)
    requires Regular(ev) && r.end.Some?
    ensures var d := FilterDuration(ev);
            ComponentOverlaps(ev, r) <==>
              exists o :: ev.rule.value(o) && Overlaps(r, o, o + d) && o - WindowStart(ev, r, d) <= 3 * 366 * 24 * 60 * 60
    ensures var d := ExpandDuration(ev);
            ExpandEvent(ev, r, now) != [] <==>
              exists o :: ev.rule.value(o) && Overlaps(r, o, o + d) && o - WindowStart(ev, r, d) <= 3 * 366 * 24 * 60 * 60
  {
    FilterFinds(ev, r);
    ExpansionFinds(ev, r, now);
    hide ComponentOverlaps, ExpandEvent, FilterDuration, ExpandDuration;
  }

  /** A second before DTSTART if the range starts earlier than a duration after it. */
  ghost function WindowStart(ev: Event, r: Range, d: int): int
    requires ev.dtstart.Some?
  {
    if r.start.None? then ev.dtstart.value
    else if r.start.value < ev.dtstart.value + d then ev.dtstart.value - 1
    else r.start.value - d
  }

  // ----- the cap -----

  lemma {:induction false} InnerAreInstances(ev: Event, occ: seq<int>, r: Range, d: int, now: int, skipped: nat)
    requires forall i | skipped <= i < |occ| :: Overlaps(r, occ[i], occ[i] + d)
    ensures |occ| - skipped <= |Instances(ev, occ, r, d, now)| <= |occ|
  {
    hide Overlaps, InstanceOf;
    if occ != [] {
      var front := occ[..|occ| - 1];
      assert forall i | skipped <= i < |front| :: front[i] == occ[i];
      InnerAreInstances(ev, front, r, d, now, skipped);
    }
  }

  /** At most 400 instances are shown; of an event with more occurrences in the window, 399 at least. */
  lemma CapIs400(ev: Event, r: Range, now: int)
    requires Regular(ev)
    ensures |ExpandEvent(ev, r, now)| <= 400
    ensures var (d, start) := (ExpandDuration(ev), ev.dtstart.value);
            |Between(ev.rule.value, From(start, r, d), To(From(start, r, d), r, YEAR))| > 400 ==>
              |ExpandEvent(ev, r, now)| >= 399
  {
    var d := ExpandDuration(ev);
    var from := From(ev.dtstart.value, r, d);
    var occ := Between(ev.rule.value, from, To(from, r, YEAR));
    var seen := Cap(occ, EXPAND_CAP);
    hide Between, Overlaps;
    InnerAreInstances(ev, seen, r, d, now, |seen|);
    if |occ| > 400 {
      forall i | 1 <= i < |seen| ensures Overlaps(r, seen[i], seen[i] + d) {
        InnerOverlap(ev, r, d, YEAR, i);
      }
      InnerAreInstances(ev, seen, r, d, now, 1);
    }
  }
}

/**
  The week view: timed events of one day are given lanes, side by side, from the earliest start on.
 */
module WeekGrid {
  import opened Wrappers

  function Max(a: int, b: int): int { if a >= b then a else b }

  function Min(a: int, b: int): int { if a <= b then a else b }

  // ----- the part of a day that an event takes -----

  const DAY := 24 * 60

  /** An iCalendar time: its date, if it has one; whether T and two digits follow, four, or T000000. */
  datatype Stamp = Stamp(date: Option<int>, hasTime: bool, minutes: Option<nat>, midnight: bool)

  datatype TimedItem = TimedItem(dtstart: Stamp, dtend: Option<Stamp>, allDay: bool, isTask: bool)

  /** The days from start on and before the end. */
  function EventSpan(ev: TimedItem): Option<(int, int)> {
    match ev.dtstart.date
    case None => None
    case Some(start) =>
      if ev.dtend.None? || ev.dtend.value.date.None? || ev.dtend.value.date.value < start then Some((start, start + 1))
      else
        var end := ev.dtend.value.date.value;
        if ev.allDay || !ev.dtend.value.hasTime then Some((start, if end == start then start + 1 else end))
        else if ev.dtend.value.midnight && end > start then Some((start, end))
        else Some((start, end + 1))
  }

  predicate EventOnDay(ev: TimedItem, day: int) {
    match EventSpan(ev)
    case None => false
    case Some((start, end)) => start <= day < end
  }

  datatype Span = Span(start: int, end: int)

  function TimedRange(ev: TimedItem, day: int): (r: Option<Span>)
    ensures r.Some? ==> IsRange(r.value)
  {
    if ev.isTask || ev.allDay || !ev.dtstart.hasTime || !EventOnDay(ev, day) then None else
      var clock := if ev.dtstart.minutes.Some? then ev.dtstart.minutes.value else 0;
      var until := if ev.dtend.Some? && ev.dtend.value.hasTime && ev.dtend.value.minutes.Some?
                   then ev.dtend.value.minutes.value else clock + 60;
      var start := if ev.dtstart.date.value < day then 0 else clock;
      var goesOn := ev.dtend.Some? && ev.dtend.value.date.Some? && ev.dtend.value.date.value > day;
      var end := if goesOn then DAY else until;
      var atLeast := if end <= start then Min(start + 30, DAY) else end;
      Some(Span(start, Min(atLeast, DAY)))
  }

  /** Within the day, or, for a time of 24 hours or more, an empty range at its end. */
  predicate IsRange(s: Span) {
    0 <= s.start && s.end <= DAY && (s.start < s.end || (s.start >= DAY && s.end == DAY))
  }

  // ----- sorting -----

  predicate Le(a: Span, b: Span) {
    a.start < b.start || (a.start == b.start && a.end <= b.end)
  }

  ghost predicate Sorted(spans: seq<Span>) {
    forall i, j :: 0 <= i < j < |spans| ==> Le(spans[i], spans[j])
  }

  function Insert<T>(s: seq<T>, x: T, key: T -> Span): (t: seq<T>)
    ensures |t| == |s| + 1
  {
    if s == [] || Le(key(s[|s| - 1]), key(x)) then s + [x]
    else Insert(s[..|s| - 1], x, key) + [s[|s| - 1]]
  }

  /** Array.prototype.sort with the comparison by start, then end. */
  function Sort<T>(s: seq<T>, key: T -> Span): (t: seq<T>)
    ensures |t| == |s|
  {
    if s == [] then [] else Insert(Sort(s[..|s| - 1], key), s[|s| - 1], key)
  }

  function Map<T, U>(s: seq<T>, f: T -> U): (t: seq<U>)
    ensures |t| == |s| && forall i :: 0 <= i < |s| ==> t[i] == f(s[i])
  {
    seq(|s|, i requires 0 <= i < |s| => f(s[i]))
  }

  /** The elements with this key, in order. */
  function WithKey<T>(s: seq<T>, key: T -> Span, k: Span): seq<T> {
    if s == [] then []
    else WithKey(s[..|s| - 1], key, k) + if key(s[|s| - 1]) == k then [s[|s| - 1]] else []
  }

  lemma {:induction false} InsertStaysBelow<T>(s: seq<T>, x: T, key: T -> Span, bound: Span)
    requires Le(key(x), bound) && forall i :: 0 <= i < |s| ==> Le(key(s[i]), bound)
    ensures forall i :: 0 <= i <= |s| ==> Le(key(Insert(s, x, key)[i]), bound)
  {
    if s != [] && !Le(key(s[|s| - 1]), key(x)) {
      InsertStaysBelow(s[..|s| - 1], x, key, bound);
    }
  }

  lemma SortedSnoc<T>(s: seq<T>, x: T, key: T -> Span)
    requires Sorted(Map(s, key)) && forall i :: 0 <= i < |s| ==> Le(key(s[i]), key(x))
    ensures Sorted(Map(s + [x], key))
  {
    forall i, j | 0 <= i < j < |s| + 1 ensures Le(Map(s + [x], key)[i], Map(s + [x], key)[j]) {
      assert j < |s| ==> Le(Map(s, key)[i], Map(s, key)[j]);
    }
  }

  lemma SortedFront<T>(s: seq<T>, key: T -> Span)
    requires s != [] && Sorted(Map(s, key))
    ensures Sorted(Map(s[..|s| - 1], key))
    ensures forall i :: 0 <= i < |s| ==> Le(key(s[i]), key(s[|s| - 1]))
  {
    assert Map(s[..|s| - 1], key) == Map(s, key)[..|s| - 1];
    forall i | 0 <= i < |s| - 1 ensures Le(key(s[i]), key(s[|s| - 1])) {
      assert Le(Map(s, key)[i], Map(s, key)[|s| - 1]);
    }
  }

  lemma {:induction false} InsertSorts<T>(s: seq<T>, x: T, key: T -> Span)
    requires Sorted(Map(s, key))
    ensures Sorted(Map(Insert(s, x, key), key))
  {
    if s == [] {
      SortedSnoc(s, x, key);
    } else {
      SortedFront(s, key);
      var k := |s| - 1;
      if Le(key(s[k]), key(x)) {
        SortedSnoc(s, x, key);
      } else {
        InsertSorts(s[..k], x, key);
        InsertStaysBelow(s[..k], x, key, key(s[k]));
        SortedSnoc(Insert(s[..k], x, key), s[k], key);
      }
    }
  }

  lemma {:induction false} SortSorts<T>(s: seq<T>, key: T -> Span)
    ensures Sorted(Map(Sort(s, key), key))
  {
    if s != [] {
      SortSorts(s[..|s| - 1], key);
      InsertSorts(Sort(s[..|s| - 1], key), s[|s| - 1], key);
    }
  }

  lemma WithKeySnoc<T>(s: seq<T>, x: T, key: T -> Span, k: Span)
    ensures WithKey(s + [x], key, k) == WithKey(s, key, k) + if key(x) == k then [x] else []
  {
    assert (s + [x])[..|s|] == s;
  }

  lemma {:induction false} InsertIsStable<T>(s: seq<T>, x: T, key: T -> Span, k: Span)
    ensures WithKey(Insert(s, x, key), key, k) == WithKey(s, key, k) + if key(x) == k then [x] else []
  {
    if s != [] && !Le(key(s[|s| - 1]), key(x)) {
      var n := |s| - 1;
      InsertIsStable(s[..n], x, key, k);
      WithKeySnoc(Insert(s[..n], x, key), s[n], key, k);
    } else {
      WithKeySnoc(s, x, key, k);
    }
  }

  /** Sorting is stable and keeps every element: those with one key come out as they went in. */
  lemma {:induction false} SortIsStable<T>(s: seq<T>, key: T -> Span, k: Span)
    ensures WithKey(Sort(s, key), key, k) == WithKey(s, key, k)
  {
    if s != [] {
      SortIsStable(s[..|s| - 1], key, k);
      InsertIsStable(Sort(s[..|s| - 1], key), s[|s| - 1], key, k);
    }
  }

  ghost predicate Distinct<T>(s: seq<T>) {
    forall i, j :: 0 <= i < j < |s| ==> s[i] != s[j]
  }

  lemma {:induction false} InsertMembers<T>(s: seq<T>, x: T, key: T -> Span)
    ensures forall b :: b in Insert(s, x, key) <==> b in s || b == x
    ensures Distinct(s) && x !in s ==> Distinct(Insert(s, x, key))
  {
    if s != [] && !Le(key(s[|s| - 1]), key(x)) {
      var k := |s| - 1;
      InsertMembers(s[..k], x, key);
      assert s == s[..k] + [s[k]];
      assert Distinct(s) ==> s[k] !in s[..k];
    }
  }

  lemma {:induction false} SortMembers<T>(s: seq<T>, key: T -> Span)
    ensures forall b :: b in Sort(s, key) <==> b in s
    ensures Distinct(s) ==> Distinct(Sort(s, key))
  {
    if s != [] {
      var k := |s| - 1;
      SortMembers(s[..k], key);
      InsertMembers(Sort(s[..k], key), s[k], key);
      assert Distinct(s) ==> s[k] !in s[..k];
      assert s == s[..k] + [s[k]];
    }
  }

  // ----- lanes -----

  predicate Overlap(a: Span, b: Span) {
    a.start < b.end && a.end > b.start
  }

  /** The first lane whose last block has ended, or a new one. */
  function FirstFree(ends: seq<int>, start: int, from: nat): (c: nat)
    requires from <= |ends|
    ensures from <= c <= |ends|
    ensures forall k :: from <= k < c ==> ends[k] > start
    ensures c < |ends| ==> ends[c] <= start
    decreases |ends| - from
  {
    if from < |ends| && ends[from] > start then FirstFree(ends, start, from + 1) else from
  }

  /** The lane of each block, and where each lane ends. */
  datatype Lanes = Lanes(col: seq<nat>, ends: seq<int>)

  /** One block more. */
  function Place(l: Lanes, x: Span): Lanes {
    var c := FirstFree(l.ends, x.start, 0);
    Lanes(l.col + [c], if c == |l.ends| then l.ends + [x.end] else l.ends[c := x.end])
  }

  function Assign(spans: seq<Span>): (l: Lanes)
    ensures |l.col| == |spans|
  {
    if spans == [] then Lanes([], []) else Place(Assign(spans[..|spans| - 1]), spans[|spans| - 1])
  }

  ghost predicate AreRanges(spans: seq<Span>) {
    forall i :: 0 <= i < |spans| ==> IsRange(spans[i])
  }

  /** Blocks in one lane follow each other, and the lane ends with one of its blocks. */
  ghost predicate LanesAreOrderly(spans: seq<Span>, l: Lanes)
    requires |l.col| == |spans|
  {
    && (forall i :: 0 <= i < |spans| ==> l.col[i] < |l.ends| && spans[i].end <= l.ends[l.col[i]])
    && (forall i, j :: 0 <= i < j < |spans| && l.col[i] == l.col[j] ==> spans[i].end <= spans[j].start)
    && (forall c :: 0 <= c < |l.ends| ==> EndsWithBlock(spans, l, c))
    && (l.ends == [] ==> spans == [])
  }

  ghost predicate EndsWithBlock(spans: seq<Span>, l: Lanes, c: nat)
    requires |l.col| == |spans| && c < |l.ends|
  {
    l.ends[c] <= DAY && exists i :: EndsLane(spans, l, i, c)
  }

  ghost predicate EndsLane(spans: seq<Span>, l: Lanes, i: int, c: nat)
    requires |l.col| == |spans| && c < |l.ends|
  {
    0 <= i < |spans| && l.col[i] == c && spans[i].end == l.ends[c]
  }

  /** What placing a block does: its lane is new or has ended, and then ends with the block; the others stay. */
  lemma Placed(l: Lanes, x: Span)
    ensures var after := Place(l, x);
            var c := after.col[|l.col|];
            && after.col == l.col + [c]
            && (c == |l.ends| || (c < |l.ends| && l.ends[c] <= x.start))
            && |after.ends| == (if c == |l.ends| then |l.ends| + 1 else |l.ends|)
            && after.ends[c] == x.end
            && (forall k :: 0 <= k < |l.ends| && k != c ==> after.ends[k] == l.ends[k])
  {
  }

  lemma LanesStillEnd(spans: seq<Span>, l: Lanes, x: Span, k: nat)
    requires |l.col| == |spans| && IsRange(x) && LanesAreOrderly(spans, l) && k < |Place(l, x).ends|
    ensures EndsWithBlock(spans + [x], Place(l, x), k)
  {
    Placed(l, x);
    hide Place;
    var all, after := spans + [x], Place(l, x);
    var c := after.col[|spans|];
    if k == c {
      assert EndsLane(all, after, |spans|, k);
    } else {
      assert EndsWithBlock(spans, l, k);
      var i :| EndsLane(spans, l, i, k);
      assert EndsLane(all, after, i, k);
    }
  }

  lemma LaneEndsToday(spans: seq<Span>, l: Lanes, c: nat)
    requires |l.col| == |spans| && LanesAreOrderly(spans, l) && c < |l.ends|
    ensures l.ends[c] <= DAY
  {
    assert EndsWithBlock(spans, l, c);
  }

  lemma OneMoreBlock(spans: seq<Span>, l: Lanes, x: Span)
    requires |l.col| == |spans| && IsRange(x) && LanesAreOrderly(spans, l)
    ensures LanesAreOrderly(spans + [x], Place(l, x))
  {
    Placed(l, x);
    hide Place, EndsWithBlock;
    var all, after := spans + [x], Place(l, x);
    var c := after.col[|spans|];
    forall k | 0 <= k < |after.ends| ensures EndsWithBlock(all, after, k) {
      LanesStillEnd(spans, l, x, k);
    }
    forall i | 0 <= i < |spans| ensures after.col[i] == l.col[i] && spans[i].end <= l.ends[l.col[i]] <= after.ends[l.col[i]] {
      if l.col[i] == c {
        LaneEndsToday(spans, l, c);
      }
    }
  }

  lemma {:induction false} AssignIsOrderly(spans: seq<Span>)
    requires AreRanges(spans)
    ensures LanesAreOrderly(spans, Assign(spans))
  {
    hide LanesAreOrderly, Place, Assign;
    if spans == [] {
      NoLanes();
    } else {
      var k := |spans| - 1;
      AssignLast(spans);
      AssignIsOrderly(spans[..k]);
      OneMoreBlock(spans[..k], Assign(spans[..k]), spans[k]);
      assert spans == spans[..k] + [spans[k]];
    }
  }

  lemma AssignLast(spans: seq<Span>)
    requires spans != []
    ensures var k := |spans| - 1; Assign(spans) == Place(Assign(spans[..k]), spans[k])
  {
  }

  lemma NoLanes()
    ensures Assign([]) == Lanes([], []) && LanesAreOrderly([], Lanes([], []))
  {
  }

  /** Overlapping blocks never share a lane. */
  lemma OverlappingAreApart(spans: seq<Span>, i: nat, j: nat)
    requires AreRanges(spans) && i < |spans| && j < |spans| && i != j && Overlap(spans[i], spans[j])
    ensures Assign(spans).col[i] != Assign(spans).col[j]
  {
    AssignIsOrderly(spans);
  }

  // ----- as few lanes as possible -----

  function Running(spans: seq<Span>, m: int): set<int> {
    set i | 0 <= i < |spans| && spans[i].start <= m < spans[i].end
  }

  ghost predicate Takes(col: seq<nat>, s: set<int>, c: nat) {
    exists i :: i in s && 0 <= i < |col| && col[i] == c
  }

  /** n lanes taken by members of a set: it has at least n members. */
  lemma {:induction false} Pigeons(col: seq<nat>, s: set<int>, n: nat)
    requires forall c :: 0 <= c < n ==> Takes(col, s, c)
    ensures |s| >= n
  {
    if n > 0 {
      assert Takes(col, s, n - 1);
      var i :| i in s && 0 <= i < |col| && col[i] == n - 1;
      var rest := s - {i};
      forall c | 0 <= c < n - 1 ensures Takes(col, rest, c) {
        assert Takes(col, s, c);
        var j :| j in s && 0 <= j < |col| && col[j] == c;
        assert j in rest;
      }
      Pigeons(col, rest, n - 1);
    }
  }

  /** Members of a set in pairwise different lanes, all below n: it has at most n members. */
  lemma {:induction false} Holes(col: seq<nat>, s: set<int>, n: nat)
    requires forall i :: i in s ==> 0 <= i < |col| && col[i] < n
    requires forall i, j :: i in s && j in s && i != j ==> col[i] != col[j]
    ensures |s| <= n
    decreases n
  {
    if |s| > 0 {
      var x := Member(s);
      assert col[x] < n;
      if i :| i in s && col[i] == n - 1 {
        Holes(col, s - {i}, n - 1);
      } else {
        Holes(col, s, n - 1);
      }
    }
  }

  lemma Member<T>(s: set<T>) returns (x: T)
    requires |s| > 0
    ensures x in s
  {
    x :| x in s;
  }

  /** No more blocks run at one time than there are lanes. */
  lemma NeverMoreThanLanes(spans: seq<Span>, m: int)
    requires AreRanges(spans)
    ensures |Running(spans, m)| <= |Assign(spans).ends|
  {
    AssignIsOrderly(spans);
    Holes(Assign(spans).col, Running(spans, m), |Assign(spans).ends|);
  }

  /** A time at which as many blocks run as there are lanes; or none ever runs, and there is one lane at most. */
  ghost predicate LanesAreNeeded(spans: seq<Span>, n: nat) {
    (exists m :: |Running(spans, m)| >= n) || (n == 1 && spans != [] && NoneRuns(spans))
  }

  ghost predicate NoneRuns(spans: seq<Span>) {
    forall i :: 0 <= i < |spans| ==> spans[i].start >= spans[i].end
  }

  lemma RunningGrows(spans: seq<Span>, x: Span, m: int)
    ensures |Running(spans, m)| <= |Running(spans + [x], m)|
  {
    Subset(Running(spans, m), Running(spans + [x], m));
  }

  lemma {:induction false} Subset<T>(a: set<T>, b: set<T>)
    requires a <= b
    ensures |a| <= |b|
  {
    if a != {} {
      var x :| x in a;
      Subset(a - {x}, b - {x});
    }
  }

  /** When a block opens a new lane, all earlier lanes are busy at its start. */
  lemma NewLaneIsNeeded(spans: seq<Span>, l: Lanes, x: Span)
    requires |l.col| == |spans| && LanesAreOrderly(spans, l) && x.start < x.end
    requires forall i :: 0 <= i < |spans| ==> spans[i].start <= x.start
    requires |Place(l, x).ends| == |l.ends| + 1
    ensures |Running(spans + [x], x.start)| >= |l.ends| + 1
  {
    var all, after := spans + [x], Place(l, x);
    var busy := Running(all, x.start);
    forall c | 0 <= c < |l.ends| + 1 ensures Takes(after.col, busy, c) {
      if c == |l.ends| {
        assert |spans| in busy && after.col[|spans|] == c;
      } else {
        assert EndsWithBlock(spans, l, c);
        var i :| EndsLane(spans, l, i, c);
        assert all[i] == spans[i] && i in busy && after.col[i] == c;
      }
    }
    Pigeons(after.col, busy, |l.ends| + 1);
  }

  lemma OneMoreIsNeeded(spans: seq<Span>, l: Lanes, x: Span)
    requires |l.col| == |spans| && LanesAreOrderly(spans, l) && LanesAreNeeded(spans, |l.ends|)
    requires AreRanges(spans) && IsRange(x) && forall i :: 0 <= i < |spans| ==> spans[i].start <= x.start
    ensures LanesAreNeeded(spans + [x], |Place(l, x).ends|)
  {
    var after := Place(l, x);
    assert |after.ends| == |l.ends| || |after.ends| == |l.ends| + 1;
    hide Place, LanesAreOrderly, Running, AreRanges;
    if |after.ends| == |l.ends| {
      StillNeeded(spans, x, |l.ends|);
    } else if x.start < x.end {
      NewLaneIsNeeded(spans, l, x);
      assert |Running(spans + [x], x.start)| >= |after.ends|;
    } else {
      EmptyBlockNeedsNoLane(spans, l, x);
      assert NoneRuns(spans + [x]);
    }
  }

  /** An empty block at the end of the day opens a lane only if there is none. */
  lemma EmptyBlockNeedsNoLane(spans: seq<Span>, l: Lanes, x: Span)
    requires |l.col| == |spans| && LanesAreOrderly(spans, l) && IsRange(x) && x.start >= x.end
    requires |Place(l, x).ends| != |l.ends|
    ensures spans == [] && l.ends == []
  {
    assert |l.ends| > 0 ==> EndsWithBlock(spans, l, 0);
  }

  lemma StillNeeded(spans: seq<Span>, x: Span, n: nat)
    requires LanesAreNeeded(spans, n) && AreRanges(spans) && IsRange(x)
    requires forall i :: 0 <= i < |spans| ==> spans[i].start <= x.start
    ensures LanesAreNeeded(spans + [x], n)
  {
    if m :| |Running(spans, m)| >= n {
      RunningGrows(spans, x, m);
      assert |Running(spans + [x], m)| >= n;
    } else {
      LateStays(spans, x);
    }
  }

  /** After an empty block at the end of the day only such blocks follow. */
  lemma LateStays(spans: seq<Span>, x: Span)
    requires spans != [] && NoneRuns(spans) && AreRanges(spans) && IsRange(x) && spans[0].start <= x.start
    ensures NoneRuns(spans + [x])
  {
  }

  /** The number of lanes is the greatest number of blocks that run at once. */
  lemma {:induction false} AsFewAsPossible(spans: seq<Span>)
    requires AreRanges(spans) && Sorted(spans)
    ensures LanesAreNeeded(spans, |Assign(spans).ends|)
  {
    hide LanesAreOrderly, LanesAreNeeded, Place, Assign;
    if spans == [] {
      NoLanes();
      NoLanesNeeded();
    } else {
      var k := |spans| - 1;
      AsFewAsPossible(spans[..k]);
      AssignIsOrderly(spans[..k]);
      AssignLast(spans);
      forall i | 0 <= i < k ensures spans[..k][i].start <= spans[k].start {
        assert Le(spans[i], spans[k]);
      }
      OneMoreIsNeeded(spans[..k], Assign(spans[..k]), spans[k]);
      assert spans == spans[..k] + [spans[k]];
    }
  }

  lemma NoLanesNeeded()
    ensures LanesAreNeeded([], 0)
  {
    assert |Running([], 0)| >= 0;
  }

  // ----- how wide a block is drawn -----

  /** The first pass over block i: one more than the highest lane among the blocks it overlaps and itself. */
  function OverlapCols(spans: seq<Span>, col: seq<nat>, i: nat, n: nat): nat
    requires |col| == |spans| && i < |spans| && n <= |spans|
  {
    if n == 0 then 1
    else
      var before, j := OverlapCols(spans, col, i, n - 1), n - 1;
      if j != i && Overlap(spans[j], spans[i]) then Max(before, Max(col[j] + 1, col[i] + 1)) else before
  }

  function FirstCols(spans: seq<Span>, col: seq<nat>): (cols: seq<nat>)
    requires |col| == |spans|
    ensures |cols| == |spans|
  {
    seq(|spans|, i requires 0 <= i < |spans| => Max(1, OverlapCols(spans, col, i, |spans|)))
  }

  /** The second pass over block i: at least what the overlapping blocks have by now. */
  function Widest(spans: seq<Span>, col: seq<nat>, cols: seq<nat>, i: nat, n: nat): nat
    requires |col| == |cols| == |spans| && i < |spans| && n <= |spans|
  {
    if n == 0 then cols[i]
    else
      var before, j := Widest(spans, col, cols, i, n - 1), n - 1;
      if Overlap(spans[j], spans[i]) then Max(before, Max(cols[j], col[j] + 1)) else before
  }

  /** The first n blocks have been widened, one after the other. */
  function Widened(spans: seq<Span>, col: seq<nat>, n: nat): (cols: seq<nat>)
    requires |col| == |spans| && n <= |spans|
    ensures |cols| == |spans|
  {
    if n == 0 then FirstCols(spans, col)
    else
      var before := Widened(spans, col, n - 1);
      before[n - 1 := Widest(spans, col, before, n - 1, |spans|)]
  }

  function FinalCols(spans: seq<Span>): (cols: seq<nat>)
    ensures |cols| == |spans|
  {
    Widened(spans, Assign(spans).col, |spans|)
  }

  lemma {:induction false} WidestBounds(spans: seq<Span>, col: seq<nat>, cols: seq<nat>, i: nat, n: nat, most: nat)
    requires |col| == |cols| == |spans| && i < |spans| && n <= |spans|
    requires forall j :: 0 <= j < |spans| ==> col[j] < most && cols[j] <= most
    ensures cols[i] <= Widest(spans, col, cols, i, n) <= most
    ensures forall j :: 0 <= j < n && Overlap(spans[j], spans[i]) ==> col[j] < Widest(spans, col, cols, i, n)
  {
    if n > 0 {
      WidestBounds(spans, col, cols, i, n - 1, most);
    }
  }

  lemma {:induction false} OverlapColsBound(spans: seq<Span>, col: seq<nat>, i: nat, n: nat, most: nat)
    requires |col| == |spans| && i < |spans| && n <= |spans|
    requires forall j :: 0 <= j < |spans| ==> col[j] < most
    ensures 1 <= OverlapCols(spans, col, i, n) <= most
  {
    if n > 0 {
      OverlapColsBound(spans, col, i, n - 1, most);
    }
  }

  ghost predicate Fits(spans: seq<Span>, col: seq<nat>, cols: seq<nat>, i: nat)
    requires |col| == |cols| == |spans| && i < |spans|
  {
    forall j :: 0 <= j < |spans| && Overlap(spans[j], spans[i]) ==> col[j] < cols[i]
  }

  lemma {:induction false} WidenedBounds(spans: seq<Span>, col: seq<nat>, n: nat, most: nat)
    requires |col| == |spans| && n <= |spans|
    requires forall j :: 0 <= j < |spans| ==> col[j] < most
    ensures forall i :: 0 <= i < |spans| ==> 1 <= Widened(spans, col, n)[i] <= most
    ensures forall i :: 0 <= i < n ==> Fits(spans, col, Widened(spans, col, n), i)
  {
    if n == 0 {
      forall i | 0 <= i < |spans| ensures 1 <= FirstCols(spans, col)[i] <= most {
        OverlapColsBound(spans, col, i, |spans|, most);
      }
    } else {
      WidenedBounds(spans, col, n - 1, most);
      var before := Widened(spans, col, n - 1);
      WidestBounds(spans, col, before, n - 1, |spans|, most);
      forall i | 0 <= i < n ensures Fits(spans, col, Widened(spans, col, n), i) {
        assert i < n - 1 ==> Fits(spans, col, before, i);
      }
    }
  }

  /** Every block has more columns than the lane of any block it overlaps, its own too, and no more than there are lanes. */
  lemma EveryBlockFits(spans: seq<Span>, i: nat)
    requires AreRanges(spans) && i < |spans|
    ensures var (l, cols) := (Assign(spans), FinalCols(spans));
            && l.col[i] < cols[i] <= |l.ends|
            && forall j :: 0 <= j < |spans| && Overlap(spans[j], spans[i]) ==> l.col[j] < cols[i]
  {
    AssignIsOrderly(spans);
    var l := Assign(spans);
    WidenedBounds(spans, l.col, |spans|, |l.ends|);
    assert Fits(spans, l.col, FinalCols(spans), i);
    if spans[i].start >= spans[i].end {
      LateInFirstLane(spans, i);
    }
  }

  /** An empty block at the end of the day is in the first lane. */
  lemma {:induction false} LateInFirstLane(spans: seq<Span>, i: nat)
    requires AreRanges(spans) && i < |spans| && spans[i].start >= spans[i].end
    ensures Assign(spans).col[i] == 0
  {
    var k := |spans| - 1;
    AssignLast(spans);
    Placed(Assign(spans[..k]), spans[k]);
    hide Assign, Place;
    if i < k {
      assert spans[..k][i] == spans[i];
      LateInFirstLane(spans[..k], i);
    } else {
      AssignIsOrderly(spans[..k]);
      LateTakesFirst(spans[..k], Assign(spans[..k]), spans[k]);
    }
  }

  /** At the end of the day the first lane has ended. */
  lemma LateTakesFirst(spans: seq<Span>, l: Lanes, x: Span)
    requires |l.col| == |spans| && LanesAreOrderly(spans, l) && IsRange(x) && x.start >= x.end
    ensures Place(l, x).col[|spans|] == 0
  {
    assert |l.ends| > 0 ==> EndsWithBlock(spans, l, 0);
  }

  // ----- where a block is drawn -----

  /** A block takes the part from col / cols to (col + 1) / cols of the day's width. */
  predicate DrawnApart(a: nat, aCols: nat, b: nat, bCols: nat) {
    (a + 1) * bCols <= b * aCols || (b + 1) * aCols <= a * bCols
  }

  /** Overlapping blocks of equal width are drawn apart. */
  lemma SameWidthIsApart(spans: seq<Span>, i: nat, j: nat)
    requires AreRanges(spans) && i < |spans| && j < |spans| && i != j && Overlap(spans[i], spans[j])
    requires FinalCols(spans)[i] == FinalCols(spans)[j]
    ensures DrawnApart(Assign(spans).col[i], FinalCols(spans)[i], Assign(spans).col[j], FinalCols(spans)[j])
  {
    hide Assign, FinalCols, Overlap, AreRanges, DrawnApart;
    OverlappingAreApart(spans, i, j);
    EqualIsApart(Assign(spans).col[i], Assign(spans).col[j], FinalCols(spans)[i]);
  }

  lemma EqualIsApart(a: nat, b: nat, n: nat)
    requires a != b
    ensures DrawnApart(a, n, b, n)
  {
    if a < b {
      MulMono(a + 1, b, n);
    } else {
      MulMono(b + 1, a, n);
    }
  }

  lemma MulMono(a: nat, b: nat, n: nat)
    requires a <= b
    ensures a * n <= b * n
  {
  }

  /** Widths do not fall along the day: the later of two overlapping blocks has at least as many columns. */
  lemma WidthsDoNotFall(spans: seq<Span>, i: nat, j: nat)
    requires i < j < |spans| && Overlap(spans[i], spans[j])
    ensures FinalCols(spans)[i] <= FinalCols(spans)[j]
  {
    hide Assign, Widest, FirstCols;
    var col := Assign(spans).col;
    var before := Widened(spans, col, j);
    LaterPassesLeave(spans, col, j, |spans|);
    LaterPassesLeave(spans, col, j + 1, |spans|);
    assert FinalCols(spans)[i] == FinalCols(spans)[..j][i] == before[..j][i];
    assert FinalCols(spans)[j] == FinalCols(spans)[..j + 1][j] == Widened(spans, col, j + 1)[..j + 1][j];
    WidestIsAbove(spans, col, before, j, |spans|, i);
  }

  lemma {:induction false} WidestIsAbove(spans: seq<Span>, col: seq<nat>, cols: seq<nat>, i: nat, n: nat, j: nat)
    requires |col| == |cols| == |spans| && i < |spans| && j < n <= |spans| && Overlap(spans[j], spans[i])
    ensures cols[j] <= Widest(spans, col, cols, i, n)
  {
    if j < n - 1 {
      WidestIsAbove(spans, col, cols, i, n - 1, j);
    }
  }

  // ----- days without chains -----

  /** Blocks that overlap a common block overlap each other. */
  ghost predicate IsTransitive(spans: seq<Span>) {
    forall i, j, k | 0 <= i < |spans| && 0 <= j < |spans| && 0 <= k < |spans| ::
      Overlap(spans[i], spans[j]) && Overlap(spans[j], spans[k]) ==> Overlap(spans[i], spans[k])
  }

  lemma {:induction false} OverlapColsIs(spans: seq<Span>, col: seq<nat>, i: nat, n: nat)
    requires |col| == |spans| && i < |spans| && n <= |spans|
    ensures var m := OverlapCols(spans, col, i, n);
            && (forall j :: 0 <= j < n && j != i && Overlap(spans[j], spans[i]) ==> col[j] < m && col[i] < m)
            && (m == 1 || exists j :: 0 <= j < n && j != i && Overlap(spans[j], spans[i]) && (m == col[j] + 1 || m == col[i] + 1))
  {
    hide Overlap;
    if n > 0 {
      OverlapColsIs(spans, col, i, n - 1);
    }
  }

  lemma FirstColsAgree(spans: seq<Span>, col: seq<nat>, i: nat, j: nat)
    requires |col| == |spans| && IsTransitive(spans)
    requires i < |spans| && j < |spans| && i != j && Overlap(spans[i], spans[j])
    ensures FirstCols(spans, col)[i] <= FirstCols(spans, col)[j] && col[i] < FirstCols(spans, col)[j]
    ensures col[i] < FirstCols(spans, col)[i]
  {
    OverlapColsIs(spans, col, i, |spans|);
    OverlapColsIs(spans, col, j, |spans|);
    hide OverlapCols;
    var m := OverlapCols(spans, col, i, |spans|);
    if k :| 0 <= k < |spans| && k != i && Overlap(spans[k], spans[i]) && (m == col[k] + 1 || m == col[i] + 1) {
      assert Overlap(spans[k], spans[j]);
    }
  }

  /** The widest of equal widths is that width. */
  lemma {:induction false} WidestOfEqual(spans: seq<Span>, col: seq<nat>, cols: seq<nat>, i: nat, n: nat)
    requires |col| == |cols| == |spans| && i < |spans| && n <= |spans|
    requires forall j :: 0 <= j < |spans| && Overlap(spans[j], spans[i]) ==> cols[j] == cols[i] && col[j] < cols[i]
    ensures Widest(spans, col, cols, i, n) == cols[i]
  {
    if n > 0 {
      WidestOfEqual(spans, col, cols, i, n - 1);
    }
  }

  ghost predicate HasCompany(spans: seq<Span>, i: nat)
    requires i < |spans|
  {
    exists j :: 0 <= j < |spans| && j != i && Overlap(spans[j], spans[i])
  }

  /** On such a day the second pass changes no block that overlaps another. */
  lemma {:induction false} SecondPassIsIdle(spans: seq<Span>, col: seq<nat>, n: nat)
    requires |col| == |spans| && IsTransitive(spans) && n <= |spans|
    ensures forall i :: 0 <= i < |spans| && HasCompany(spans, i) ==> Widened(spans, col, n)[i] == FirstCols(spans, col)[i]
  {
    if n > 0 {
      hide FirstCols, Widest, IsTransitive;
      var k := n - 1;
      var before, first := Widened(spans, col, k), FirstCols(spans, col);
      SecondPassIsIdle(spans, col, k);
      if HasCompany(spans, k) {
        forall j | 0 <= j < |spans| && Overlap(spans[j], spans[k]) ensures before[j] == before[k] && col[j] < before[k] {
          var other :| 0 <= other < |spans| && other != k && Overlap(spans[other], spans[k]);
          FirstColsAgree(spans, col, k, other);
          if j != k {
            FirstColsAgree(spans, col, j, k);
            FirstColsAgree(spans, col, k, j);
            assert HasCompany(spans, j);
          }
        }
        WidestOfEqual(spans, col, before, k, |spans|);
      }
    }
  }

  /** On a day without chains, overlapping blocks have one width and are drawn side by side. */
  lemma NoChainsIsApart(spans: seq<Span>, i: nat, j: nat)
    requires AreRanges(spans) && IsTransitive(spans)
    requires i < |spans| && j < |spans| && i != j && Overlap(spans[i], spans[j])
    ensures FinalCols(spans)[i] == FinalCols(spans)[j]
    ensures DrawnApart(Assign(spans).col[i], FinalCols(spans)[i], Assign(spans).col[j], FinalCols(spans)[j])
  {
    hide FirstCols, Widened, Assign, IsTransitive;
    var col := Assign(spans).col;
    SecondPassIsIdle(spans, col, |spans|);
    FirstColsAgree(spans, col, i, j);
    FirstColsAgree(spans, col, j, i);
    assert HasCompany(spans, i) && HasCompany(spans, j);
    SameWidthIsApart(spans, i, j);
  }

  const CHAIN := [Span(0, 60), Span(30, 120), Span(90, 200), Span(130, 200), Span(140, 200)]

  lemma ChainLanes()
    ensures Assign(CHAIN) == Lanes([0, 1, 0, 1, 2], [200, 200, 200])
  {
    assert CHAIN[..4][..3] == CHAIN[..3] && CHAIN[..3][..2] == CHAIN[..2] && CHAIN[..2][..1] == CHAIN[..1] && CHAIN[..1][..0] == [];
    assert Assign(CHAIN[..1]) == Lanes([0], [60]);
    assert Assign(CHAIN[..2]) == Lanes([0, 1], [60, 120]);
    assert Assign(CHAIN[..3]) == Lanes([0, 1, 0], [200, 120]);
    assert Assign(CHAIN[..4]) == Lanes([0, 1, 0, 1], [200, 200]);
  }

  lemma {:induction false} NoOverlapNoChange(spans: seq<Span>, col: seq<nat>, cols: seq<nat>, i: nat, from: nat, n: nat)
    requires |col| == |cols| == |spans| && i < |spans| && from <= n <= |spans|
    requires forall j :: from <= j < n ==> !Overlap(spans[j], spans[i])
    ensures Widest(spans, col, cols, i, n) == Widest(spans, col, cols, i, from)
    ensures OverlapCols(spans, col, i, n) == OverlapCols(spans, col, i, from)
  {
    if from < n {
      NoOverlapNoChange(spans, col, cols, i, from, n - 1);
    }
  }

  /**
    A single second pass does not even out a chain of overlaps: here the first two blocks overlap,
    get 2 and 3 columns, and are drawn over each other.
   */
  lemma ChainIsDrawnOver()
    ensures AreRanges(CHAIN) && Sorted(CHAIN) && Overlap(CHAIN[0], CHAIN[1])
    ensures FinalCols(CHAIN)[0] == 2 && FinalCols(CHAIN)[1] == 3
    ensures !DrawnApart(Assign(CHAIN).col[0], FinalCols(CHAIN)[0], Assign(CHAIN).col[1], FinalCols(CHAIN)[1])
  {
    ChainLanes();
    ChainIsWidened();
    LaterPassesLeave(CHAIN, [0, 1, 0, 1, 2], 2, 5);
    assert FinalCols(CHAIN)[..2] == [2, 3];
  }

  lemma ChainIsWidened()
    ensures Widened(CHAIN, [0, 1, 0, 1, 2], 2)[..2] == [2, 3]
  {
    var col := [0, 1, 0, 1, 2];
    ChainFirstCols();
    var first := FirstCols(CHAIN, col);
    NoOverlapNoChange(CHAIN, col, first, 0, 2, 5);
    assert Widened(CHAIN, col, 1) == first[0 := 2];
    NoOverlapNoChange(CHAIN, col, first[0 := 2], 1, 3, 5);
  }

  lemma ChainFirstCols()
    ensures FirstCols(CHAIN, [0, 1, 0, 1, 2])[..3] == [2, 2, 3]
  {
    var col := [0, 1, 0, 1, 2];
    NoOverlapNoChange(CHAIN, col, col, 0, 2, 5);
    NoOverlapNoChange(CHAIN, col, col, 1, 3, 5);
    assert OverlapCols(CHAIN, col, 2, 3) == 2;
  }

  lemma {:induction false} LaterPassesLeave(spans: seq<Span>, col: seq<nat>, m: nat, n: nat)
    requires |col| == |spans| && m <= n <= |spans|
    ensures Widened(spans, col, n)[..m] == Widened(spans, col, m)[..m]
  {
    if m < n {
      LaterPassesLeave(spans, col, m, n - 1);
    }
  }

  // ----- the layout -----

  class Block {
    const item: TimedItem
    const startMin: int
    const endMin: int
    var col: nat
    var cols: nat

    constructor (item: TimedItem, range: Span)
      ensures this.item == item && SpanOf(this) == range && col == 0 && cols == 1
    {
      this.item := item;
      startMin, endMin := range.start, range.end;
      col, cols := 0, 1;
    }
  }

  function SpanOf(b: Block): Span { Span(b.startMin, b.endMin) }

  datatype Entry = Entry(item: TimedItem, span: Span)

  function EntryOf(b: Block): Entry { Entry(b.item, SpanOf(b)) }

  function SpanOfEntry(e: Entry): Span { e.span }

  /** The timed events of the day with their ranges, in the order given. */
  function TimedOf(items: seq<TimedItem>, day: int): (timed: seq<Entry>)
    ensures forall i :: 0 <= i < |timed| ==> IsRange(timed[i].span)
  {
    if items == [] then []
    else
      var before, r := TimedOf(items[..|items| - 1], day), TimedRange(items[|items| - 1], day);
      if r.None? then before else before + [Entry(items[|items| - 1], r.value)]
  }

  lemma {:induction false} InsertCommutes(s: seq<Block>, x: Block)
    ensures Map(Insert(s, x, SpanOf), EntryOf) == Insert(Map(s, EntryOf), EntryOf(x), SpanOfEntry)
  {
    if s != [] && !Le(SpanOf(s[|s| - 1]), SpanOf(x)) {
      var k := |s| - 1;
      InsertCommutes(s[..k], x);
      assert Map(s, EntryOf)[..k] == Map(s[..k], EntryOf);
      MapSnoc(Insert(s[..k], x, SpanOf), s[k], EntryOf);
    } else {
      MapSnoc(s, x, EntryOf);
      assert s == [] ==> Map(s, EntryOf) == [];
      assert s != [] ==> SpanOfEntry(Map(s, EntryOf)[|s| - 1]) == SpanOf(s[|s| - 1]);
    }
  }

  lemma MapSnoc<T, U>(s: seq<T>, x: T, f: T -> U)
    ensures Map(s + [x], f) == Map(s, f) + [f(x)]
  {
  }

  lemma {:induction false} SortCommutes(s: seq<Block>)
    ensures Map(Sort(s, SpanOf), EntryOf) == Sort(Map(s, EntryOf), SpanOfEntry)
  {
    if s != [] {
      var k := |s| - 1;
      SortCommutes(s[..k]);
      InsertCommutes(Sort(s[..k], SpanOf), s[k]);
      assert Map(s, EntryOf)[..k] == Map(s[..k], EntryOf);
    }
  }

  /** The sorted entries of the day; their lanes and widths are what the layout computes. */
  function Arranged(items: seq<TimedItem>, day: int): seq<Entry> {
    Sort(TimedOf(items, day), SpanOfEntry)
  }

  /** The blocks are laid out from the earliest start on, each with a proper range. */
  lemma ArrangedIsSorted(items: seq<TimedItem>, day: int)
    ensures Sorted(Map(Arranged(items, day), SpanOfEntry)) && AreRanges(Map(Arranged(items, day), SpanOfEntry))
  {
    SortSorts(TimedOf(items, day), SpanOfEntry);
    SortMembers(TimedOf(items, day), SpanOfEntry);
    forall i | 0 <= i < |Arranged(items, day)| ensures IsRange(Arranged(items, day)[i].span) {
      assert Arranged(items, day)[i] in TimedOf(items, day);
    }
  }

  method LayoutDayTimed(items: seq<TimedItem>, day: int) returns (timed: seq<Block>)
    ensures fresh(set b | b in timed) && Distinct(timed)
    ensures Map(timed, EntryOf) == Arranged(items, day)
    ensures var spans := Map(timed, SpanOf);
            forall i :: 0 <= i < |timed| ==> timed[i].col == Assign(spans).col[i] && timed[i].cols == FinalCols(spans)[i]
  {
    timed := CollectTimed(items, day);
    SortCommutes(timed);
    SortMembers(timed, SpanOf);
    timed := Sort(timed, SpanOf);
    ghost var spans := Map(timed, SpanOf);
    AssignLanes(timed, spans);
    SetFirstCols(timed, spans, Assign(spans).col);
    WidenCols(timed, spans, Assign(spans).col);
  }

  method CollectTimed(items: seq<TimedItem>, day: int) returns (timed: seq<Block>)
    ensures fresh(set b | b in timed) && Distinct(timed)
    ensures Map(timed, EntryOf) == TimedOf(items, day)
    ensures forall b :: b in timed ==> b.col == 0 && b.cols == 1
  {
    timed := [];
    assert items[..0] == [];
    for i := 0 to |items|
      invariant fresh(set b | b in timed) && Distinct(timed)
      invariant Map(timed, EntryOf) == TimedOf(items[..i], day)
      invariant forall b :: b in timed ==> b.col == 0 && b.cols == 1
    {
      assert items[..i + 1][..i] == items[..i];
      var r := TimedRange(items[i], day);
      if r.None? {
        continue;
      }
      var b := new Block(items[i], r.value);
      ghost var before := timed;
      timed := timed + [b];
      assert Map(timed, EntryOf) == Map(before, EntryOf) + [EntryOf(b)];
    }
    assert items[..|items|] == items;
  }

  ghost predicate HasRanges(timed: seq<Block>, spans: seq<Span>) {
    |spans| == |timed| && forall i :: 0 <= i < |timed| ==> SpanOf(timed[i]) == spans[i]
  }

  method AssignLanes(timed: seq<Block>, ghost spans: seq<Span>)
    requires Distinct(timed) && HasRanges(timed, spans)
    modifies timed
    ensures forall i :: 0 <= i < |timed| ==> timed[i].col == Assign(spans).col[i] && timed[i].cols == old(timed[i].cols)
  {
    var colEnd: seq<int> := [];
    assert spans[..0] == [];
    for i := 0 to |timed|
      invariant colEnd == Assign(spans[..i]).ends
      invariant forall k :: 0 <= k < i ==> timed[k].col == Assign(spans[..i]).col[k]
      invariant forall k :: 0 <= k < |timed| ==> timed[k].cols == old(timed[k].cols)
    {
      var ev := timed[i];
      assert spans[..i + 1][..i] == spans[..i];
      var col := FindLane(colEnd, ev.startMin);
      ev.col := col;
      if col == |colEnd| {
        colEnd := colEnd + [ev.endMin];
      } else {
        colEnd := colEnd[col := ev.endMin];
      }
      assert Assign(spans[..i + 1]) == Place(Assign(spans[..i]), spans[i]);
    }
    assert spans[..|spans|] == spans;
  }

  method FindLane(colEnd: seq<int>, start: int) returns (col: nat)
    ensures col == FirstFree(colEnd, start, 0)
  {
    col := 0;
    while col < |colEnd| && colEnd[col] > start
      invariant col <= |colEnd| && FirstFree(colEnd, start, 0) == FirstFree(colEnd, start, col)
    {
      col := col + 1;
    }
  }

  ghost predicate HasCols(timed: seq<Block>, col: seq<nat>)
    reads timed
  {
    |col| == |timed| && forall i :: 0 <= i < |timed| ==> timed[i].col == col[i]
  }

  method SetFirstCols(timed: seq<Block>, ghost spans: seq<Span>, ghost col: seq<nat>)
    requires Distinct(timed) && HasRanges(timed, spans) && HasCols(timed, col)
    requires forall i :: 0 <= i < |timed| ==> timed[i].cols == 1
    modifies timed
    ensures HasCols(timed, col)
    ensures forall i :: 0 <= i < |timed| ==> timed[i].cols == FirstCols(spans, col)[i]
  {
    for i := 0 to |timed|
      invariant HasCols(timed, col)
      invariant forall k :: 0 <= k < i ==> timed[k].cols == FirstCols(spans, col)[k]
      invariant forall k :: i <= k < |timed| ==> timed[k].cols == 1
    {
      var n := CountOverlapCols(timed, i, spans, col);
      timed[i].cols := Max(timed[i].cols, n);
    }
  }

  method CountOverlapCols(timed: seq<Block>, i: nat, ghost spans: seq<Span>, ghost col: seq<nat>) returns (n: nat)
    requires Distinct(timed) && HasRanges(timed, spans) && HasCols(timed, col) && i < |timed|
    ensures n == OverlapCols(spans, col, i, |timed|)
  {
    var ev := timed[i];
    n := 1;
    for j := 0 to |timed|
      invariant n == OverlapCols(spans, col, i, j)
    {
      var other := timed[j];
      assert SpanOf(other) == spans[j];
      if other == ev {
        continue;
      }
      if other.startMin < ev.endMin && other.endMin > ev.startMin {
        n := Max(n, Max(other.col + 1, ev.col + 1));
      }
    }
  }

  method WidenCols(timed: seq<Block>, ghost spans: seq<Span>, ghost col: seq<nat>)
    requires Distinct(timed) && HasRanges(timed, spans) && HasCols(timed, col)
    requires forall i :: 0 <= i < |timed| ==> timed[i].cols == FirstCols(spans, col)[i]
    modifies timed
    ensures HasCols(timed, col)
    ensures forall i :: 0 <= i < |timed| ==> timed[i].cols == Widened(spans, col, |timed|)[i]
  {
    for i := 0 to |timed|
      invariant HasCols(timed, col)
      invariant forall k :: 0 <= k < |timed| ==> timed[k].cols == Widened(spans, col, i)[k]
    {
      var max := FindWidest(timed, i, spans, col, Widened(spans, col, i));
      timed[i].cols := max;
    }
  }

  method FindWidest(timed: seq<Block>, i: nat, ghost spans: seq<Span>, ghost col: seq<nat>, ghost cols: seq<nat>)
    returns (max: nat)
    requires Distinct(timed) && HasRanges(timed, spans) && HasCols(timed, col) && i < |timed|
    requires |cols| == |timed| && forall k :: 0 <= k < |timed| ==> timed[k].cols == cols[k]
    ensures max == Widest(spans, col, cols, i, |timed|)
  {
    var ev := timed[i];
    max := ev.cols;
    for j := 0 to |timed|
      invariant max == Widest(spans, col, cols, i, j)
    {
      var other := timed[j];
      assert SpanOf(other) == spans[j];
      if other.startMin < ev.endMin && other.endMin > ev.startMin {
        max := Max(max, Max(other.cols, other.col + 1));
      }
    }
  }
}

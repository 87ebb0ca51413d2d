/**
  How wide the week view draws the blocks of a day, told by their times alone.  Blocks form chains of
  overlaps.  The two passes over cols give a block the greatest number of blocks that run at once in
  the part of its chain that two steps reach: through blocks that start before the latest end so far.
 */
module WeekWidths {
  import opened WeekGrid

  /** The latest end among the first n blocks. */
  function Reach(spans: seq<Span>, n: nat): int
    requires n <= |spans|
  {
    if n == 0 then 0 else Max(Reach(spans, n - 1), spans[n - 1].end)
  }

  /** The first block of the chain: the last one so far at whose start all earlier ones have ended. */
  function First(spans: seq<Span>, i: nat): (f: nat)
    requires i < |spans|
    ensures f <= i
  {
    if i == 0 || Reach(spans, i) <= spans[i].start then i else First(spans, i - 1)
  }

  /** The latest end among the first n blocks that start before a time, if it is later. */
  function ReachFrom(spans: seq<Span>, n: nat, t: int): int
    requires n <= |spans|
  {
    if n == 0 then t
    else
      var before := ReachFrom(spans, n - 1, t);
      if spans[n - 1].start < t then Max(before, spans[n - 1].end) else before
  }

  /** Where the part of the chain ends that block i is drawn as wide as. */
  function Horizon(spans: seq<Span>, i: nat): int
    requires i < |spans|
  {
    ReachFrom(spans, |spans|, Reach(spans, i + 1))
  }

  /** The greatest number of blocks that run at once at the start of one of them, from the f-th to before the n-th, that starts before t. */
  function MostAtOnce(spans: seq<Span>, f: nat, n: nat, t: int): nat
    requires n <= |spans|
  {
    if n <= f then 0
    else
      var before, running := MostAtOnce(spans, f, n - 1, t), |Running(spans, spans[n - 1].start)|;
      if spans[n - 1].start < t && running > before then running else before
  }

  /** The closed form of cols. */
  function Width(spans: seq<Span>, i: nat): nat
    requires i < |spans|
  {
    MostAtOnce(spans, First(spans, i), |spans|, Horizon(spans, i))
  }

  predicate IsProper(s: Span) {
    s.start < s.end
  }

  // ----- ends -----

  lemma {:induction false} ReachIs(spans: seq<Span>, n: nat)
    requires n <= |spans|
    ensures forall k :: 0 <= k < n ==> spans[k].end <= Reach(spans, n)
    ensures Reach(spans, n) == 0 || exists k :: 0 <= k < n && spans[k].end == Reach(spans, n)
  {
    if n > 0 {
      ReachIs(spans, n - 1);
    }
  }

  lemma {:induction false} ReachGrows(spans: seq<Span>, m: nat, n: nat)
    requires m <= n <= |spans|
    ensures Reach(spans, m) <= Reach(spans, n)
  {
    if m < n {
      ReachGrows(spans, m, n - 1);
    }
  }

  lemma {:induction false} ReachFromIs(spans: seq<Span>, n: nat, t: int)
    requires n <= |spans|
    ensures var q := ReachFrom(spans, n, t);
            && t <= q
            && (forall k :: 0 <= k < n && spans[k].start < t ==> spans[k].end <= q)
            && (q == t || exists k :: 0 <= k < n && spans[k].start < t && spans[k].end == q)
  {
    if n > 0 {
      ReachFromIs(spans, n - 1, t);
    }
  }

  lemma {:induction false} ReachFromGrows(spans: seq<Span>, n: nat, t: int, u: int)
    requires n <= |spans| && t <= u
    ensures ReachFrom(spans, n, t) <= ReachFrom(spans, n, u)
  {
    if n > 0 {
      ReachFromGrows(spans, n - 1, t, u);
    }
  }

  lemma {:induction false} MostIs(spans: seq<Span>, f: nat, n: nat, t: int)
    requires n <= |spans|
    ensures var most := MostAtOnce(spans, f, n, t);
            && (forall k :: f <= k < n && spans[k].start < t ==> |Running(spans, spans[k].start)| <= most)
            && (most == 0 || exists k :: f <= k < n && spans[k].start < t && |Running(spans, spans[k].start)| == most)
  {
    hide Running;
    if f < n {
      MostIs(spans, f, n - 1, t);
    }
  }

  // ----- chains -----

  /** No block of an earlier chain ends after the first block of this one starts; within it there is no gap. */
  lemma {:induction false} FirstIs(spans: seq<Span>, i: nat)
    requires i < |spans|
    ensures var f := First(spans, i);
            && (f == 0 || Reach(spans, f) <= spans[f].start)
            && (forall k :: f < k <= i ==> Reach(spans, k) > spans[k].start)
  {
    hide Reach;
    if i > 0 && Reach(spans, i) > spans[i].start {
      FirstIs(spans, i - 1);
    }
  }

  /** Within a chain the first block is the same. */
  lemma {:induction false} SameFirst(spans: seq<Span>, i: nat, j: nat)
    requires i <= j < |spans| && forall k :: i < k <= j ==> Reach(spans, k) > spans[k].start
    ensures First(spans, j) == First(spans, i)
  {
    hide Reach;
    if i < j {
      SameFirst(spans, i, j - 1);
    }
  }

  lemma FirstOfPart(spans: seq<Span>, i: nat, k: nat)
    requires i < |spans| && First(spans, i) <= k <= i
    ensures First(spans, k) == First(spans, i)
  {
    hide Reach, First;
    FirstIs(spans, i);
    SameFirst(spans, k, i);
  }

  /** Overlapping blocks belong to one chain. */
  lemma OverlapIsInChain(spans: seq<Span>, i: nat, j: nat)
    requires Sorted(spans) && i <= j < |spans| && Overlap(spans[i], spans[j])
    ensures First(spans, i) == First(spans, j)
  {
    hide Reach, First;
    forall k | i < k <= j ensures Reach(spans, k) > spans[k].start {
      ReachIs(spans, k);
      assert Le(spans[k], spans[j]) || k == j;
    }
    SameFirst(spans, i, j);
  }

  /** Blocks before the chain have ended when it starts. */
  lemma BeforeTheChain(spans: seq<Span>, i: nat, k: nat)
    requires i < |spans| && k < |spans|
    ensures k < First(spans, i) ==> spans[k].end <= spans[First(spans, i)].start
  {
    hide Reach, First;
    FirstIs(spans, i);
    ReachIs(spans, First(spans, i));
  }

  // ----- what the second pass does -----

  /** What the second pass finds at block i: the final cols of earlier blocks, the first ones of later blocks. */
  lemma {:induction false} WidenedAt(spans: seq<Span>, n: nat, j: nat)
    requires n <= |spans| && j < |spans|
    ensures Widened(spans, Assign(spans).col, n)[j] ==
            if j < n then FinalCols(spans)[j] else FirstCols(spans, Assign(spans).col)[j]
  {
    hide Assign, Widest, FirstCols;
    var col := Assign(spans).col;
    if j < n {
      LaterPassesLeave(spans, col, n, |spans|);
      assert FinalCols(spans)[j] == FinalCols(spans)[..n][j] == Widened(spans, col, n)[..n][j];
    } else if n > 0 {
      WidenedAt(spans, n - 1, j);
    }
  }

  /** The cols of block j when block i is widened. */
  function Met(spans: seq<Span>, i: nat, j: nat): nat
    requires i < |spans| && j < |spans|
  {
    if j < i then FinalCols(spans)[j] else FirstCols(spans, Assign(spans).col)[j]
  }

  lemma {:induction false} WidestIs(spans: seq<Span>, col: seq<nat>, cols: seq<nat>, i: nat, n: nat)
    requires |col| == |cols| == |spans| && i < |spans| && n <= |spans|
    ensures var w := Widest(spans, col, cols, i, n);
            && cols[i] <= w
            && (forall j :: 0 <= j < n && Overlap(spans[j], spans[i]) ==> cols[j] <= w && col[j] < w)
            && (w == cols[i] || exists j :: 0 <= j < n && Overlap(spans[j], spans[i]) && (w == cols[j] || w == col[j] + 1))
  {
    hide Overlap;
    if n > 0 {
      WidestIs(spans, col, cols, i, n - 1);
    }
  }

  /** The final cols of a block, from what it met. */
  lemma FinalIs(spans: seq<Span>, i: nat)
    requires i < |spans|
    ensures var (w, col) := (FinalCols(spans)[i], Assign(spans).col);
            && Met(spans, i, i) <= w
            && (forall j :: 0 <= j < |spans| && Overlap(spans[j], spans[i]) ==> Met(spans, i, j) <= w && col[j] < w)
            && (w == Met(spans, i, i) ||
                exists j :: 0 <= j < |spans| && Overlap(spans[j], spans[i]) && (w == Met(spans, i, j) || w == col[j] + 1))
  {
    hide Assign, FirstCols, FinalCols, Overlap;
    var col := Assign(spans).col;
    var before := Widened(spans, col, i);
    WidenedAt(spans, i + 1, i);
    forall j | 0 <= j < |spans| ensures before[j] == Met(spans, i, j) {
      WidenedAt(spans, i, j);
    }
    WidestIs(spans, col, before, i, |spans|);
    assert Widened(spans, col, i + 1)[i] == Widest(spans, col, before, i, |spans|);
  }

  /** The first cols of a block: 1, or one more than the lane of it or of a block it overlaps. */
  lemma FirstColsAre(spans: seq<Span>, col: seq<nat>, i: nat)
    requires |col| == |spans| && i < |spans|
    ensures var w := FirstCols(spans, col)[i];
            && (forall j :: 0 <= j < |spans| && j != i && Overlap(spans[j], spans[i]) ==> col[j] < w && col[i] < w)
            && (w == 1 || exists j :: 0 <= j < |spans| && (j == i || Overlap(spans[j], spans[i])) && w == col[j] + 1)
  {
    OverlapColsIs(spans, col, i, |spans|);
    hide OverlapCols, Overlap;
  }

  // ----- lanes within the horizon -----

  /** A block of the chain from f on that starts before t. */
  predicate Within(spans: seq<Span>, f: nat, t: int, w: int) {
    f <= w < |spans| && spans[w].start < t
  }

  /** No width is without a lane: some block within the horizon has the lane just below it. */
  ghost predicate IsLaneWithin(spans: seq<Span>, f: nat, t: int, w: nat) {
    exists k :: Within(spans, f, t, k) && w <= Assign(spans).col[k] + 1
  }

  lemma LaneWithinGrows(spans: seq<Span>, f: nat, t: int, u: int, w: nat)
    requires IsLaneWithin(spans, f, t, w) && t <= u
    ensures IsLaneWithin(spans, f, u, w)
  {
    hide Assign;
    var k :| Within(spans, f, t, k) && w <= Assign(spans).col[k] + 1;
    assert Within(spans, f, u, k);
  }

  lemma HorizonGrows(spans: seq<Span>, j: nat, i: nat)
    requires j <= i < |spans|
    ensures Horizon(spans, j) <= Horizon(spans, i)
  {
    ReachGrows(spans, j + 1, i + 1);
    ReachFromGrows(spans, |spans|, Reach(spans, j + 1), Reach(spans, i + 1));
  }

  /** The horizon lies after the end of every block that starts before the latest end so far. */
  lemma HorizonIs(spans: seq<Span>, i: nat)
    requires i < |spans|
    ensures var (p, q) := (Reach(spans, i + 1), Horizon(spans, i));
            && p <= q && (forall k :: 0 <= k <= i ==> spans[k].end <= p)
            && (forall k :: 0 <= k < |spans| && spans[k].start < p ==> spans[k].end <= q)
            && (q == p || exists k :: 0 <= k < |spans| && spans[k].start < p && spans[k].end == q)
  {
    hide Reach, ReachFrom;
    ReachIs(spans, i + 1);
    ReachFromIs(spans, |spans|, Reach(spans, i + 1));
  }

  /** A block that overlaps one that starts before the latest end so far is within the horizon. */
  lemma NeighbourIsWithin(spans: seq<Span>, i: nat, j: nat, w: nat)
    requires Sorted(spans) && i < |spans| && j < |spans| && w < |spans|
    requires First(spans, j) == First(spans, i) && spans[j].start < Reach(spans, i + 1) && Overlap(spans[w], spans[j])
    ensures Within(spans, First(spans, i), Horizon(spans, i), w)
  {
    hide Reach, First, Horizon;
    HorizonIs(spans, i);
    if w <= j {
      OverlapIsInChain(spans, w, j);
    } else {
      OverlapIsInChain(spans, j, w);
    }
    FirstIs(spans, w);
  }

  /** What block i meets at a block that starts before the latest end so far is no more than a lane within the horizon. */
  lemma FirstColsWithin(spans: seq<Span>, i: nat, j: nat)
    requires Sorted(spans) && i < |spans| && j < |spans| && IsProper(spans[j])
    requires First(spans, j) == First(spans, i) && spans[j].start < Reach(spans, i + 1)
    ensures IsLaneWithin(spans, First(spans, i), Horizon(spans, i), FirstCols(spans, Assign(spans).col)[j])
  {
    hide Assign, FirstCols, Reach, First, Horizon, Within;
    var col := Assign(spans).col;
    FirstColsAre(spans, col, j);
    var w := FirstCols(spans, col)[j];
    NeighbourIsWithin(spans, i, j, j);
    if k :| 0 <= k < |spans| && (k == j || Overlap(spans[k], spans[j])) && w == col[k] + 1 {
      NeighbourIsWithin(spans, i, j, k);
    }
  }

  /** The final cols are no more than a lane within the horizon. */
  lemma {:induction false} FinalIsWithin(spans: seq<Span>, i: nat)
    requires Sorted(spans) && AreRanges(spans) && i < |spans| && IsProper(spans[i])
    ensures IsLaneWithin(spans, First(spans, i), Horizon(spans, i), FinalCols(spans)[i])
    decreases i
  {
    hide Assign, FirstCols, FinalCols, Reach, First, Horizon, Within, IsLaneWithin;
    FinalIs(spans, i);
    HorizonIs(spans, i);
    FirstColsWithin(spans, i, i);
    var w := FinalCols(spans)[i];
    if w != Met(spans, i, i) {
      var j :| 0 <= j < |spans| && Overlap(spans[j], spans[i]) && (w == Met(spans, i, j) || w == Assign(spans).col[j] + 1);
      NeighbourIsWithin(spans, i, i, j);
      assert IsRange(spans[j]) && IsRange(spans[i]);
      if w == Assign(spans).col[j] + 1 {
        IsLaneIntro(spans, First(spans, i), Horizon(spans, i), w, j);
      } else if j < i {
        OverlapIsInChain(spans, j, i);
        FinalIsWithin(spans, j);
        HorizonGrows(spans, j, i);
        LaneWithinGrows(spans, First(spans, i), Horizon(spans, j), Horizon(spans, i), w);
      } else {
        OverlapIsInChain(spans, i, j);
        FirstColsWithin(spans, i, j);
      }
    }
  }

  lemma IsLaneIntro(spans: seq<Span>, f: nat, t: int, w: nat, k: nat)
    requires k < |spans| && Within(spans, f, t, k) && w <= Assign(spans).col[k] + 1
    ensures IsLaneWithin(spans, f, t, w)
  {
  }

  // ----- the width reaches every lane within the horizon -----

  /** The block that ends last among the first i, if the i-th is not the first of its chain: it overlaps the i-th. */
  lemma Bridge(spans: seq<Span>, i: nat) returns (m: nat)
    requires Sorted(spans) && AreRanges(spans) && i < |spans| && IsProper(spans[i]) && First(spans, i) < i
    ensures First(spans, i) <= m < i && spans[m].end == Reach(spans, i) == Reach(spans, m + 1)
    ensures Overlap(spans[m], spans[i]) && IsProper(spans[m]) && First(spans, m) == First(spans, i)
  {
    hide First, Reach, AreRanges;
    FirstIs(spans, i);
    m := EndsLast(spans, i);
    assert Le(spans[m], spans[i]);
    OverlapIsInChain(spans, m, i);
    FirstIs(spans, m);
  }

  /** Which of the first i blocks ends last, if the next one starts before that. */
  lemma EndsLast(spans: seq<Span>, i: nat) returns (m: nat)
    requires AreRanges(spans) && i < |spans| && Reach(spans, i) > spans[i].start
    ensures m < i && spans[m].end == Reach(spans, i) == Reach(spans, m + 1)
  {
    hide Reach;
    ReachIs(spans, i);
    assert IsRange(spans[i]);
    m :| 0 <= m < i && spans[m].end == Reach(spans, i);
    ReachIs(spans, m + 1);
    ReachGrows(spans, m + 1, i);
  }

  /** The final cols of i are at least the first cols, and more than the lane, of any block of the chain that starts before the latest end so far. */
  lemma {:induction false} FinalReaches(spans: seq<Span>, i: nat, v: nat)
    requires Sorted(spans) && AreRanges(spans) && i < |spans| && IsProper(spans[i])
    requires First(spans, i) <= v < |spans| && IsProper(spans[v]) && spans[v].start < Reach(spans, i + 1)
    ensures FirstCols(spans, Assign(spans).col)[v] <= FinalCols(spans)[i]
    ensures Assign(spans).col[v] < FinalCols(spans)[i]
    decreases i
  {
    hide Assign, FirstCols, FinalCols, First, Reach, AreRanges;
    FinalIs(spans, i);
    ReachStep(spans, i);
    FirstIs(spans, i);
    if First(spans, i) < i && spans[v].start < Reach(spans, i) {
      var m := Bridge(spans, i);
      FinalReaches(spans, m, v);
    } else {
      LaterStartsIn(spans, i, v);
      assert v != i ==> Overlap(spans[v], spans[i]);
    }
  }

  lemma ReachStep(spans: seq<Span>, i: nat)
    requires i < |spans|
    ensures Reach(spans, i + 1) == Max(Reach(spans, i), spans[i].end)
  {
  }

  /** A block that starts before the latest end so far, but not before the latest end before i: it is i or overlaps it. */
  lemma LaterStartsIn(spans: seq<Span>, i: nat, v: nat)
    requires Sorted(spans) && AreRanges(spans) && i < |spans| && IsProper(spans[i])
    requires First(spans, i) <= v < |spans| && IsProper(spans[v]) && spans[v].start < Reach(spans, i + 1)
    requires First(spans, i) == i || spans[v].start >= Reach(spans, i)
    ensures v >= i && Overlap(spans[v], spans[i])
  {
    hide First;
    FirstIs(spans, i);
    ReachStep(spans, i);
    assert IsRange(spans[i]);
    if v < i {
      ReachIs(spans, i);
    } else if v > i {
      assert Le(spans[i], spans[v]);
    }
  }

  /** Every lane of a block within the horizon is below the final cols. */
  lemma LanesAreBelow(spans: seq<Span>, i: nat, w: nat)
    requires Sorted(spans) && AreRanges(spans) && i < |spans| && IsProper(spans[i])
    requires w < |spans| && Within(spans, First(spans, i), Horizon(spans, i), w)
    ensures Assign(spans).col[w] < FinalCols(spans)[i]
  {
    hide Assign, FirstCols, FinalCols, First, Reach, Horizon;
    HorizonIs(spans, i);
    var p, f := Reach(spans, i + 1), First(spans, i);
    EarlyIsProper(spans, i, w);
    if spans[w].start < p {
      FinalReaches(spans, i, w);
    } else {
      var v :| 0 <= v < |spans| && spans[v].start < p && spans[v].end == Horizon(spans, i);
      ChainHolds(spans, i, v);
      assert Overlap(spans[w], spans[v]);
      FirstColsAre(spans, Assign(spans).col, v);
      FinalReaches(spans, i, v);
    }
  }

  /** A block that starts within the horizon is not one at the end of the day. */
  lemma EarlyIsProper(spans: seq<Span>, i: nat, w: nat)
    requires AreRanges(spans) && i < |spans| && w < |spans| && spans[w].start < Horizon(spans, i)
    ensures IsProper(spans[w])
  {
    hide Reach, Horizon;
    HorizonIs(spans, i);
    ReachIs(spans, i + 1);
    assert IsRange(spans[w]);
    assert forall k :: 0 <= k < |spans| ==> IsRange(spans[k]);
  }

  /** A block that ends after the latest end so far belongs to the chain, or comes later. */
  lemma ChainHolds(spans: seq<Span>, i: nat, v: nat)
    requires AreRanges(spans) && Sorted(spans) && i < |spans| && v < |spans| && IsProper(spans[i])
    requires spans[v].end > Reach(spans, i + 1)
    ensures First(spans, i) <= v
  {
    hide Reach, First;
    ReachIs(spans, i + 1);
  }

  // ----- lanes and blocks that run at once -----

  /** When a block gets its lane, all lower lanes are busy. */
  lemma {:induction false} LowerLanesAreBusy(spans: seq<Span>, w: nat, c: nat)
    requires Sorted(spans) && AreRanges(spans) && w < |spans| && c < Assign(spans).col[w]
    ensures Takes(Assign(spans).col, Running(spans, spans[w].start), c)
  {
    hide Assign, AreRanges, Sorted, Takes, Running, LanesAreOrderly, Place;
    var k := |spans| - 1;
    if w < k {
      var front := spans[..k];
      AssignLast(spans);
      Placed(Assign(front), spans[k]);
      assert front[w] == spans[w];
      FrontIsSorted(spans);
      LowerLanesAreBusy(front, w, c);
      RunsToo(spans, Assign(front).col, Assign(spans).col, w, c);
    } else {
      LowerThanLast(spans, c);
    }
  }

  lemma LowerThanLast(spans: seq<Span>, c: nat)
    requires spans != [] && Sorted(spans) && AreRanges(spans) && c < Assign(spans).col[|spans| - 1]
    ensures Takes(Assign(spans).col, Running(spans, spans[|spans| - 1].start), c)
  {
    var k := |spans| - 1;
    var front := spans[..k];
    AssignLast(spans);
    Placed(Assign(front), spans[k]);
    FrontIsSorted(spans);
    AssignIsOrderly(front);
    hide Assign, Place, LanesAreOrderly, AreRanges;
    BusyWhenPlaced(front, Assign(front), spans[k], c);
    var i :| 0 <= i < k && Assign(front).col[i] == c && front[i].end > spans[k].start;
    assert Le(spans[i], spans[k]);
    TakesIntro(Assign(spans).col, Running(spans, spans[k].start), i, c);
  }

  lemma TakesIntro(col: seq<nat>, s: set<int>, i: nat, c: nat)
    requires i in s && i < |col| && col[i] == c
    ensures Takes(col, s, c)
  {
  }

  lemma RunsToo(spans: seq<Span>, front: seq<nat>, col: seq<nat>, w: nat, c: nat)
    requires |col| == |spans| == |front| + 1 && front == col[..|front|] && w < |front|
    requires Takes(front, Running(spans[..|front|], spans[w].start), c)
    ensures Takes(col, Running(spans, spans[w].start), c)
  {
    var i :| i in Running(spans[..|front|], spans[w].start) && 0 <= i < |front| && front[i] == c;
    assert i in Running(spans, spans[w].start) && col[i] == c;
  }

  lemma FrontIsSorted(spans: seq<Span>)
    requires spans != [] && Sorted(spans) && AreRanges(spans)
    ensures Sorted(spans[..|spans| - 1]) && AreRanges(spans[..|spans| - 1])
  {
  }

  lemma BusyWhenPlaced(spans: seq<Span>, l: Lanes, x: Span, c: nat)
    requires |l.col| == |spans| && LanesAreOrderly(spans, l) && c < Place(l, x).col[|spans|]
    ensures exists i :: 0 <= i < |spans| && l.col[i] == c && spans[i].end > x.start
  {
    assert EndsWithBlock(spans, l, c);
    var i :| EndsLane(spans, l, i, c);
    assert spans[i].end == l.ends[c] > x.start;
  }

  /** A block's lane is less than the number of blocks that run at its start. */
  lemma LaneIsRunning(spans: seq<Span>, w: nat)
    requires Sorted(spans) && AreRanges(spans) && w < |spans| && IsProper(spans[w])
    ensures Assign(spans).col[w] < |Running(spans, spans[w].start)|
  {
    hide Assign;
    var col, running := Assign(spans).col, Running(spans, spans[w].start);
    assert w in running;
    forall c | 0 <= c < col[w] + 1 ensures Takes(col, running, c) {
      if c < col[w] {
        LowerLanesAreBusy(spans, w, c);
      }
    }
    Pigeons(col, running, col[w] + 1);
  }

  /** The blocks that run at the start of one within the horizon are no more than the final cols. */
  lemma RunningIsBelow(spans: seq<Span>, i: nat, w: nat)
    requires Sorted(spans) && AreRanges(spans) && i < |spans| && IsProper(spans[i])
    requires w < |spans| && Within(spans, First(spans, i), Horizon(spans, i), w)
    ensures |Running(spans, spans[w].start)| <= FinalCols(spans)[i]
  {
    hide Assign, FinalCols, First, Horizon;
    var col, running := Assign(spans).col, Running(spans, spans[w].start);
    EarlyIsProper(spans, i, w);
    forall k | k in running ensures 0 <= k < |col| && col[k] < FinalCols(spans)[i] {
      RunsInChain(spans, i, w, k);
      LanesAreBelow(spans, i, k);
    }
    forall j, k | j in running && k in running && j != k ensures col[j] != col[k] {
      OverlappingAreApart(spans, j, k);
    }
    Holes(col, running, FinalCols(spans)[i]);
  }

  lemma RunsInChain(spans: seq<Span>, i: nat, w: nat, k: nat)
    requires Sorted(spans) && AreRanges(spans) && i < |spans| && w < |spans| && IsProper(spans[w])
    requires Within(spans, First(spans, i), Horizon(spans, i), w) && k in Running(spans, spans[w].start)
    ensures Within(spans, First(spans, i), Horizon(spans, i), k)
  {
    hide First, Horizon;
    BeforeTheChain(spans, i, k);
    assert w == First(spans, i) || Le(spans[First(spans, i)], spans[w]);
  }

  // ----- the closed form -----

  /** The two passes give a block as many cols as blocks run at once within its horizon, at most. */
  lemma WidthIsClosed(spans: seq<Span>, i: nat)
    requires Sorted(spans) && AreRanges(spans) && i < |spans| && IsProper(spans[i])
    ensures FinalCols(spans)[i] == Width(spans, i)
  {
    hide Assign, FinalCols, First, Horizon, MostAtOnce, Running;
    var f, q, final := First(spans, i), Horizon(spans, i), FinalCols(spans)[i];
    MostIs(spans, f, |spans|, q);
    FinalIsWithin(spans, i);
    var w: int :| Within(spans, f, q, w) && final <= Assign(spans).col[w] + 1;
    EarlyIsProper(spans, i, w);
    LaneIsRunning(spans, w);
    assert final <= Width(spans, i);
    if k :| f <= k < |spans| && spans[k].start < q && |Running(spans, spans[k].start)| == Width(spans, i) {
      RunningIsBelow(spans, i, k);
    }
  }

  /** A block with an empty range, at the end of the day, has one column. */
  lemma EmptyHasOneColumn(spans: seq<Span>, i: nat)
    requires AreRanges(spans) && i < |spans| && !IsProper(spans[i])
    ensures FinalCols(spans)[i] == 1
  {
    hide Assign, FirstCols, FinalCols;
    FinalIs(spans, i);
    FirstColsAre(spans, Assign(spans).col, i);
    forall j | 0 <= j < |spans| ensures !Overlap(spans[j], spans[i]) {
      assert IsRange(spans[j]) && IsRange(spans[i]);
    }
    LateInFirstLane(spans, i);
  }

  predicate AreDrawnOver(a: nat, m: nat, b: nat, n: nat) {
    a < b && m < n && b * m < (a + 1) * n && a * n < (b + 1) * m
  }

  /**
    Exactly when two overlapping blocks are drawn over each other: the later one has the higher lane
    and the greater width, and neither ends left of the other's left edge.
   */
  lemma DrawnOverIff(spans: seq<Span>, i: nat, j: nat)
    requires Sorted(spans) && AreRanges(spans) && i < j < |spans| && Overlap(spans[i], spans[j])
    ensures !DrawnApart(Assign(spans).col[i], FinalCols(spans)[i], Assign(spans).col[j], FinalCols(spans)[j]) <==>
              AreDrawnOver(Assign(spans).col[i], Width(spans, i), Assign(spans).col[j], Width(spans, j))
    ensures Assign(spans).col[i] != Assign(spans).col[j] && Width(spans, i) <= Width(spans, j)
  {
    hide Assign, FinalCols, Width, AreRanges, DrawnApart;
    OverlapIsProper(spans, i, j);
    OverlappingAreApart(spans, i, j);
    WidthIsClosed(spans, i);
    WidthIsClosed(spans, j);
    WidthsDoNotFall(spans, i, j);
    ApartOrOver(Assign(spans).col[i], Width(spans, i), Assign(spans).col[j], Width(spans, j));
  }

  lemma ApartOrOver(a: nat, m: nat, b: nat, n: nat)
    requires a != b && m <= n
    ensures !DrawnApart(a, m, b, n) <==> AreDrawnOver(a, m, b, n)
  {
    if a > b {
      MulMono(b + 1, a, m);
      MulMono(m, n, a);
    } else if m == n {
      MulMono(a + 1, b, n);
    }
  }

  // ----- days on which every chain has one width -----

  ghost predicate OneWidth(spans: seq<Span>) {
    forall i, j :: 0 <= i < |spans| && 0 <= j < |spans| && Overlap(spans[i], spans[j]) ==>
      FinalCols(spans)[i] == FinalCols(spans)[j]
  }

  /** Block w belongs to the chain that starts with f. */
  predicate InChain(spans: seq<Span>, f: nat, w: int) {
    f <= w < |spans| && IsProper(spans[w]) && First(spans, w) == f
  }

  /**
    No more blocks of the chain ever run at once than at the start of some block that starts before
    the end of one that starts before the first one ends.
   */
  ghost predicate PeaksEarly(spans: seq<Span>, f: nat)
    requires f < |spans|
  {
    forall w :: InChain(spans, f, w) ==>
      |Running(spans, spans[w].start)| <= MostAtOnce(spans, f, |spans|, ReachFrom(spans, |spans|, spans[f].end))
  }

  lemma FirstHorizon(spans: seq<Span>, f: nat)
    requires AreRanges(spans) && f < |spans| && First(spans, f) == f && IsProper(spans[f])
    ensures Horizon(spans, f) == ReachFrom(spans, |spans|, spans[f].end)
  {
    hide First, ReachFrom;
    FirstIs(spans, f);
    ReachStep(spans, f);
    assert IsRange(spans[f]);
  }

  /** Blocks within the horizon belong to the chain. */
  lemma WithinIsInChain(spans: seq<Span>, i: nat, k: nat)
    requires Sorted(spans) && AreRanges(spans) && i < |spans| && IsProper(spans[i])
    requires k < |spans| && Within(spans, First(spans, i), Horizon(spans, i), k)
    ensures InChain(spans, First(spans, i), k)
  {
    hide First, Reach, Horizon, AreRanges;
    EarlyIsProper(spans, i, k);
    HorizonIs(spans, i);
    if k <= i {
      FirstOfPart(spans, i, k);
    } else if spans[k].start < Reach(spans, i + 1) {
      StartsInChain(spans, i, k);
    } else {
      var v :| 0 <= v < |spans| && spans[v].start < Reach(spans, i + 1) && spans[v].end == Horizon(spans, i);
      assert v > i;
      StartsInChain(spans, i, v);
      assert Le(spans[k], spans[v]) || Le(spans[v], spans[k]);
      OverlapIsInChain(spans, v, k);
    }
  }

  lemma StartsInChain(spans: seq<Span>, i: nat, k: nat)
    requires Sorted(spans) && i < k < |spans| && spans[k].start < Reach(spans, i + 1)
    ensures First(spans, k) == First(spans, i)
  {
    hide First, Reach;
    forall m | i < m <= k ensures Reach(spans, m) > spans[m].start {
      ReachGrows(spans, i + 1, m);
      assert m == k || Le(spans[m], spans[k]);
    }
    SameFirst(spans, i, k);
  }

  /** If overlapping blocks have one width, a whole chain has. */
  lemma {:induction false} ChainHasOneWidth(spans: seq<Span>, i: nat)
    requires Sorted(spans) && AreRanges(spans) && OneWidth(spans) && i < |spans| && IsProper(spans[i])
    ensures IsProper(spans[First(spans, i)]) && FinalCols(spans)[i] == FinalCols(spans)[First(spans, i)]
    decreases i
  {
    hide First, FinalCols, Reach, AreRanges;
    if First(spans, i) < i {
      var m := Bridge(spans, i);
      ChainHasOneWidth(spans, m);
    }
  }

  /** A block runs at its own start, within its own horizon. */
  lemma OwnRunning(spans: seq<Span>, w: nat)
    requires Sorted(spans) && AreRanges(spans) && w < |spans| && IsProper(spans[w])
    ensures |Running(spans, spans[w].start)| <= FinalCols(spans)[w]
  {
    hide First, Horizon, Reach, FinalCols, Running;
    HorizonIs(spans, w);
    RunningIsBelow(spans, w, w);
  }

  lemma PeakIsWidth(spans: seq<Span>, f: nat)
    requires Sorted(spans) && AreRanges(spans) && f < |spans| && First(spans, f) == f && IsProper(spans[f])
    ensures FinalCols(spans)[f] == MostAtOnce(spans, f, |spans|, ReachFrom(spans, |spans|, spans[f].end))
  {
    hide First, ReachFrom, MostAtOnce, FinalCols;
    WidthIsClosed(spans, f);
    FirstHorizon(spans, f);
  }

  /** In a chain that peaks early every block is as wide as the first one. */
  lemma EarlyPeakIsOneWidth(spans: seq<Span>, i: nat)
    requires Sorted(spans) && AreRanges(spans) && i < |spans| && IsProper(spans[i])
    requires IsProper(spans[First(spans, i)]) && PeaksEarly(spans, First(spans, i))
    ensures FinalCols(spans)[i] == FinalCols(spans)[First(spans, i)]
  {
    hide First, FinalCols, Horizon, MostAtOnce, Running, ReachFrom, AreRanges;
    var f := First(spans, i);
    FirstIs(spans, i);
    FirstOfPart(spans, i, f);
    PeakIsWidth(spans, f);
    WidthIsClosed(spans, i);
    WidthIsClosed(spans, f);
    HorizonGrows(spans, f, i);
    MostIs(spans, f, |spans|, Horizon(spans, i));
    MostIs(spans, f, |spans|, Horizon(spans, f));
    assert FinalCols(spans)[f] <= FinalCols(spans)[i];
    if k :| f <= k < |spans| && spans[k].start < Horizon(spans, i) && |Running(spans, spans[k].start)| == FinalCols(spans)[i] {
      WithinIsInChain(spans, i, k);
    }
  }

  /** The first block of a chain of proper blocks is proper. */
  lemma FirstIsProper(spans: seq<Span>, i: nat)
    requires Sorted(spans) && AreRanges(spans) && i < |spans| && IsProper(spans[i])
    ensures IsProper(spans[First(spans, i)])
  {
    hide First;
    FirstIs(spans, i);
    assert IsRange(spans[First(spans, i)]) && IsRange(spans[i]);
    assert First(spans, i) == i || Le(spans[First(spans, i)], spans[i]);
  }

  /** All overlapping blocks of a day have one width exactly when every chain peaks early. */
  lemma OneWidthIff(spans: seq<Span>)
    requires Sorted(spans) && AreRanges(spans)
    ensures OneWidth(spans) <==>
              forall f :: 0 <= f < |spans| && First(spans, f) == f && IsProper(spans[f]) ==> PeaksEarly(spans, f)
  {
    hide First, FinalCols, Running, MostAtOnce, ReachFrom, AreRanges;
    if OneWidth(spans) {
      forall f | 0 <= f < |spans| && First(spans, f) == f && IsProper(spans[f]) ensures PeaksEarly(spans, f) {
        PeakIsWidth(spans, f);
        forall w | InChain(spans, f, w) ensures |Running(spans, spans[w].start)| <= FinalCols(spans)[f] {
          OwnRunning(spans, w);
          ChainHasOneWidth(spans, w);
        }
      }
    }
    if forall f :: 0 <= f < |spans| && First(spans, f) == f && IsProper(spans[f]) ==> PeaksEarly(spans, f) {
      forall i, j | 0 <= i < |spans| && 0 <= j < |spans| && Overlap(spans[i], spans[j])
        ensures FinalCols(spans)[i] == FinalCols(spans)[j]
      {
        OverlapIsProper(spans, i, j);
        AsWideAsFirst(spans, i);
        AsWideAsFirst(spans, j);
        if i <= j {
          OverlapIsInChain(spans, i, j);
        } else {
          OverlapIsInChain(spans, j, i);
        }
      }
    }
  }

  lemma OverlapIsProper(spans: seq<Span>, i: nat, j: nat)
    requires AreRanges(spans) && i < |spans| && j < |spans| && Overlap(spans[i], spans[j])
    ensures IsProper(spans[i]) && IsProper(spans[j])
  {
    assert IsRange(spans[i]) && IsRange(spans[j]);
  }

  lemma AsWideAsFirst(spans: seq<Span>, i: nat)
    requires Sorted(spans) && AreRanges(spans) && i < |spans| && IsProper(spans[i])
    requires forall f :: 0 <= f < |spans| && First(spans, f) == f && IsProper(spans[f]) ==> PeaksEarly(spans, f)
    ensures FinalCols(spans)[i] == FinalCols(spans)[First(spans, i)]
  {
    hide First, FinalCols, PeaksEarly, AreRanges;
    FirstIsProper(spans, i);
    FirstIs(spans, i);
    FirstOfPart(spans, i, First(spans, i));
    EarlyPeakIsOneWidth(spans, i);
  }
}

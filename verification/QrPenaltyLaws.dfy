/**
  What the penalty means: a sum over maximal runs, blocks of one colour and full five percents off
  balance, the same for a matrix turned or inverted.
 */
module QrPenaltyLaws {
  import opened QrPenalty

  // ----- sums -----

  lemma {:induction false} SumSame(n: nat, f: int -> int, g: int -> int)
    requires forall i :: 0 <= i < n ==> f(i) == g(i)
    ensures Sum(n, f) == Sum(n, g)
  {
    if n > 0 {
      SumSame(n - 1, f, g);
    }
  }

  lemma {:induction false} SumZero(n: nat, f: int -> int)
    requires forall i :: 0 <= i < n ==> f(i) == 0
    ensures Sum(n, f) == 0
  {
    if n > 0 {
      SumZero(n - 1, f);
    }
  }

  lemma {:induction false} SumConst(n: nat, f: int -> int, c: int)
    requires forall i :: 0 <= i < n ==> f(i) == c
    ensures Sum(n, f) == n * c
  {
    if n > 0 {
      SumConst(n - 1, f, c);
      assert n * c == (n - 1) * c + c;
    }
  }

  /** Only one term counts. */
  lemma {:induction false} SumOne(n: nat, f: int -> int, k: nat)
    requires k < n && forall i :: 0 <= i < n && i != k ==> f(i) == 0
    ensures Sum(n, f) == f(k)
  {
    if k == n - 1 {
      SumZero(n - 1, f);
    } else {
      SumOne(n - 1, f, k);
    }
  }

  lemma {:induction false} SumAdd(n: nat, f: int -> int, g: int -> int, both: int -> int)
    requires forall i :: 0 <= i < n ==> both(i) == f(i) + g(i)
    ensures Sum(n, both) == Sum(n, f) + Sum(n, g)
  {
    if n > 0 {
      SumAdd(n - 1, f, g, both);
    }
  }

  function Inner(n: nat, h: (int, int) -> int): int -> int {
    i => Sum(n, j => h(i, j))
  }

  /** A sum over rows of sums over columns may be taken the other way round. */
  lemma {:induction false} SumTurned(m: nat, n: nat, h: (int, int) -> int, turned: (int, int) -> int)
    requires forall i, j :: turned(j, i) == h(i, j)
    ensures Sum(m, Inner(n, h)) == Sum(n, Inner(m, turned))
  {
    if m == 0 {
      SumZero(n, Inner(0, turned));
    } else {
      SumTurned(m - 1, n, h, turned);
      var last := j => h(m - 1, j);
      assert Inner(n, h)(m - 1) == Sum(n, last);
      forall j ensures Inner(m, turned)(j) == Inner(m - 1, turned)(j) + last(j) {
        assert (i => turned(j, i))(m - 1) == last(j);
      }
      SumAdd(n, Inner(m - 1, turned), last, Inner(m, turned));
    }
  }

  // ----- runs, by their bounds -----

  /** The modules from i up to j are of one colour, and no module before or after them can be added. */
  ghost predicate IsMaximalRun(line: Line, i: int, j: int) {
    && 0 <= i < j <= |line| && (forall k :: i <= k < j ==> line[k] == line[i])
    && (i > 0 ==> line[i - 1] != line[i]) && (j < |line| ==> line[j] != line[i])
  }

  ghost function RunValue(line: Line): (int, int) -> int {
    (i, j) => if IsMaximalRun(line, i, j) && j - i >= 5 then j - i - 2 else 0
  }

  ghost function RunsTotal(line: Line): int {
    Sum(|line|, Inner(|line| + 1, RunValue(line)))
  }

  lemma RunsEndOnce(line: Line, i: int, j: int, k: int)
    requires IsMaximalRun(line, i, j) && IsMaximalRun(line, i, k)
    ensures j == k
  {
    if k < j {
      RunHas(line, i, j, k);
    } else if j < k {
      RunHas(line, i, k, j);
    }
  }

  lemma RunHas(line: Line, i: int, j: int, k: int)
    requires IsMaximalRun(line, i, j) && i <= k < j
    ensures line[k] == line[i]
  {
  }

  lemma OneRunFrom(line: Line, i: nat, j: nat)
    requires IsMaximalRun(line, i, j)
    ensures Inner(|line| + 1, RunValue(line))(i) == if j - i >= 5 then j - i - 2 else 0
  {
    var f := k => RunValue(line)(i, k);
    forall k | 0 <= k < |line| + 1 && k != j ensures f(k) == 0 {
      if IsMaximalRun(line, i, k) {
        RunsEndOnce(line, i, j, k);
      }
      assert RunValue(line)(i, k) == 0;
    }
    hide IsMaximalRun;
    SumOne(|line| + 1, f, j);
    SumSame(|line| + 1, f, k => RunValue(line)(i, k));
  }

  lemma NoRunFrom(line: Line, i: nat)
    requires 0 < i < |line| && line[i - 1] == line[i]
    ensures Inner(|line| + 1, RunValue(line))(i) == 0
  {
    var f := k => RunValue(line)(i, k);
    forall k ensures f(k) == 0 {
      assert !IsMaximalRun(line, i, k);
      assert RunValue(line)(i, k) == 0;
    }
    SumZero(|line| + 1, f);
  }

  lemma {:induction false} NoRunsBetween(line: Line, i: nat, j: nat, k: nat)
    requires IsMaximalRun(line, i, j) && i < k <= j
    ensures Sum(k, Inner(|line| + 1, RunValue(line))) == Sum(i + 1, Inner(|line| + 1, RunValue(line)))
  {
    if k > i + 1 {
      NoRunsBetween(line, i, j, k - 1);
      NoRunFrom(line, k - 1);
    }
  }

  /** From the start of a run on, the line scores what the runs that start there are worth. */
  lemma {:induction false} ScoreFrom(line: Line, from: nat)
    requires from <= |line| && (0 < from < |line| ==> line[from - 1] != line[from])
    ensures Sum(|line|, Inner(|line| + 1, RunValue(line))) ==
            Sum(from, Inner(|line| + 1, RunValue(line))) + LineScore(line[from..])
    decreases |line| - from
  {
    if from < |line| {
      var rest := line[from..];
      var next := from + FirstRun(rest);
      forall k | from <= k < next ensures line[k] == line[from] {
        assert rest[k - from] == line[k];
      }
      assert next < |line| ==> rest[next - from] == line[next];
      assert IsMaximalRun(line, from, next);
      assert line[next - 1] == line[from];
      ScoreFrom(line, next);
      OneRunFrom(line, from, next);
      NoRunsBetween(line, from, next, next);
      assert rest[FirstRun(rest)..] == line[next..];
    }
  }

  /** A line scores j - i - 2 for all i and j that are five or more apart and bound a maximal run. */
  lemma LineScoreIsRuns(line: Line)
    ensures LineScore(line) == RunsTotal(line)
  {
    ScoreFrom(line, 0);
    assert line[0..] == line;
  }

  // ----- blocks and dark modules, counted -----

  function Counted(p: (int, int) -> bool): (int, int) -> int {
    (i, j) => if p(i, j) then 1 else 0
  }

  ghost function Places(m: nat, n: nat, p: (int, int) -> bool): set<(int, int)> {
    set i, j | 0 <= i < m && 0 <= j < n && p(i, j) :: (i, j)
  }

  ghost function PlacesInRow(i: int, n: nat, p: (int, int) -> bool): set<(int, int)> {
    set j | 0 <= j < n && p(i, j) :: (i, j)
  }

  lemma {:induction false} CountInRow(n: nat, p: (int, int) -> bool, i: int)
    ensures Inner(n, Counted(p))(i) == |PlacesInRow(i, n, p)|
  {
    if n > 0 {
      CountInRow(n - 1, p, i);
      var before := PlacesInRow(i, n - 1, p);
      SumSame(n - 1, k => Counted(p)(i, k), j => Counted(p)(i, j));
      assert PlacesInRow(i, n, p) == if p(i, n - 1) then before + {(i, n - 1)} else before;
    }
  }

  lemma RowsOfPlaces(m: nat, n: nat, p: (int, int) -> bool)
    ensures Places(m + 1, n, p) == Places(m, n, p) + PlacesInRow(m, n, p)
    ensures Places(m, n, p) !! PlacesInRow(m, n, p)
  {
  }

  lemma SizeOfUnion<T>(a: set<T>, b: set<T>)
    requires a !! b
    ensures |a + b| == |a| + |b|
  {
  }

  /** The double sum counts the places. */
  lemma {:induction false} CountIsSum(m: nat, n: nat, p: (int, int) -> bool)
    ensures Sum(m, Inner(n, Counted(p))) == |Places(m, n, p)|
  {
    hide Places, PlacesInRow;
    if m > 0 {
      CountIsSum(m - 1, n, p);
      CountInRow(n, p, m - 1);
      RowsOfPlaces(m - 1, n, p);
      SizeOfUnion(Places(m - 1, n, p), PlacesInRow(m - 1, n, p));
    } else {
      NoPlaces(n, p);
    }
  }

  lemma NoPlaces(n: nat, p: (int, int) -> bool)
    ensures Places(0, n, p) == {}
  {
  }

  /** The four modules at (y, x), to its right and below are alike. */
  ghost predicate IsOneColour(g: Grid, y: int, x: int)
    requires Square(g)
  {
    && 0 <= y < |g| - 1 && 0 <= x < |g| - 1
    && forall i, j | y <= i <= y + 1 && x <= j <= x + 1 :: g[i][j] == g[y][x]
  }

  ghost function OneColourBlocks(g: Grid): set<(int, int)>
    requires Square(g)
  {
    set y, x | 0 <= y < |g| && 0 <= x < |g| && IsOneColour(g, y, x) :: (y, x)
  }

  ghost function DarkModules(g: Grid): set<(int, int)>
    requires Square(g)
  {
    set y, x | 0 <= y < |g| && 0 <= x < |g| && g[y][x] :: (y, x)
  }

  ghost function BlockTest(g: Grid): (int, int) -> bool
    requires Square(g)
  {
    (y, x) => IsOneColour(g, y, x)
  }

  ghost function DarkTest(g: Grid): (int, int) -> bool
    requires Square(g)
  {
    (y, x) => 0 <= y < |g| && 0 <= x < |g| && g[y][x]
  }

  lemma UniformIsOneColour(g: Grid, y: int, x: int)
    requires Square(g) && 0 <= y < |g| - 1 && 0 <= x < |g| - 1
    ensures UniformBlock(g, y, x) <==> IsOneColour(g, y, x)
  {
    if IsOneColour(g, y, x) {
      assert g[y][x + 1] == g[y][x] && g[y + 1][x] == g[y][x] && g[y + 1][x + 1] == g[y][x];
    }
  }

  lemma {:induction false} SumThrice(n: nat, f: int -> int, g: int -> int)
    requires forall i :: 0 <= i < n ==> g(i) == 3 * f(i)
    ensures Sum(n, g) == 3 * Sum(n, f)
  {
    if n > 0 {
      SumThrice(n - 1, f, g);
    }
  }

  lemma BlocksAreCounted(g: Grid)
    requires Square(g) && g != []
    ensures Sum(|g| - 1, BlockRowScore(g)) == 3 * |OneColourBlocks(g)|
  {
    var n := |g| - 1;
    var p := BlockTest(g);
    forall y | 0 <= y < n ensures BlockRowScore(g)(y) == 3 * Inner(n, Counted(p))(y) {
      var f := x => Counted(p)(y, x);
      forall x | 0 <= x < n ensures BlockScore(g, y)(x) == 3 * f(x) {
        UniformIsOneColour(g, y, x);
        assert Counted(p)(y, x) == if IsOneColour(g, y, x) then 1 else 0;
      }
      SumThrice(n, f, BlockScore(g, y));
      SumSame(n, f, x => Counted(p)(y, x));
    }
    SumThrice(n, Inner(n, Counted(p)), BlockRowScore(g));
    CountIsSum(n, n, p);
    assert Places(n, n, p) == OneColourBlocks(g);
  }

  lemma DarkIsCounted(g: Grid)
    requires Square(g)
    ensures Sum(|g|, DarkInRow(g)) == |DarkModules(g)|
  {
    var n := |g|;
    var p := DarkTest(g);
    forall y | 0 <= y < n ensures DarkInRow(g)(y) == Inner(n, Counted(p))(y) {
      var f := x => Counted(p)(y, x);
      forall x | 0 <= x < n ensures DarkAt(g, y)(x) == f(x) {
        assert Counted(p)(y, x) == if g[y][x] then 1 else 0;
      }
      SumSame(n, f, DarkAt(g, y));
      SumSame(n, f, x => Counted(p)(y, x));
    }
    SumSame(n, DarkInRow(g), Inner(n, Counted(p)));
    CountIsSum(n, n, p);
    assert Places(n, n, p) == DarkModules(g);
  }

  ghost function RunsInRows(g: Grid): int -> int {
    y => if 0 <= y < |g| then RunsTotal(g[y]) else 0
  }

  ghost function RunsInColumns(g: Grid): int -> int
    requires Square(g)
  {
    x => if 0 <= x < |g| then RunsTotal(seq(|g|, y requires 0 <= y < |g| => g[y][x])) else 0
  }

  lemma ImbalanceIs(dark: int, n: int)
    requires n > 0
    ensures var k := Imbalance(dark, n) / 10;
            && Imbalance(dark, n) == 10 * k
            && 5 * k * (n * n) <= Apart(100 * dark, 50 * (n * n)) < 5 * (k + 1) * (n * n)
  {
    var d := dark * 20 - n * n * 10;
    var a, b := if d < 0 then -d else d, n * n;
    Positive(n);
    assert n * n * 10 == b * 10;
    var k := a / b;
    Quotient(a, b);
    assert Imbalance(dark, n) == k * 10;
    assert Apart(100 * dark, 50 * b) == 5 * a;
    FiveTimes(k, b);
  }

  lemma FiveTimes(k: int, b: int)
    ensures 5 * k * b == 5 * (k * b) && 5 * (k + 1) * b == 5 * ((k + 1) * b)
  {
  }

  lemma Positive(n: int)
    requires n > 0
    ensures n * n > 0
  {
  }

  lemma Quotient(a: int, b: int)
    requires b > 0
    ensures a / b * b <= a < (a / b + 1) * b
  {
  }

  function Apart(a: int, b: int): int {
    if a < b then b - a else a - b
  }

  /**
    The penalty in terms of the matrix alone: j - i - 2 for every maximal run from i to j in a row or
    a column, if it is five or longer; 3 for every 2x2 block of one colour; 10 for every full 5 % by
    which the share of dark modules is off 50 %.
   */
  lemma PenaltyIs(g: Grid)
    requires Square(g) && g != []
    ensures var rest := Penalty(g) - Sum(|g|, RunsInRows(g)) - Sum(|g|, RunsInColumns(g)) - 3 * |OneColourBlocks(g)|;
            var (k, all) := (rest / 10, |g| * |g|);
            && rest == 10 * k
            && 5 * k * all <= Apart(100 * |DarkModules(g)|, 50 * all) < 5 * (k + 1) * all
  {
    hide LineScore, Imbalance, RunsTotal, Apart, BlockRowScore, DarkInRow, OneColourBlocks, DarkModules;
    forall y | 0 <= y < |g| ensures RowScore(g)(y) == RunsInRows(g)(y) {
      LineScoreIsRuns(g[y]);
    }
    SumSame(|g|, RowScore(g), RunsInRows(g));
    forall x | 0 <= x < |g| ensures ColumnScore(g)(x) == RunsInColumns(g)(x) {
      LineScoreIsRuns(ColumnLine(g, x));
    }
    SumSame(|g|, ColumnScore(g), RunsInColumns(g));
    BlocksAreCounted(g);
    DarkIsCounted(g);
    ImbalanceIs(|DarkModules(g)|, |g|);
  }

  // ----- turning and inverting the matrix -----

  function Transposed(g: Grid): (t: Grid)
    requires Square(g)
    ensures Square(t) && |t| == |g|
    ensures forall y, x | 0 <= y < |g| && 0 <= x < |g| :: t[y][x] == g[x][y]
  {
    seq(|g|, y requires 0 <= y < |g| => ColumnLine(g, y))
  }

  lemma PlacesTurned(n: nat, p: (int, int) -> bool, q: (int, int) -> bool)
    requires forall i, j :: q(j, i) == p(i, j)
    ensures |Places(n, n, p)| == |Places(n, n, q)|
  {
    CountIsSum(n, n, p);
    CountIsSum(n, n, q);
    SumTurned(n, n, Counted(p), Counted(q));
  }

  lemma TurnedBlock(g: Grid, y: int, x: int)
    requires Square(g) && IsOneColour(g, y, x)
    ensures IsOneColour(Transposed(g), x, y)
  {
    var t := Transposed(g);
    forall i, j | x <= i <= x + 1 && y <= j <= y + 1 ensures t[i][j] == t[x][y] {
      assert g[j][i] == g[y][x];
    }
  }

  lemma TransposedTwice(g: Grid)
    requires Square(g)
    ensures Transposed(Transposed(g)) == g
  {
    var t := Transposed(Transposed(g));
    forall y | 0 <= y < |g| ensures t[y] == g[y] {
    }
  }

  lemma CountsTurned(g: Grid)
    requires Square(g)
    ensures |OneColourBlocks(Transposed(g))| == |OneColourBlocks(g)|
    ensures |DarkModules(Transposed(g))| == |DarkModules(g)|
  {
    var n, t := |g|, Transposed(g);
    forall y, x ensures BlockTest(t)(x, y) == BlockTest(g)(y, x) {
      if IsOneColour(g, y, x) {
        TurnedBlock(g, y, x);
      }
      if IsOneColour(t, x, y) {
        TurnedBlock(t, x, y);
        TransposedTwice(g);
      }
    }
    hide IsOneColour;
    PlacesTurned(n, BlockTest(g), BlockTest(t));
    assert Places(n, n, BlockTest(g)) == OneColourBlocks(g);
    assert Places(n, n, BlockTest(t)) == OneColourBlocks(t);
    PlacesTurned(n, DarkTest(g), DarkTest(t));
    assert Places(n, n, DarkTest(g)) == DarkModules(g);
    assert Places(n, n, DarkTest(t)) == DarkModules(t);
  }

  lemma TurnedLines(g: Grid, i: int)
    requires Square(g) && 0 <= i < |g|
    ensures RowScore(Transposed(g))(i) == ColumnScore(g)(i) && ColumnScore(Transposed(g))(i) == RowScore(g)(i)
  {
    hide LineScore;
    assert ColumnLine(Transposed(g), i) == g[i];
  }

  /** The penalty of a matrix does not change when rows and columns are exchanged. */
  lemma PenaltyTurned(g: Grid)
    requires Square(g) && g != []
    ensures Penalty(Transposed(g)) == Penalty(g)
  {
    hide RowScore, ColumnScore, BlockRowScore, DarkInRow, OneColourBlocks, DarkModules, Imbalance, Transposed;
    var n, t := |g|, Transposed(g);
    forall i | 0 <= i < n ensures RowScore(t)(i) == ColumnScore(g)(i) && ColumnScore(t)(i) == RowScore(g)(i) {
      TurnedLines(g, i);
    }
    SumSame(n, RowScore(t), ColumnScore(g));
    SumSame(n, ColumnScore(t), RowScore(g));
    CountsTurned(g);
    BlocksAreCounted(g);
    BlocksAreCounted(t);
    DarkIsCounted(g);
    DarkIsCounted(t);
  }

  function Negated(line: Line): (n: Line)
    ensures |n| == |line| && forall x | 0 <= x < |line| :: n[x] == !line[x]
  {
    seq(|line|, x requires 0 <= x < |line| => !line[x])
  }

  function Inverted(g: Grid): (v: Grid)
    requires Square(g)
    ensures Square(v) && |v| == |g|
    ensures forall y, x | 0 <= y < |g| && 0 <= x < |g| :: v[y][x] == !g[y][x]
  {
    seq(|g|, y requires 0 <= y < |g| => Negated(g[y]))
  }

  lemma NegatedRun(line: Line, i: int, j: int)
    ensures RunValue(Negated(line))(i, j) == RunValue(line)(i, j)
  {
    assert IsMaximalRun(Negated(line), i, j) <==> IsMaximalRun(line, i, j);
  }

  lemma NegatedInner(line: Line, i: int)
    ensures Inner(|line| + 1, RunValue(Negated(line)))(i) == Inner(|line| + 1, RunValue(line))(i)
  {
    hide RunValue;
    var f, v := j => RunValue(line)(i, j), Negated(line);
    forall j | 0 <= j < |line| + 1 ensures RunValue(v)(i, j) == f(j) {
      NegatedRun(line, i, j);
    }
    SumSame(|line| + 1, f, j => RunValue(line)(i, j));
    SumSame(|line| + 1, f, j => RunValue(v)(i, j));
  }

  lemma NegatedScores(line: Line)
    ensures LineScore(Negated(line)) == LineScore(line)
  {
    hide RunValue, Inner, LineScore, Sum;
    LineScoreIsRuns(line);
    LineScoreIsRuns(Negated(line));
    var f, h := Inner(|line| + 1, RunValue(Negated(line))), Inner(|line| + 1, RunValue(line));
    forall i | 0 <= i < |line| ensures f(i) == h(i) {
      NegatedInner(line, i);
    }
    SumSame(|line|, f, h);
  }

  lemma AllPlaces(n: nat)
    ensures |Places(n, n, (i, j) => true)| == n * n
  {
    var p := (i: int, j: int) => true;
    CountIsSum(n, n, p);
    forall i ensures Inner(n, Counted(p))(i) == n {
      SumConst(n, j => Counted(p)(i, j), 1);
    }
    SumConst(n, Inner(n, Counted(p)), n);
  }

  lemma InvertedCounts(g: Grid)
    requires Square(g)
    ensures OneColourBlocks(Inverted(g)) == OneColourBlocks(g)
    ensures |DarkModules(Inverted(g))| == |g| * |g| - |DarkModules(g)|
  {
    var n, v := |g|, Inverted(g);
    forall y, x | 0 <= y < n && 0 <= x < n ensures IsOneColour(v, y, x) == IsOneColour(g, y, x) {
    }
    AllPlaces(n);
    hide IsOneColour;
    assert Places(n, n, (i, j) => true) == DarkModules(g) + DarkModules(v);
    SizeOfUnion(DarkModules(g), DarkModules(v));
  }

  lemma InvertedLines(g: Grid, i: int)
    requires Square(g) && 0 <= i < |g|
    ensures RowScore(Inverted(g))(i) == RowScore(g)(i) && ColumnScore(Inverted(g))(i) == ColumnScore(g)(i)
  {
    hide LineScore;
    NegatedScores(g[i]);
    NegatedScores(ColumnLine(g, i));
    assert Inverted(g)[i] == Negated(g[i]) && ColumnLine(Inverted(g), i) == Negated(ColumnLine(g, i));
  }

  lemma InvertedImbalance(dark: int, n: int)
    requires n > 0
    ensures Imbalance(n * n - dark, n) == Imbalance(dark, n)
  {
    assert (n * n - dark) * 20 - n * n * 10 == -(dark * 20 - n * n * 10);
  }

  /** Nor does it when dark and light are exchanged. */
  lemma PenaltyInverted(g: Grid)
    requires Square(g) && g != []
    ensures Penalty(Inverted(g)) == Penalty(g)
  {
    hide RowScore, ColumnScore, BlockRowScore, DarkInRow, OneColourBlocks, DarkModules, Imbalance;
    var n, v := |g|, Inverted(g);
    forall i | 0 <= i < n ensures RowScore(v)(i) == RowScore(g)(i) && ColumnScore(v)(i) == ColumnScore(g)(i) {
      InvertedLines(g, i);
    }
    SumSame(n, RowScore(v), RowScore(g));
    SumSame(n, ColumnScore(v), ColumnScore(g));
    InvertedCounts(g);
    BlocksAreCounted(g);
    BlocksAreCounted(v);
    DarkIsCounted(g);
    DarkIsCounted(v);
    InvertedImbalance(|DarkModules(g)|, n);
  }

  // ----- stripes and uniform matrices -----

  function Filled(n: nat, colour: int -> bool): (g: Grid)
    ensures Square(g) && |g| == n && forall y, x | 0 <= y < n && 0 <= x < n :: g[y][x] == colour(x)
  {
    seq(n, y => seq(n, x => colour(x)))
  }

  lemma {:induction false} AlternatingScores(line: Line)
    requires forall i :: 0 < i < |line| ==> line[i] != line[i - 1]
    ensures LineScore(line) == 0
    decreases |line|
  {
    if line != [] {
      assert |line| > 1 ==> line[1] != line[0];
      var rest := line[1..];
      forall i | 0 < i < |rest| ensures rest[i] != rest[i - 1] {
        assert line[i + 1] != line[i];
      }
      AlternatingScores(rest);
    }
  }

  lemma UniformScores(line: Line)
    requires |line| >= 5 && forall i :: 0 <= i < |line| ==> line[i] == line[0]
    ensures LineScore(line) == |line| - 2
  {
    RunEnds(line, |line|);
  }

  lemma {:induction false} EvenOnes(n: nat, f: int -> int)
    requires forall i :: 0 <= i < n ==> f(i) == if i % 2 == 0 then 1 else 0
    ensures Sum(n, f) == (n + 1) / 2
  {
    if n > 0 {
      EvenOnes(n - 1, f);
    }
  }

  lemma StripeRuns(n: nat)
    requires n >= 5
    ensures var g := Filled(n, x => x % 2 == 0);
            Sum(n, RowScore(g)) == 0 && Sum(n, ColumnScore(g)) == n * (n - 2)
  {
    var g := Filled(n, x => x % 2 == 0);
    forall y | 0 <= y < n ensures RowScore(g)(y) == 0 {
      AlternatingScores(g[y]);
    }
    SumZero(n, RowScore(g));
    forall x | 0 <= x < n ensures ColumnScore(g)(x) == n - 2 {
      UniformScores(ColumnLine(g, x));
    }
    SumConst(n, ColumnScore(g), n - 2);
  }

  lemma StripeBlocks(n: nat)
    requires n > 0
    ensures Sum(n - 1, BlockRowScore(Filled(n, x => x % 2 == 0))) == 0
  {
    var g := Filled(n, x => x % 2 == 0);
    hide Filled;
    forall y | 0 <= y < n - 1 ensures BlockRowScore(g)(y) == 0 {
      SumZero(n - 1, BlockScore(g, y));
    }
    SumZero(n - 1, BlockRowScore(g));
  }

  lemma StripeDark(n: nat)
    requires n > 0
    ensures Sum(n, DarkInRow(Filled(n, x => x % 2 == 0))) == n * ((n + 1) / 2)
  {
    var g := Filled(n, x => x % 2 == 0);
    hide Filled;
    forall y | 0 <= y < n ensures DarkInRow(g)(y) == (n + 1) / 2 {
      EvenOnes(n, DarkAt(g, y));
    }
    SumConst(n, DarkInRow(g), (n + 1) / 2);
  }

  /** Vertical stripes, an odd number of them: only the columns score, and the balance in small matrices. */
  lemma PenaltyOfStripes(n: nat)
    requires n >= 5 && n % 2 == 1
    ensures Penalty(Filled(n, x => x % 2 == 0)) == n * (n - 2) + 10 / n * 10
  {
    hide RowScore, ColumnScore, BlockRowScore, DarkInRow, Imbalance;
    StripeRuns(n);
    StripeBlocks(n);
    StripeDark(n);
    HalfIsOver(n);
  }

  lemma HalfIsOver(n: nat)
    requires n > 0 && n % 2 == 1
    ensures Imbalance(n * ((n + 1) / 2), n) == 10 / n * 10
  {
    var h := (n + 1) / 2;
    assert n * h * 20 - n * n * 10 == 10 * n by {
      assert n == 2 * h - 1;
      assert n * h * 20 - n * n * 10 == n * (h * 20 - n * 10);
    }
    Cancel(10, n);
  }

  lemma Cancel(a: nat, n: nat)
    requires n > 0
    ensures (a * n) / (n * n) == a / n
  {
    var q := a / n;
    Quotient(a, n);
    assert q * (n * n) == (q * n) * n && (q + 1) * (n * n) == ((q + 1) * n) * n;
    Between(q * n, a, (q + 1) * n, n);
    QuotientIs(a * n, n * n, q);
  }

  lemma Between(a: int, b: int, c: int, n: int)
    requires a <= b < c && n > 0
    ensures a * n <= b * n < c * n
  {
  }

  lemma QuotientIs(a: int, b: int, q: int)
    requires b > 0 && q * b <= a < (q + 1) * b
    ensures a / b == q
  {
    Quotient(a, b);
    InOrder(a / b + 1, q, b);
    InOrder(q + 1, a / b, b);
  }

  lemma InOrder(a: int, b: int, n: int)
    requires n > 0
    ensures a <= b ==> a * n <= b * n
  {
  }

  lemma OneColourRuns(n: nat, dark: bool)
    requires n >= 5
    ensures var g := Filled(n, x => dark);
            Sum(n, RowScore(g)) == n * (n - 2) && Sum(n, ColumnScore(g)) == n * (n - 2)
  {
    var g := Filled(n, x => dark);
    forall i | 0 <= i < n ensures RowScore(g)(i) == n - 2 && ColumnScore(g)(i) == n - 2 {
      UniformScores(g[i]);
      UniformScores(ColumnLine(g, i));
    }
    SumConst(n, RowScore(g), n - 2);
    SumConst(n, ColumnScore(g), n - 2);
  }

  lemma OneColourCounts(n: nat, dark: bool)
    requires n > 0
    ensures var g := Filled(n, x => dark);
            Sum(n - 1, BlockRowScore(g)) == (n - 1) * ((n - 1) * 3) && Sum(n, DarkInRow(g)) == if dark then n * n else 0
  {
    var g := Filled(n, x => dark);
    forall y | 0 <= y < n - 1 ensures BlockRowScore(g)(y) == (n - 1) * 3 {
      SumConst(n - 1, BlockScore(g, y), 3);
    }
    SumConst(n - 1, BlockRowScore(g), (n - 1) * 3);
    var each := if dark then n else 0;
    forall y | 0 <= y < n ensures DarkInRow(g)(y) == each {
      SumConst(n, DarkAt(g, y), if dark then 1 else 0);
    }
    SumConst(n, DarkInRow(g), each);
  }

  lemma AllOrNothing(n: int)
    requires n > 0
    ensures Imbalance(n * n, n) == 100 == Imbalance(0, n)
  {
    Positive(n);
    QuotientIs(10 * (n * n), n * n, 10);
    assert n * n * 20 - n * n * 10 == 10 * (n * n);
  }

  /** A matrix of one colour scores in every row, column and block, and is as far off balance as can be. */
  lemma PenaltyOfOneColour(n: nat, dark: bool)
    requires n >= 5
    ensures Penalty(Filled(n, x => dark)) == 2 * n * (n - 2) + 3 * (n - 1) * (n - 1) + 100
  {
    hide RowScore, ColumnScore, BlockRowScore, DarkInRow, Imbalance;
    OneColourRuns(n, dark);
    OneColourCounts(n, dark);
    AllOrNothing(n);
    assert (n - 1) * ((n - 1) * 3) == 3 * (n - 1) * (n - 1) && 2 * n * (n - 2) == 2 * (n * (n - 2));
  }
}

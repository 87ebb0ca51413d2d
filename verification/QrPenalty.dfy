/**
  The penalty by which the encoder compares the eight masked matrices: long runs, uniform 2x2
  blocks and the balance of dark and light (ISO/IEC 18004, section 7.8.3; the finder-like pattern
  of that section is not scored by the source).
 */
module QrPenalty {

  type Line = seq<bool>
  type Grid = seq<seq<bool>>

  ghost predicate Square(g: Grid) {
    forall y :: 0 <= y < |g| ==> |g[y]| == |g|
  }

  function Sum(n: nat, term: int -> int): int {
    if n == 0 then 0 else Sum(n - 1, term) + term(n - 1)
  }

  // ----- runs -----

  /** The length of the run of equal modules at the front of the line. */
  function FirstRun(line: Line): (r: nat)
    ensures r <= |line| && (line != [] ==> r > 0)
    ensures forall i :: 0 <= i < r ==> line[i] == line[0]
    ensures r < |line| ==> line[r] != line[0]
  {
    if |line| <= 1 then |line|
    else if line[0] == line[1] then 1 + FirstRun(line[1..])
    else 1
  }

  function RunScore(length: nat): nat {
    if length >= 5 then length - 2 else 0
  }

  /** The line cut into its maximal runs, each run of five or more scoring its length less two. */
  function LineScore(line: Line): nat {
    if line == [] then 0 else
      RunScore(FirstRun(line)) + LineScore(line[FirstRun(line)..])
  }

  lemma RunEnds(line: Line, run: nat)
    requires 0 < run <= |line|
    requires forall i :: 0 <= i < run ==> line[i] == line[0]
    requires run < |line| ==> line[run] != line[0]
    ensures LineScore(line) == RunScore(run) + LineScore(line[run..])
  {
    var r := FirstRun(line);
    assert r == run;
  }

  method ScoreLine(line: Line) returns (s: nat)
    requires line != []
    ensures s == LineScore(line)
  {
    s := 0;
    var run := 1;
    assert line[0..] == line;
    for x := 1 to |line|
      invariant 1 <= run <= x
      invariant forall i :: x - run <= i < x ==> line[i] == line[x - 1]
      invariant LineScore(line) == s + LineScore(line[x - run..])
    {
      if line[x] == line[x - 1] {
        run := run + 1;
      } else {
        RunEnds(line[x - run..], run);
        assert line[x - run..][run..] == line[x..];
        s := s + RunScore(run);
        run := 1;
      }
    }
    RunEnds(line[|line| - run..], run);
    assert line[|line| - run..][run..] == [];
    s := s + RunScore(run);
  }

  // ----- the whole matrix -----

  function RowScore(g: Grid): int -> int {
    y => if 0 <= y < |g| then LineScore(g[y]) else 0
  }

  function ColumnLine(g: Grid, x: int): Line
    requires Square(g) && 0 <= x < |g|
  {
    seq(|g|, y requires 0 <= y < |g| => g[y][x])
  }

  function ColumnScore(g: Grid): int -> int
    requires Square(g)
  {
    x => if 0 <= x < |g| then LineScore(ColumnLine(g, x)) else 0
  }

  /** The 2x2 block with its top left module at (y, x) is of one colour. */
  predicate UniformBlock(g: Grid, y: int, x: int)
    requires Square(g) && 0 <= y < |g| - 1 && 0 <= x < |g| - 1
  {
    g[y][x] == g[y][x + 1] == g[y + 1][x] == g[y + 1][x + 1]
  }

  function BlockScore(g: Grid, y: int): int -> int
    requires Square(g)
  {
    x => if 0 <= y < |g| - 1 && 0 <= x < |g| - 1 && UniformBlock(g, y, x) then 3 else 0
  }

  function BlockRowScore(g: Grid): int -> int
    requires Square(g)
  {
    y => Sum(if g == [] then 0 else |g| - 1, BlockScore(g, y))
  }

  function DarkAt(g: Grid, y: int): int -> int {
    x => if 0 <= y < |g| && 0 <= x < |g[y]| && g[y][x] then 1 else 0
  }

  function DarkInRow(g: Grid): int -> int {
    y => Sum(|g|, DarkAt(g, y))
  }

  function Imbalance(dark: int, n: int): int
    requires n > 0
  {
    var d := dark * 20 - n * n * 10;
    (if d < 0 then -d else d) / (n * n) * 10
  }

  function Penalty(g: Grid): int
    requires Square(g) && g != []
  {
    Sum(|g|, RowScore(g)) + Sum(|g|, ColumnScore(g)) + Sum(|g| - 1, BlockRowScore(g))
      + Imbalance(Sum(|g|, DarkInRow(g)), |g|)
  }

  method ScoreRows(g: Grid) returns (s: int)
    requires Square(g)
    ensures s == Sum(|g|, RowScore(g))
  {
    s := 0;
    for y := 0 to |g|
      invariant s == Sum(y, RowScore(g))
    {
      var line := ScoreLine(g[y]);
      s := s + line;
    }
  }

  method ScoreColumns(g: Grid) returns (s: int)
    requires Square(g)
    ensures s == Sum(|g|, ColumnScore(g))
  {
    s := 0;
    for x := 0 to |g|
      invariant s == Sum(x, ColumnScore(g))
    {
      var line := ScoreLine(ColumnLine(g, x));
      s := s + line;
    }
  }

  method ScoreBlocks(g: Grid) returns (s: int)
    requires Square(g) && g != []
    ensures s == Sum(|g| - 1, BlockRowScore(g))
  {
    s := 0;
    for y := 0 to |g| - 1
      invariant s == Sum(y, BlockRowScore(g))
    {
      var row := 0;
      for x := 0 to |g| - 1
        invariant row == Sum(x, BlockScore(g, y))
      {
        var v := g[y][x];
        if v == g[y][x + 1] && v == g[y + 1][x] && v == g[y + 1][x + 1] {
          row := row + 3;
        }
      }
      s := s + row;
    }
  }

  method CountDark(g: Grid) returns (dark: int)
    requires Square(g)
    ensures dark == Sum(|g|, DarkInRow(g))
  {
    dark := 0;
    for y := 0 to |g|
      invariant dark == Sum(y, DarkInRow(g))
    {
      var row := 0;
      for x := 0 to |g|
        invariant row == Sum(x, DarkAt(g, y))
      {
        row := row + (if g[y][x] then 1 else 0);
      }
      dark := dark + row;
    }
  }

  method ComputePenalty(g: Grid) returns (s: int)
    requires Square(g) && g != []
    ensures s == Penalty(g)
  {
    var rows := ScoreRows(g);
    var columns := ScoreColumns(g);
    var blocks := ScoreBlocks(g);
    var dark := CountDark(g);
    s := rows + columns + blocks + Imbalance(dark, |g|);
  }
}

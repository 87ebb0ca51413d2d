/**
  Where things go in a QR matrix of versions 1 to 6: the reserved modules, the zigzag path of the
  data modules around them, and the masks (ISO/IEC 18004, sections 7.7.3 and 7.8).
 */
module QrLayout {

  /** (row, column) */
  type Cell = (int, int)

  type Version = v: int | 1 <= v <= 6 witness 1

  function Size(version: Version): (size: nat)
    ensures 21 <= size <= 41 && size % 2 == 1
  {
    version * 4 + 17
  }

  // ----- the zigzag path -----

  /** The right column of the p-th strip; the strips step over column 6. */
  function StripX(size: int, p: int): int {
    var x := size - 1 - 2 * p;
    if x > 6 then x else x - 1
  }

  function RowOf(size: int, p: int, i: int): int {
    if p % 2 == 0 then size - 1 - i else i
  }

  function RowCells(size: int, keep: Cell -> bool, p: nat, i: nat): seq<Cell> {
    var right := (RowOf(size, p, i), StripX(size, p));
    var left := (right.0, right.1 - 1);
    (if keep(right) then [right] else []) + (if keep(left) then [left] else [])
  }

  /** The first n rows of the p-th strip, in the order of travel. */
  function StripCells(size: int, keep: Cell -> bool, p: nat, n: nat): seq<Cell> {
    if n == 0 then [] else StripCells(size, keep, p, n - 1) + RowCells(size, keep, p, n - 1)
  }

  /** The first n strips. */
  function ZigZag(size: nat, keep: Cell -> bool, n: nat): seq<Cell> {
    if n == 0 then [] else ZigZag(size, keep, n - 1) + StripCells(size, keep, n - 1, size)
  }

  function Strips(size: nat): nat {
    if size == 0 then 0 else (size - 1) / 2
  }

  /** The kept cells in the order in which the encoder fills them. */
  function Path(size: nat, keep: Cell -> bool): seq<Cell> {
    ZigZag(size, keep, Strips(size))
  }

  /** The strip a column belongs to. */
  function StripOf(size: int, x: int): int {
    if x > 6 then (size - 1 - x) / 2 else (size - 2 - x) / 2
  }

  ghost predicate NoDuplicates(s: seq<Cell>) {
    forall i, j :: 0 <= i < j < |s| ==> s[i] != s[j]
  }

  ghost predicate InStrip(size: int, keep: Cell -> bool, p: nat, n: nat, c: Cell) {
    && 0 <= RowOf(size, p, c.0) < n
    && (c.1 == StripX(size, p) || c.1 == StripX(size, p) - 1)
    && keep(c)
  }

  lemma {:induction false} StripMembers(size: int, keep: Cell -> bool, p: nat, n: nat, c: Cell)
    ensures c in StripCells(size, keep, p, n) <==> InStrip(size, keep, p, n, c)
  {
    if n > 0 {
      StripMembers(size, keep, p, n - 1, c);
    }
  }

  lemma {:induction false} StripDistinct(size: int, keep: Cell -> bool, p: nat, n: nat)
    ensures NoDuplicates(StripCells(size, keep, p, n))
  {
    if n > 0 {
      StripDistinct(size, keep, p, n - 1);
      var before, row := StripCells(size, keep, p, n - 1), RowCells(size, keep, p, n - 1);
      forall c | c in row ensures c !in before {
        StripMembers(size, keep, p, n - 1, c);
      }
      DisjointAppend(before, row);
    }
  }

  lemma DisjointAppend(a: seq<Cell>, b: seq<Cell>)
    requires NoDuplicates(a) && NoDuplicates(b)
    requires forall c :: c in b ==> c !in a
    ensures NoDuplicates(a + b)
  {
    forall i, j | 0 <= i < j < |a + b| ensures (a + b)[i] != (a + b)[j] {
      if i < |a| <= j {
        assert (a + b)[j] in b && (a + b)[i] in a;
      }
    }
  }

  ghost predicate OnPath(size: int, keep: Cell -> bool, n: nat, c: Cell) {
    && 0 <= c.0 < size && 0 <= c.1 < size && c.1 != 6
    && StripOf(size, c.1) < n
    && keep(c)
  }

  lemma StripColumns(size: int, p: int, x: int)
    requires size > 7 && size % 2 == 1 && 0 <= p < Strips(size)
    ensures (x == StripX(size, p) || x == StripX(size, p) - 1) <==>
              0 <= x < size && x != 6 && StripOf(size, x) == p
  {
  }

  lemma StripRows(size: int, p: int, y: int)
    ensures 0 <= RowOf(size, p, y) < size <==> 0 <= y < size
  {
  }

  lemma WholeStripMembers(size: int, keep: Cell -> bool, p: nat, c: Cell)
    requires size > 7 && size % 2 == 1 && p < Strips(size)
    ensures c in StripCells(size, keep, p, size) <==>
              OnPath(size, keep, p + 1, c) && StripOf(size, c.1) == p
  {
    StripMembers(size, keep, p, size, c);
    StripRows(size, p, c.0);
    StripColumns(size, p, c.1);
  }

  lemma {:induction false} ZigZagMembers(size: nat, keep: Cell -> bool, n: nat, c: Cell)
    requires size > 7 && size % 2 == 1 && n <= Strips(size)
    ensures c in ZigZag(size, keep, n) <==> OnPath(size, keep, n, c)
  {
    hide ZigZag, OnPath, StripCells, StripOf;
    if n == 0 {
      NoStrips(size, keep, c);
    } else {
      ZigZagMembers(size, keep, n - 1, c);
      WholeStripMembers(size, keep, n - 1, c);
      OneMoreStrip(size, keep, n, c);
    }
  }

  lemma NoStrips(size: nat, keep: Cell -> bool, c: Cell)
    requires size > 7 && size % 2 == 1
    ensures ZigZag(size, keep, 0) == [] && !OnPath(size, keep, 0, c)
  {
  }

  lemma OneMoreStrip(size: nat, keep: Cell -> bool, n: nat, c: Cell)
    requires n > 0
    ensures ZigZag(size, keep, n) == ZigZag(size, keep, n - 1) + StripCells(size, keep, n - 1, size)
    ensures OnPath(size, keep, n, c) <==> OnPath(size, keep, n - 1, c) || (OnPath(size, keep, n, c) && StripOf(size, c.1) == n - 1)
  {
    hide StripCells, StripOf;
  }

  lemma StripIsNew(size: nat, keep: Cell -> bool, p: nat, c: Cell)
    requires size > 7 && size % 2 == 1 && p < Strips(size)
    requires c in StripCells(size, keep, p, size)
    ensures c !in ZigZag(size, keep, p)
  {
    WholeStripMembers(size, keep, p, c);
    ZigZagMembers(size, keep, p, c);
  }

  lemma NothingTwice()
    ensures NoDuplicates([])
  {
  }

  lemma {:induction false} ZigZagDistinct(size: nat, keep: Cell -> bool, n: nat)
    requires size > 7 && size % 2 == 1 && n <= Strips(size)
    ensures NoDuplicates(ZigZag(size, keep, n))
  {
    hide ZigZag, StripCells, StripOf, NoDuplicates;
    if n == 0 {
      NoStrips(size, keep, (0, 0));
      NothingTwice();
    } else {
      OneMoreStrip(size, keep, n, (0, 0));
      ZigZagDistinct(size, keep, n - 1);
      StripDistinct(size, keep, n - 1, size);
      var before, strip := ZigZag(size, keep, n - 1), StripCells(size, keep, n - 1, size);
      forall c | c in strip ensures c !in before {
        StripIsNew(size, keep, n - 1, c);
      }
      DisjointAppend(before, strip);
    }
  }

  /** The path visits every kept cell outside column 6 exactly once, for any odd size above 7. */
  lemma PathVisitsOnce(size: nat, keep: Cell -> bool)
    requires size > 7 && size % 2 == 1
    ensures NoDuplicates(Path(size, keep))
    ensures forall c: Cell :: c in Path(size, keep) <==>
              0 <= c.0 < size && 0 <= c.1 < size && c.1 != 6 && keep(c)
  {
    ZigZagDistinct(size, keep, Strips(size));
    forall c: Cell
      ensures c in Path(size, keep) <==>
                0 <= c.0 < size && 0 <= c.1 < size && c.1 != 6 && keep(c)
    {
      ZigZagMembers(size, keep, Strips(size), c);
    }
  }

  // ----- the reserved modules -----

  /** Finder corners with their format areas, the two timing lines, the alignment pattern. */
  predicate IsReserved(version: Version, c: Cell) {
    var size := Size(version);
    var (y, x) := c;
    || (y < 9 && x < 9)
    || (y < 9 && x >= size - 8)
    || (y >= size - 8 && x < 9)
    || y == 6 || x == 6
    || (version > 1 && size - 9 <= y <= size - 5 && size - 9 <= x <= size - 5)
  }

  function IsData(version: Version): Cell -> bool {
    (c: Cell) => !IsReserved(version, c)
  }

  /** The modules that carry code bits, in the order of the bits. */
  function DataCells(version: Version): seq<Cell> {
    Path(Size(version), IsData(version))
  }

  /** Every unreserved module of the matrix carries exactly one bit. */
  lemma DataCellsAreTheUnreserved(version: Version)
    ensures NoDuplicates(DataCells(version))
    ensures forall c: Cell :: c in DataCells(version) <==>
              0 <= c.0 < Size(version) && 0 <= c.1 < Size(version) && !IsReserved(version, c)
  {
    PathVisitsOnce(Size(version), IsData(version));
  }

  // ----- how many there are -----

  /** The number of kept cells in rows lo..hi of column x. */
  function Column(keep: Cell -> bool, x: int, lo: int, hi: int): nat
    decreases hi - lo
  {
    if lo >= hi then 0 else Column(keep, x, lo, hi - 1) + (if keep((hi - 1, x)) then 1 else 0)
  }

  lemma {:induction false} ColumnSplit(keep: Cell -> bool, x: int, lo: int, mid: int, hi: int)
    requires lo <= mid <= hi
    ensures Column(keep, x, lo, hi) == Column(keep, x, lo, mid) + Column(keep, x, mid, hi)
    decreases hi - mid
  {
    if mid < hi {
      ColumnSplit(keep, x, lo, mid, hi - 1);
    }
  }

  lemma {:induction false} ColumnUniform(keep: Cell -> bool, x: int, lo: int, hi: int, kept: bool)
    requires lo <= hi && forall y :: lo <= y < hi ==> keep((y, x)) == kept
    ensures Column(keep, x, lo, hi) == if kept then hi - lo else 0
    decreases hi - lo
  {
    if lo < hi {
      ColumnUniform(keep, x, lo, hi - 1, kept);
    }
  }

  lemma {:induction false} StripLength(size: nat, keep: Cell -> bool, p: nat, n: nat)
    requires n <= size
    ensures var x := StripX(size, p);
            |StripCells(size, keep, p, n)| ==
              if p % 2 == 0 then Column(keep, x, size - n, size) + Column(keep, x - 1, size - n, size)
              else Column(keep, x, 0, n) + Column(keep, x - 1, 0, n)
  {
    if n > 0 {
      StripLength(size, keep, p, n - 1);
      var x := StripX(size, p);
      if p % 2 == 0 {
        ColumnSplit(keep, x, size - n, size - n + 1, size);
        ColumnSplit(keep, x - 1, size - n, size - n + 1, size);
      }
    }
  }

  /** The number of data modules in column x. */
  function ColumnCount(version: Version, x: int): int {
    var size := Size(version);
    if x < 9 then size - 17
    else if x < size - 9 then size - 1
    else if x == size - 9 then (if version > 1 then size - 6 else size - 1)
    else if x <= size - 5 && version > 1 then size - 14
    else size - 9
  }

  /** A stretch of rows of one column that is reserved throughout, or not at all. */
  lemma Stretch(version: Version, x: int, lo: int, hi: int, kept: bool)
    requires lo <= hi && forall y :: lo <= y < hi ==> IsReserved(version, (y, x)) != kept
    ensures Column(IsData(version), x, lo, hi) == if kept then hi - lo else 0
  {
    ColumnUniform(IsData(version), x, lo, hi, kept);
  }

  lemma CountLeft(version: Version, x: int)
    requires 0 <= x < 9 && x != 6
    ensures Column(IsData(version), x, 0, Size(version)) == Size(version) - 17
  {
    var size := Size(version);
    Stretch(version, x, 0, 9, false);
    Stretch(version, x, 9, size - 8, true);
    Stretch(version, x, size - 8, size, false);
    ColumnSplit(IsData(version), x, 0, 9, size - 8);
    ColumnSplit(IsData(version), x, 0, size - 8, size);
  }

  lemma TopOfMiddle(version: Version, x: int)
    requires 9 <= x < Size(version) - 8
    ensures Column(IsData(version), x, 0, 9) == 8
  {
    Stretch(version, x, 0, 6, true);
    Stretch(version, x, 6, 7, false);
    Stretch(version, x, 7, 9, true);
    ColumnSplit(IsData(version), x, 0, 6, 7);
    ColumnSplit(IsData(version), x, 0, 7, 9);
  }

  predicate Aligned(version: Version, x: int) {
    version > 1 && Size(version) - 9 <= x <= Size(version) - 5
  }

  lemma BelowNine(version: Version, x: int)
    requires 9 <= x < Size(version)
    ensures Column(IsData(version), x, 9, Size(version)) ==
              Size(version) - 9 - (if Aligned(version, x) then 5 else 0)
  {
    var size := Size(version);
    if Aligned(version, x) {
      Stretch(version, x, 9, size - 9, true);
      Stretch(version, x, size - 9, size - 4, false);
      Stretch(version, x, size - 4, size, true);
      ColumnSplit(IsData(version), x, 9, size - 9, size - 4);
      ColumnSplit(IsData(version), x, 9, size - 4, size);
    } else {
      Stretch(version, x, 9, size, true);
    }
  }

  lemma CountColumn(version: Version, x: int)
    requires 0 <= x < Size(version) && x != 6
    ensures Column(IsData(version), x, 0, Size(version)) == ColumnCount(version, x)
  {
    var size := Size(version);
    if x < 9 {
      CountLeft(version, x);
    } else {
      BelowNine(version, x);
      ColumnSplit(IsData(version), x, 0, 9, size);
      if x < size - 8 {
        TopOfMiddle(version, x);
      } else {
        Stretch(version, x, 0, 9, false);
      }
    }
  }

  /** The number of data modules in the first n strips. */
  function StripsCount(version: Version, n: nat): int {
    var size := Size(version);
    if n == 0 then 0 else
      var x := StripX(size, n - 1);
      StripsCount(version, n - 1) + ColumnCount(version, x) + ColumnCount(version, x - 1)
  }

  lemma StripCount(version: Version, p: nat)
    requires p < Strips(Size(version))
    ensures var x := StripX(Size(version), p);
            |StripCells(Size(version), IsData(version), p, Size(version))|
            == ColumnCount(version, x) + ColumnCount(version, x - 1)
  {
    var x := StripX(Size(version), p);
    StripLength(Size(version), IsData(version), p, Size(version));
    CountColumn(version, x);
    CountColumn(version, x - 1);
  }

  lemma {:induction false} ZigZagLength(version: Version, n: nat)
    requires n <= Strips(Size(version))
    ensures |ZigZag(Size(version), IsData(version), n)| == StripsCount(version, n)
  {
    hide StripX, ColumnCount;
    if n > 0 {
      ZigZagLength(version, n - 1);
      StripCount(version, n - 1);
    }
  }

  function DataModules(version: Version): int {
    [208, 359, 567, 807, 1079, 1383][version - 1]
  }

  lemma DataCellsCount(version: Version)
    ensures |DataCells(version)| == DataModules(version)
  {
    ZigZagLength(version, Strips(Size(version)));
    StripsTotal(version);
  }

  /** Away from the corners and the alignment pattern, a strip misses only the timing row. */
  lemma MiddleStrip(version: Version, n: nat)
    requires 5 < n <= 2 * version + 4
    ensures StripsCount(version, n) == StripsCount(version, n - 1) + (8 * version + 32)
  {
    var x := StripX(Size(version), n - 1);
    assert ColumnCount(version, x) == ColumnCount(version, x - 1) == 4 * version + 16;
  }

  lemma {:induction false} MiddleStrips(version: Version, k: nat)
    requires k <= 2 * version - 1
    ensures StripsCount(version, 5 + k) == StripsCount(version, 5) + k * (8 * version + 32)
  {
    hide StripsCount, ColumnCount, StripX;
    if k > 0 {
      MiddleStrips(version, k - 1);
      MiddleStrip(version, 5 + k);
      assert k * (8 * version + 32) == (k - 1) * (8 * version + 32) + (8 * version + 32);
    }
  }

  lemma FirstStrips(version: Version)
    ensures StripsCount(version, 5) == 40 * version + 96 - (if version > 1 then 25 else 0)
  {
    assert StripsCount(version, 1) == 8 * version + 16;
    assert StripsCount(version, 2) == 16 * version + 32;
    assert StripsCount(version, 3) == 24 * version + 48 - (if version > 1 then 10 else 0);
    assert StripsCount(version, 4) == 32 * version + 64 - (if version > 1 then 20 else 0);
  }

  lemma LastStrip(version: Version, n: nat)
    requires 2 * version + 4 < n <= 2 * version + 8
    ensures StripsCount(version, n) == StripsCount(version, n - 1) + 8 * version
  {
    var x := StripX(Size(version), n - 1);
    assert ColumnCount(version, x) == ColumnCount(version, x - 1) == 4 * version;
  }

  lemma LastStrips(version: Version)
    ensures StripsCount(version, 2 * version + 8) == StripsCount(version, 2 * version + 4) + 32 * version
  {
    var n := 2 * version + 4;
    LastStrip(version, n + 1);
    LastStrip(version, n + 2);
    LastStrip(version, n + 3);
    LastStrip(version, n + 4);
  }

  lemma TotalArithmetic(version: Version, first: int, middle: int)
    requires first == 40 * version + 96 - (if version > 1 then 25 else 0)
    requires middle == first + (2 * version - 1) * (8 * version + 32)
    ensures middle + 32 * version == DataModules(version)
  {
    if version == 1 {
    } else if version == 2 {
    } else if version == 3 {
    } else if version == 4 {
    } else if version == 5 {
    } else {
      assert version == 6;
    }
  }

  lemma UpToLastStrips(version: Version)
    ensures StripsCount(version, 2 * version + 4) + 32 * version == DataModules(version)
  {
    FirstStrips(version);
    MiddleStrips(version, 2 * version - 1);
    var middle := StripsCount(version, 5 + (2 * version - 1));
    assert 5 + (2 * version - 1) == 2 * version + 4;
    TotalArithmetic(version, StripsCount(version, 5), middle);
  }

  lemma StripsTotal(version: Version)
    ensures StripsCount(version, Strips(Size(version))) == DataModules(version)
  {
    UpToLastStrips(version);
    LastStrips(version);
    assert Strips(Size(version)) == 2 * version + 8;
  }
}

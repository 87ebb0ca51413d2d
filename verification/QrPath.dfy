/**
  The order in which the zigzag meets the modules (ISO/IEC 18004, section 7.7.3): pairs of columns
  from the right, column 6 left out; up and down in turn, starting upwards; the right module first.
 */
module QrPath {
  import opened QrLayout

  /** Which pair of columns, from the right, a column belongs to. */
  ghost function PairOf(size: int, x: int): int {
    (size - 1 - if x < 6 then x + 1 else x) / 2
  }

  /** The first of two modules comes first on the zigzag. */
  ghost predicate ComesBefore(size: int, c: Cell, d: Cell) {
    var (p, q) := (PairOf(size, c.1), PairOf(size, d.1));
    || p < q
    || (p == q && c.0 == d.0 && c.1 > d.1)
    || (p == q && if p % 2 == 0 then c.0 > d.0 else c.0 < d.0)
  }

  ghost predicate IsOrdered(size: int, s: seq<Cell>) {
    forall i, j | 0 <= i < j < |s| :: ComesBefore(size, s[i], s[j])
  }

  lemma OrderedAppend(size: int, a: seq<Cell>, b: seq<Cell>)
    requires IsOrdered(size, a) && IsOrdered(size, b)
    requires forall c, d | c in a && d in b :: ComesBefore(size, c, d)
    ensures IsOrdered(size, a + b)
  {
    hide ComesBefore;
    var s := a + b;
    forall i, j | 0 <= i < j < |s| ensures ComesBefore(size, s[i], s[j]) {
      if i < |a| <= j {
        assert s[i] in a && s[j] in b;
      }
    }
  }

  lemma ColumnsOfStrip(size: int, p: int)
    requires size > 7 && size % 2 == 1 && 0 <= p < Strips(size)
    ensures PairOf(size, StripX(size, p)) == p == PairOf(size, StripX(size, p) - 1)
  {
  }

  lemma RowsAreOrdered(size: int, p: int, c: Cell, d: Cell)
    requires size > 7 && size % 2 == 1 && 0 <= p < Strips(size)
    requires c.1 in {StripX(size, p), StripX(size, p) - 1} && d.1 in {StripX(size, p), StripX(size, p) - 1}
    requires RowOf(size, p, c.0) < RowOf(size, p, d.0) || (c.0 == d.0 && c.1 > d.1)
    ensures ComesBefore(size, c, d)
  {
    ColumnsOfStrip(size, p);
    hide PairOf;
  }

  lemma RowOfRow(size: int, p: int, i: int)
    ensures RowOf(size, p, RowOf(size, p, i)) == i
  {
  }

  lemma RowCellsAre(size: int, keep: Cell -> bool, p: nat, i: nat, c: Cell)
    requires c in RowCells(size, keep, p, i)
    ensures c.0 == RowOf(size, p, i) && c.1 in {StripX(size, p), StripX(size, p) - 1}
  {
  }

  lemma {:induction false} StripIsOrdered(size: int, keep: Cell -> bool, p: nat, n: nat)
    requires size > 7 && size % 2 == 1 && p < Strips(size)
    ensures IsOrdered(size, StripCells(size, keep, p, n))
  {
    hide ComesBefore, RowOf, StripX;
    if n > 0 {
      StripIsOrdered(size, keep, p, n - 1);
      var before, row := StripCells(size, keep, p, n - 1), RowCells(size, keep, p, n - 1);
      RowOfRow(size, p, n - 1);
      RowIsOrdered(size, keep, p, n - 1);
      forall c, d | c in before && d in row ensures ComesBefore(size, c, d) {
        StripMembers(size, keep, p, n - 1, c);
        RowCellsAre(size, keep, p, n - 1, d);
        RowsAreOrdered(size, p, c, d);
      }
      OrderedAppend(size, before, row);
    }
  }

  lemma RowIsOrdered(size: int, keep: Cell -> bool, p: nat, i: nat)
    requires size > 7 && size % 2 == 1 && p < Strips(size)
    ensures IsOrdered(size, RowCells(size, keep, p, i))
  {
    var y, x := RowOf(size, p, i), StripX(size, p);
    RowsAreOrdered(size, p, (y, x), (y, x - 1));
    hide ComesBefore, RowOf, StripX;
  }

  lemma {:induction false} ZigZagIsOrdered(size: nat, keep: Cell -> bool, n: nat)
    requires size > 7 && size % 2 == 1 && n <= Strips(size)
    ensures IsOrdered(size, ZigZag(size, keep, n))
  {
    hide ComesBefore, StripCells, OnPath;
    if n > 0 {
      ZigZagIsOrdered(size, keep, n - 1);
      StripIsOrdered(size, keep, n - 1, size);
      var before, strip := ZigZag(size, keep, n - 1), StripCells(size, keep, n - 1, size);
      forall c, d | c in before && d in strip ensures ComesBefore(size, c, d) {
        ZigZagMembers(size, keep, n - 1, c);
        WholeStripMembers(size, keep, n - 1, d);
        LaterPair(size, keep, n, c, d);
      }
      OrderedAppend(size, before, strip);
    }
  }

  lemma LaterPair(size: nat, keep: Cell -> bool, n: nat, c: Cell, d: Cell)
    requires size > 7 && size % 2 == 1 && n > 0
    requires OnPath(size, keep, n - 1, c) && OnPath(size, keep, n, d) && StripOf(size, d.1) == n - 1
    ensures ComesBefore(size, c, d)
  {
  }

  /** The path meets the modules in this order; with `PathVisitsOnce` this determines it. */
  lemma PathIsOrdered(size: nat, keep: Cell -> bool)
    requires size > 7 && size % 2 == 1
    ensures IsOrdered(size, Path(size, keep))
  {
    ZigZagIsOrdered(size, keep, Strips(size));
  }
}

/**
  Drawing the matrix: the function patterns, the reserved map, and the data modules along the zigzag
  path under a mask.
 */
module QrModules {
  import opened QrLayout

  type Mask = m: int | 0 <= m < 8

  predicate InBox(y: int, x: int, top: int, bottom: int, left: int, right: int) {
    top <= y < bottom && left <= x < right
  }

  function AlignmentCentres(version: Version): (s: seq<int>)
    ensures s == if version == 1 then [] else [Size(version) - 7]
  {
    [[], [18], [22], [26], [30], [34]][version - 1]
  }

  // ----- the reserved map -----

  method MarkRow(r: array2<bool>, y: int, left: int, right: int)
    modifies r
    ensures forall i, j :: 0 <= i < r.Length0 && 0 <= j < r.Length1 ==>
              r[i, j] == (old(r[i, j]) || (i == y && left <= j < right))
  {
    var x := left;
    while x < right
      invariant left <= x
      invariant forall i, j :: 0 <= i < r.Length0 && 0 <= j < r.Length1 ==>
                  r[i, j] == (old(r[i, j]) || (i == y && left <= j < x && j < right))
    {
      if 0 <= y < r.Length0 && 0 <= x < r.Length1 {
        r[y, x] := true;
      }
      x := x + 1;
    }
  }

  method MarkBox(r: array2<bool>, top: int, bottom: int, left: int, right: int)
    modifies r
    ensures forall i, j :: 0 <= i < r.Length0 && 0 <= j < r.Length1 ==>
              r[i, j] == (old(r[i, j]) || InBox(i, j, top, bottom, left, right))
  {
    var y := top;
    while y < bottom
      invariant top <= y
      invariant forall i, j :: 0 <= i < r.Length0 && 0 <= j < r.Length1 ==>
                  r[i, j] == (old(r[i, j]) || (i < y && InBox(i, j, top, bottom, left, right)))
    {
      MarkRow(r, y, left, right);
      y := y + 1;
    }
  }

  method Reserved(version: Version) returns (r: array2<bool>)
    ensures fresh(r) && r.Length0 == r.Length1 == Size(version)
    ensures forall y, x :: 0 <= y < Size(version) && 0 <= x < Size(version) ==>
              r[y, x] == IsReserved(version, (y, x))
  {
    var size := Size(version);
    r := new bool[size, size]((y, x) => false);
    MarkBox(r, 0, 9, 0, 9);
    MarkBox(r, 0, 9, size - 8, size);
    MarkBox(r, size - 8, size, 0, 9);
    MarkBox(r, 6, 7, 0, size);
    MarkBox(r, 0, size, 6, 7);
    var centres := AlignmentCentres(version);
    var lines := [6] + centres;
    for i := 0 to |centres|
      invariant forall y, x :: 0 <= y < size && 0 <= x < size ==>
                  r[y, x] == (InCorners(version, y, x) || (i == 1 && InAlignment(version, y, x)))
    {
      for j := 0 to |lines|
        invariant forall y, x :: 0 <= y < size && 0 <= x < size ==>
                    r[y, x] == (InCorners(version, y, x) || (j == 2 && InAlignment(version, y, x)))
      {
        var a, b, far := centres[i], lines[j], size as int - 7;
        if !((a == 6 && b == 6) || (a == 6 && b == far) || (a == far && b == 6)) {
          MarkBox(r, a - 2, a + 3, b - 2, b + 3);
        }
      }
    }
  }

  predicate InCorners(version: Version, y: int, x: int) {
    var size := Size(version);
    || InBox(y, x, 0, 9, 0, 9) || InBox(y, x, 0, 9, size - 8, size)
    || InBox(y, x, size - 8, size, 0, 9) || y == 6 || x == 6
  }

  predicate InAlignment(version: Version, y: int, x: int) {
    var size := Size(version);
    version > 1 && InBox(y, x, size - 9, size - 4, size - 9, size - 4)
  }

  // ----- the function patterns -----

  /** The distance of a module from the centre of a pattern made of square rings. */
  function Ring(y: int, x: int, cy: int, cx: int): nat {
    var dy := if y < cy then cy - y else y - cy;
    var dx := if x < cx then cx - x else x - cx;
    if dy < dx then dx else dy
  }

  /** Dark centre, light ring, dark ring; the light separator is the ring at distance 4. */
  predicate FinderDark(ring: nat) {
    ring <= 1 || ring == 3
  }

  /** The function patterns: three finders, the timing lines, the alignment pattern. */
  predicate PatternDark(version: Version, y: int, x: int) {
    var far := Size(version) - 4;
    if Ring(y, x, 3, 3) <= 4 then FinderDark(Ring(y, x, 3, 3))
    else if Ring(y, x, 3, far) <= 4 then FinderDark(Ring(y, x, 3, far))
    else if Ring(y, x, far, 3) <= 4 then FinderDark(Ring(y, x, far, 3))
    else if y == 6 then x % 2 == 0
    else if x == 6 then y % 2 == 0
    else version > 1 && Ring(y, x, far - 3, far - 3) <= 2 && Ring(y, x, far - 3, far - 3) != 1
  }

  method FinderRow(mod: array2<bool>, r: int, c: int, y: int)
    requires mod.Length0 == mod.Length1 && -1 <= y <= 7
    modifies mod
    ensures forall i, j :: 0 <= i < mod.Length0 && 0 <= j < mod.Length1 ==>
              mod[i, j] == if i == r + y && c - 1 <= j <= c + 7
                           then FinderDark(Ring(i, j, r + 3, c + 3)) else old(mod[i, j])
  {
    for x := -1 to 8
      invariant forall i, j :: 0 <= i < mod.Length0 && 0 <= j < mod.Length1 ==>
                  mod[i, j] == if i == r + y && c - 1 <= j < c + x
                               then FinderDark(Ring(i, j, r + 3, c + 3)) else old(mod[i, j])
    {
      var rr, cc := r + y, c + x;
      if !(rr < 0 || cc < 0 || rr >= mod.Length0 || cc >= mod.Length0) {
        var dark := (0 <= x <= 6 && (y == 0 || y == 6)) || (0 <= y <= 6 && (x == 0 || x == 6))
                    || (2 <= x <= 4 && 2 <= y <= 4);
        assert dark == FinderDark(Ring(rr, cc, r + 3, c + 3));
        mod[rr, cc] := dark;
      }
    }
  }

  method Finder(mod: array2<bool>, r: int, c: int)
    requires mod.Length0 == mod.Length1
    modifies mod
    ensures forall i, j :: 0 <= i < mod.Length0 && 0 <= j < mod.Length1 ==>
              mod[i, j] == if Ring(i, j, r + 3, c + 3) <= 4
                           then FinderDark(Ring(i, j, r + 3, c + 3)) else old(mod[i, j])
  {
    for y := -1 to 8
      invariant forall i, j :: 0 <= i < mod.Length0 && 0 <= j < mod.Length1 ==>
                  mod[i, j] == if i < r + y && Ring(i, j, r + 3, c + 3) <= 4
                               then FinderDark(Ring(i, j, r + 3, c + 3)) else old(mod[i, j])
    {
      FinderRow(mod, r, c, y);
    }
  }

  method AlignmentRow(mod: array2<bool>, r: int, c: int, y: int)
    requires mod.Length0 == mod.Length1 && -2 <= y <= 2
    requires 2 <= r < mod.Length0 - 2 && 2 <= c < mod.Length0 - 2
    modifies mod
    ensures forall i, j :: 0 <= i < mod.Length0 && 0 <= j < mod.Length1 ==>
              mod[i, j] == if i == r + y && c - 2 <= j <= c + 2
                           then Ring(i, j, r, c) != 1 else old(mod[i, j])
  {
    for x := -2 to 3
      invariant forall i, j :: 0 <= i < mod.Length0 && 0 <= j < mod.Length1 ==>
                  mod[i, j] == if i == r + y && c - 2 <= j < c + x
                               then Ring(i, j, r, c) != 1 else old(mod[i, j])
    {
      mod[r + y, c + x] := (x == 0 && y == 0) || x == 2 || x == -2 || y == 2 || y == -2;
    }
  }

  method Alignment(mod: array2<bool>, r: int, c: int)
    requires mod.Length0 == mod.Length1
    requires 2 <= r < mod.Length0 - 2 && 2 <= c < mod.Length0 - 2
    modifies mod
    ensures forall i, j :: 0 <= i < mod.Length0 && 0 <= j < mod.Length1 ==>
              mod[i, j] == if Ring(i, j, r, c) <= 2 then Ring(i, j, r, c) != 1 else old(mod[i, j])
  {
    for y := -2 to 3
      invariant forall i, j :: 0 <= i < mod.Length0 && 0 <= j < mod.Length1 ==>
                  mod[i, j] == if i < r + y && Ring(i, j, r, c) <= 2
                               then Ring(i, j, r, c) != 1 else old(mod[i, j])
    {
      AlignmentRow(mod, r, c, y);
    }
  }

  method Timing(base: array2<bool>)
    requires base.Length0 == base.Length1 >= 21
    modifies base
    ensures forall y, x :: 0 <= y < base.Length0 && 0 <= x < base.Length1 ==>
              base[y, x] == if y == 6 && 8 <= x < base.Length1 - 8 then x % 2 == 0
                            else if x == 6 && 8 <= y < base.Length0 - 8 then y % 2 == 0
                            else old(base[y, x])
  {
    for i := 8 to base.Length0 - 8
      invariant forall y, x :: 0 <= y < base.Length0 && 0 <= x < base.Length1 ==>
                  base[y, x] == if y == 6 && 8 <= x < i then x % 2 == 0
                                else if x == 6 && 8 <= y < i then y % 2 == 0
                                else old(base[y, x])
    {
      base[6, i] := i % 2 == 0;
      base[i, 6] := i % 2 == 0;
    }
  }

  method Alignments(version: Version, base: array2<bool>)
    requires base.Length0 == base.Length1 == Size(version)
    modifies base
    ensures forall y, x :: 0 <= y < base.Length0 && 0 <= x < base.Length1 ==>
              var ring := Ring(y, x, Size(version) - 7, Size(version) - 7);
              base[y, x] == if version > 1 && ring <= 2 then ring != 1 else old(base[y, x])
  {
    var size := Size(version);
    var centres := AlignmentCentres(version);
    var lines := [6] + centres;
    for i := 0 to |centres|
      invariant forall y, x :: 0 <= y < base.Length0 && 0 <= x < base.Length1 ==>
                  var ring := Ring(y, x, size - 7, size - 7);
                  base[y, x] == if i == 1 && ring <= 2 then ring != 1 else old(base[y, x])
    {
      for j := 0 to |lines|
        invariant forall y, x :: 0 <= y < base.Length0 && 0 <= x < base.Length1 ==>
                    var ring := Ring(y, x, size - 7, size - 7);
                    base[y, x] == if j == 2 && ring <= 2 then ring != 1 else old(base[y, x])
      {
        var a, b := centres[i], lines[j];
        if !((a <= 8 && b <= 8) || (a <= 8 && b >= size - 8) || (a >= size - 8 && b <= 8)) {
          Alignment(base, a, b);
        }
      }
    }
  }

  method Finders(mod: array2<bool>)
    requires mod.Length0 == mod.Length1 >= 21
    requires forall y, x :: 0 <= y < mod.Length0 && 0 <= x < mod.Length1 ==> !mod[y, x]
    modifies mod
    ensures forall y, x :: 0 <= y < mod.Length0 && 0 <= x < mod.Length1 ==>
              mod[y, x] == FindersDark(mod.Length0, y, x)
  {
    Finder(mod, 0, 0);
    Finder(mod, 0, mod.Length0 - 7);
    Finder(mod, mod.Length0 - 7, 0);
  }

  predicate FindersDark(size: nat, y: int, x: int) {
    || (Ring(y, x, 3, 3) <= 4 && FinderDark(Ring(y, x, 3, 3)))
    || (Ring(y, x, 3, size - 4) <= 4 && FinderDark(Ring(y, x, 3, size - 4)))
    || (Ring(y, x, size - 4, 3) <= 4 && FinderDark(Ring(y, x, size - 4, 3)))
  }

  method Base(version: Version) returns (base: array2<bool>)
    ensures fresh(base) && base.Length0 == base.Length1 == Size(version)
    ensures forall y, x :: 0 <= y < Size(version) && 0 <= x < Size(version) ==>
              base[y, x] == PatternDark(version, y, x)
  {
    var size := Size(version);
    base := new bool[size, size]((y, x) => false);
    Finders(base);
    Timing(base);
    Alignments(version, base);
  }

  // ----- the data modules -----

  /** The mask conditions of ISO/IEC 18004, table 10, on row y and column x. */
  predicate MaskAt(mask: Mask, y: int, x: int) {
    match mask
    case 0 => (y + x) % 2 == 0
    case 1 => y % 2 == 0
    case 2 => x % 3 == 0
    case 3 => (y + x) % 3 == 0
    case 4 => (y / 2 + x / 3) % 2 == 0
    case 5 => (y * x) % 2 + (y * x) % 3 == 0
    case 6 => ((y * x) % 2 + (y * x) % 3) % 2 == 0
    case _ => ((y + x) % 2 + (y * x) % 3) % 2 == 0
  }

  /** Past the end of the stream the encoder writes zeros. */
  predicate StreamBit(bits: seq<bool>, k: int) {
    0 <= k < |bits| && bits[k]
  }

  ghost predicate Inside(cells: seq<Cell>, size: int) {
    forall k :: 0 <= k < |cells| ==> 0 <= cells[k].0 < size && 0 <= cells[k].1 < size
  }

  /** Bit k of the stream, masked, stands in the k-th of the cells. */
  ghost predicate Carries(mod: array2<bool>, cells: seq<Cell>, bits: seq<bool>, mask: Mask)
    requires mod.Length0 == mod.Length1 && Inside(cells, mod.Length0)
    reads mod
  {
    forall k :: 0 <= k < |cells| ==>
      mod[cells[k].0, cells[k].1] == (StreamBit(bits, k) != MaskAt(mask, cells[k].0, cells[k].1))
  }

  /** No module that the map marks has changed. */
  twostate predicate KeepsReserved(mod: array2<bool>, res: array2<bool>)
    requires mod.Length0 == mod.Length1 == res.Length0 == res.Length1
    reads mod, res
  {
    forall y, x :: 0 <= y < mod.Length0 && 0 <= x < mod.Length1 && res[y, x] ==> mod[y, x] == old(mod[y, x])
  }

  method PlaceBit(mod: array2<bool>, res: array2<bool>, bits: seq<bool>, mask: Mask,
                  y: int, x: int, bi: nat, ghost done: seq<Cell>)
    returns (next: nat, ghost cells: seq<Cell>)
    requires mod.Length0 == mod.Length1 == res.Length0 == res.Length1 && mod != res
    requires 0 <= y < mod.Length0 && 0 <= x < mod.Length0
    requires Inside(done, mod.Length0) && Carries(mod, done, bits, mask) && bi == |done|
    requires (y, x) !in done
    modifies mod
    ensures cells == done + (if res[y, x] then [] else [(y, x)]) && next == |cells|
    ensures Inside(cells, mod.Length0) && Carries(mod, cells, bits, mask)
    ensures KeepsReserved(mod, res)
  {
    next, cells := bi, done;
    if !res[y, x] {
      var bit := if next < |bits| then bits[next] else false;
      next := next + 1;
      if MaskAt(mask, y, x) {
        bit := !bit;
      }
      mod[y, x] := bit;
      cells := cells + [(y, x)];
    }
  }

  /** What the encoder has filled after p strips and i rows of the next. */
  function FilledSoFar(version: Version, p: nat, i: nat): seq<Cell> {
    ZigZag(Size(version), IsData(version), p) + StripCells(Size(version), IsData(version), p, i)
  }

  /** The next row of the strip has not been visited, and lies inside the matrix. */
  lemma RowIsNew(version: Version, p: nat, i: nat, x: int)
    requires p < Strips(Size(version)) && i < Size(version)
    requires x == StripX(Size(version), p) || x == StripX(Size(version), p) - 1
    ensures (RowOf(Size(version), p, i), x) !in FilledSoFar(version, p, i)
    ensures 0 <= x < Size(version)
  {
    var size, keep := Size(version), IsData(version);
    var c := (RowOf(size, p, i), x);
    StripMembers(size, keep, p, i, c);
    StripColumns(size, p, x);
    ZigZagMembers(size, keep, p, c);
  }

  ghost predicate IsReservedMap(res: array2<bool>, version: Version)
    reads res
  {
    && res.Length0 == res.Length1 == Size(version)
    && forall y, x :: 0 <= y < Size(version) && 0 <= x < Size(version) ==>
         res[y, x] == IsReserved(version, (y, x))
  }

  lemma NextRow(version: Version, p: nat, i: nat)
    ensures FilledSoFar(version, p, i + 1) ==
            FilledSoFar(version, p, i) + RowCells(Size(version), IsData(version), p, i)
  {
  }

  /** The cells of the next row, as the reserved map has them. */
  lemma RowOnMap(res: array2<bool>, version: Version, p: nat, i: nat, x: int, y: int)
    requires IsReservedMap(res, version) && 0 <= y < Size(version) && 1 <= x < Size(version)
    requires x == StripX(Size(version), p) && y == RowOf(Size(version), p, i)
    ensures RowCells(Size(version), IsData(version), p, i)
            == (if res[y, x] then [] else [(y, x)]) + (if res[y, x - 1] then [] else [(y, x - 1)])
  {
    assert res[y, x] == IsReserved(version, (y, x));
    assert res[y, x - 1] == IsReserved(version, (y, x - 1));
  }

  lemma RowExtends(res: array2<bool>, version: Version, p: nat, i: nat, x: int, y: int)
    requires IsReservedMap(res, version) && p < Strips(Size(version)) && i < Size(version)
    requires x == StripX(Size(version), p) && y == RowOf(Size(version), p, i)
    ensures 0 <= y < Size(version) && 1 <= x < Size(version)
    ensures (y, x) !in FilledSoFar(version, p, i) && (y, x - 1) !in FilledSoFar(version, p, i)
    ensures FilledSoFar(version, p, i + 1) == FilledSoFar(version, p, i)
              + ((if res[y, x] then [] else [(y, x)]) + (if res[y, x - 1] then [] else [(y, x - 1)]))
  {
    RowIsNew(version, p, i, x);
    RowIsNew(version, p, i, x - 1);
    NextRow(version, p, i);
    RowOnMap(res, version, p, i, x, y);
  }

  lemma StripExtends(version: Version, p: nat)
    ensures FilledSoFar(version, p + 1, 0) == FilledSoFar(version, p, Size(version))
  {
  }

  lemma PathComplete(version: Version)
    ensures FilledSoFar(version, Strips(Size(version)), 0) == DataCells(version)
  {
  }

  ghost predicate Progress(mod: array2<bool>, cells: seq<Cell>, bits: seq<bool>, mask: Mask, bi: nat)
    reads mod
  {
    mod.Length0 == mod.Length1 && Inside(cells, mod.Length0) && Carries(mod, cells, bits, mask) && bi == |cells|
  }

  /** One row of a strip: the right module, then the left one. */
  method FillRow(mod: array2<bool>, res: array2<bool>, bits: seq<bool>, mask: Mask,
                 x: int, y: int, bi: nat, ghost done: seq<Cell>)
    returns (next: nat, ghost cells: seq<Cell>)
    requires mod.Length0 == res.Length0 == res.Length1 && mod != res
    requires 0 <= y < mod.Length0 && 1 <= x < mod.Length0
    requires Progress(mod, done, bits, mask, bi)
    requires (y, x) !in done && (y, x - 1) !in done
    modifies mod
    ensures cells == done + ((if res[y, x] then [] else [(y, x)]) + (if res[y, x - 1] then [] else [(y, x - 1)]))
    ensures Progress(mod, cells, bits, mask, next)
    ensures KeepsReserved(mod, res)
  {
    next, cells := PlaceBit(mod, res, bits, mask, y, x, bi, done);
    next, cells := PlaceBit(mod, res, bits, mask, y, x - 1, next, cells);
  }

  method FillStrip(mod: array2<bool>, res: array2<bool>, version: Version, bits: seq<bool>, mask: Mask,
                   x: int, dir: int, bi: nat, ghost p: nat, ghost done: seq<Cell>)
    returns (next: nat, ghost cells: seq<Cell>)
    requires IsReservedMap(res, version) && mod.Length0 == Size(version) && mod != res
    requires p < Strips(Size(version)) && done == FilledSoFar(version, p, 0)
    requires x == StripX(Size(version), p) && dir == Direction(p)
    requires Progress(mod, done, bits, mask, bi)
    modifies mod
    ensures cells == FilledSoFar(version, p, Size(version))
    ensures Progress(mod, cells, bits, mask, next)
    ensures KeepsReserved(mod, res)
  {
    var size := Size(version);
    next, cells := bi, done;
    for i := 0 to size
      invariant cells == FilledSoFar(version, p, i)
      invariant Progress(mod, cells, bits, mask, next)
      invariant KeepsReserved(mod, res)
    {
      var y := if dir < 0 then size - 1 - i else i;
      RowExtends(res, version, p, i, x, y);
      next, cells := FillRow(mod, res, bits, mask, x, y, next, cells);
    }
  }

  /** Upwards is negative. */
  function Direction(p: int): int {
    if p % 2 == 0 then -1 else 1
  }

  lemma DirectionFlips(p: int)
    ensures Direction(p + 1) == -Direction(p)
  {
  }

  /** The column counter of the zigzag loop as it enters strip p. */
  function LoopX(size: int, p: int): int {
    if size - 1 - 2 * p >= 6 then size - 1 - 2 * p else size - 2 - 2 * p
  }

  lemma LoopColumns(size: nat, p: nat)
    requires size > 7 && size % 2 == 1 && p <= Strips(size)
    ensures LoopX(size, p) > 0 <==> p < Strips(size)
    ensures var x := if LoopX(size, p) == 6 then 5 else LoopX(size, p);
            x == StripX(size, p) && x - 2 == LoopX(size, p + 1)
  {
  }

  /** The zigzag loop: afterwards the data cells carry the stream and no other module has changed. */
  method Fill(mod: array2<bool>, res: array2<bool>, version: Version, bits: seq<bool>, mask: Mask)
    requires IsReservedMap(res, version) && mod.Length0 == mod.Length1 == Size(version) && mod != res
    modifies mod
    ensures Inside(DataCells(version), Size(version))
    ensures Carries(mod, DataCells(version), bits, mask)
    ensures KeepsReserved(mod, res)
  {
    hide LoopX, StripX, Direction;
    var size := Size(version);
    var bi := 0;
    var dir := Direction(0);
    var x: int := size - 1;
    ghost var p: nat, cells := 0, [];
    assert x == LoopX(size, 0) by {
      FirstLoopX(size);
    }
    while x > 0
      invariant 0 <= p <= Strips(size) && x == LoopX(size, p)
      invariant dir == Direction(p)
      invariant cells == FilledSoFar(version, p, 0)
      invariant Progress(mod, cells, bits, mask, bi)
      invariant KeepsReserved(mod, res)
      decreases x
    {
      LoopColumns(size, p);
      if x == 6 {
        x := x - 1;
      }
      bi, cells := FillStrip(mod, res, version, bits, mask, x, dir, bi, p, cells);
      StripExtends(version, p);
      DirectionFlips(p);
      dir := -dir;
      x := x - 2;
      p := p + 1;
    }
    LoopColumns(size, p);
    PathComplete(version);
  }

  lemma FirstLoopX(size: nat)
    requires size > 7
    ensures LoopX(size, 0) == size - 1
  {
  }
}

/**
  Format information: fifteen bits that name the error correction level and the mask, written
  twice beside the finders (ISO/IEC 18004, section 7.9).  Words are read most significant bit first.
 */
module QrFormat {
  import opened Polynomials
  import opened QrBits
  import opened QrLayout
  import opened QrModules

  const F2: Field<bool> := Field(false, true, (a: bool, b: bool) => a != b, (a: bool, b: bool) => a && b)

  /** 10100110111 */
  function Generator(): (g: seq<bool>)
    ensures |g| == 11 && g[0]
  {
    [true, false, true, false, false, true, true, false, true, true, true]
  }

  /** 101010000010010 */
  function Pattern(): (p: seq<bool>)
    ensures |p| == 15
  {
    [true, false, true, false, true, false, false, false, false, false, true, false, false, true, false]
  }

  /** Level L is 01; three bits of mask follow. */
  function LevelAndMask(mask: Mask): (b: seq<bool>)
    ensures |b| == 5
  {
    Bits(8 + mask, 5)
  }

  /** Cancel the bit at place i with the generator shifted under it. */
  function Cancel(d: seq<bool>, i: nat): (r: seq<bool>)
    requires |d| == 15 && i < 5
    ensures |r| == 15
  {
    if d[i] then seq(15, k requires 0 <= k < 15 => d[k] != (i <= k < i + 11 && Generator()[k - i])) else d
  }

  function Divide(d: seq<bool>, n: nat): (r: seq<bool>)
    requires |d| == 15 && n <= 5
    ensures |r| == 15
  {
    if n == 0 then d else Cancel(Divide(d, n - 1), n - 1)
  }

  /** The BCH word before the fixed pattern is laid over it. */
  function CodeOf(mask: Mask): (c: seq<bool>)
    ensures |c| == 15
  {
    LevelAndMask(mask) + Divide(LevelAndMask(mask) + ZeroBits(10), 5)[5..]
  }

  function FormatWord(mask: Mask): (w: seq<bool>)
    ensures |w| == 15
  {
    Add(F2, CodeOf(mask), Pattern())
  }

  method FormatBits(mask: Mask) returns (word: seq<bool>)
    ensures word == FormatWord(mask)
  {
    var bits := LevelAndMask(mask);
    var d := bits + ZeroBits(10);
    for i := 0 to 5
      invariant d == Divide(bits + ZeroBits(10), i)
    {
      if d[i] {
        d := Cancel(d, i);
      }
    }
    word := Add(F2, bits + d[5..], Pattern());
  }

  // ----- the word is a codeword -----

  /** Bits already cancelled, as a multiple of the generator. */
  function Cancelled(d: seq<bool>, n: nat): (q: seq<bool>)
    requires |d| == 15 && n <= 5
    ensures |q| == n
  {
    if n == 0 then [] else Cancelled(d, n - 1) + [Divide(d, n - 1)[n - 1]]
  }

  /** One more bit is cancelled, and the multiple takes up what is taken away. */
  lemma CancelStep(before: seq<bool>, multiple: seq<bool>, n: nat)
    requires |before| == 15 && 1 <= n <= 5 && |multiple| == n + 9
    ensures var after := Cancel(before, n - 1);
            var more := AddTail(F2, multiple + [false], Scale(F2, before[n - 1], Generator()));
            && !after[n - 1] && after[..n - 1] == before[..n - 1]
            && Add(F2, more + ZeroBits(5 - n), after) == Add(F2, multiple + ZeroBits(6 - n), before)
  {
    var after := Cancel(before, n - 1);
    var more := AddTail(F2, multiple + [false], Scale(F2, before[n - 1], Generator()));
    var left, right := Add(F2, more + ZeroBits(5 - n), after), Add(F2, multiple + ZeroBits(6 - n), before);
    forall k | 0 <= k < 15 ensures left[k] == right[k] {
      assert k < n + 10 ==>
          more[k] == ((multiple + [false])[k] != (n - 1 <= k && before[n - 1] && Generator()[k - n + 1]));
      assert after[k] == (before[k] != (before[n - 1] && n - 1 <= k < n + 10 && Generator()[k - n + 1]));
    }
  }

  lemma {:induction false} DivisionInvariant(d: seq<bool>, n: nat)
    requires |d| == 15 && n <= 5
    ensures forall k :: 0 <= k < n ==> !Divide(d, n)[k]
    ensures Add(F2, Times(F2, Cancelled(d, n), Generator()) + ZeroBits(5 - n), Divide(d, n)) == d
  {
    if n > 0 {
      hide Cancel, Generator, Add, AddTail, Scale;
      DivisionInvariant(d, n - 1);
      var q, before := Cancelled(d, n), Divide(d, n - 1);
      assert q == Cancelled(d, n - 1) + [before[n - 1]];
      assert q[..n - 1] == Cancelled(d, n - 1);
      CancelStep(before, Times(F2, Cancelled(d, n - 1), Generator()), n);
      forall k | 0 <= k < n - 1 ensures Divide(d, n)[k] == before[k] {
        assert Divide(d, n)[..n - 1][k] == before[..n - 1][k];
      }
    } else {
      NothingCancelled(d);
    }
  }

  lemma NothingCancelled(d: seq<bool>)
    requires |d| == 15
    ensures Add(F2, Times(F2, [], Generator()) + ZeroBits(5), d) == d
  {
  }

  /** The format word without its pattern starts with level and mask and is a multiple of the BCH generator. */
  lemma CodeIsMultiple(mask: Mask)
    ensures CodeOf(mask)[..5] == LevelAndMask(mask)
    ensures CodeOf(mask) ==
            Times(F2, Cancelled(LevelAndMask(mask) + ZeroBits(10), 5), Generator())
  {
    var d := LevelAndMask(mask) + ZeroBits(10);
    DivisionInvariant(d, 5);
    var t := Times(F2, Cancelled(d, 5), Generator());
    assert t + ZeroBits(0) == t;
    forall k | 0 <= k < 15 ensures CodeOf(mask)[k] == t[k] {
      assert Add(F2, t, Divide(d, 5))[k] == d[k];
    }
  }

  // ----- where it is written -----

  /** The first copy of bit i, counted from the least significant: down column 8. */
  function FirstCopy(size: int, i: int): Cell {
    if i < 6 then (i, 8) else if i < 8 then (i + 1, 8) else (size - 15 + i, 8)
  }

  /** The second copy: along row 8. */
  function SecondCopy(size: int, i: int): Cell {
    if i < 8 then (8, size - 1 - i) else if i == 8 then (8, 7) else (8, 14 - i)
  }

  predicate IsFormatCell(size: int, c: Cell) {
    || (c.1 == 8 && (0 <= c.0 < 6 || c.0 == 7 || c.0 == 8 || size - 8 <= c.0 < size))
    || (c.0 == 8 && (0 <= c.1 < 6 || c.1 == 7 || size - 8 <= c.1 < size))
  }

  ghost predicate HasFormat(mod: array2<bool>, word: seq<bool>)
    requires mod.Length0 == mod.Length1 >= 21 && |word| == 15
    reads mod
  {
    var size := mod.Length0;
    && mod[size - 8, 8]
    && forall i :: 0 <= i < 15 ==>
         && mod[FirstCopy(size, i).0, FirstCopy(size, i).1] == word[14 - i]
         && mod[SecondCopy(size, i).0, SecondCopy(size, i).1] == word[14 - i]
  }

  /** Which bit of the word a format module shows; 15 for the module that is always dark. */
  function BitIndex(size: int, y: int, x: int): int {
    if x == 8 && y != 8 then
      if y < 6 then y else if y == 7 then 6 else y - size + 15 + (if y == size - 8 then 8 else 0)
    else if x == 8 then 7
    else if x >= size - 8 then size - 1 - x
    else if x == 7 then 8
    else 14 - x
  }

  lemma CopiesHaveIndex(size: int, i: int)
    requires size >= 21 && 0 <= i < 15
    ensures var c := FirstCopy(size, i); IsFormatCell(size, c) && BitIndex(size, c.0, c.1) == i
    ensures var c := SecondCopy(size, i); IsFormatCell(size, c) && BitIndex(size, c.0, c.1) == i
  {
  }

  lemma IndexHasCopies(size: int, y: int, x: int)
    requires size >= 21 && IsFormatCell(size, (y, x)) && 0 <= BitIndex(size, y, x) < 15
    ensures var i := BitIndex(size, y, x); (y, x) == FirstCopy(size, i) || (y, x) == SecondCopy(size, i)
  {
  }

  lemma Copies(size: int, i: int, y: int, x: int)
    requires size >= 21 && 0 <= i < 15
    ensures (y, x) == FirstCopy(size, i) || (y, x) == SecondCopy(size, i) <==>
            IsFormatCell(size, (y, x)) && BitIndex(size, y, x) == i
  {
    CopiesHaveIndex(size, i);
    if IsFormatCell(size, (y, x)) && BitIndex(size, y, x) == i {
      IndexHasCopies(size, y, x);
    }
  }

  method PlaceBothCopies(mod: array2<bool>, i: int, bit: bool)
    requires mod.Length0 == mod.Length1 >= 21 && 0 <= i < 15
    modifies mod
    ensures forall y, x :: 0 <= y < mod.Length0 && 0 <= x < mod.Length0 ==>
              mod[y, x] == if IsFormatCell(mod.Length0, (y, x)) && BitIndex(mod.Length0, y, x) == i
                           then bit else old(mod[y, x])
  {
    var size := mod.Length0;
    if i < 6 {
      mod[i, 8] := bit;
    } else if i < 8 {
      mod[i + 1, 8] := bit;
    } else {
      mod[size - 15 + i, 8] := bit;
    }
    if i < 8 {
      mod[8, size - 1 - i] := bit;
    } else if i == 8 {
      mod[8, 7] := bit;
    } else {
      mod[8, 14 - i] := bit;
    }
    forall y, x | 0 <= y < size && 0 <= x < size
      ensures mod[y, x] == if IsFormatCell(size, (y, x)) && BitIndex(size, y, x) == i
                           then bit else old(mod[y, x])
    {
      Copies(size, i, y, x);
    }
  }

  method PlaceWord(mod: array2<bool>, word: seq<bool>)
    requires mod.Length0 == mod.Length1 >= 21 && |word| == 15
    modifies mod
    ensures forall y, x :: 0 <= y < mod.Length0 && 0 <= x < mod.Length0 ==>
              mod[y, x] == if IsFormatCell(mod.Length0, (y, x)) && 0 <= BitIndex(mod.Length0, y, x) < 15
                           then word[14 - BitIndex(mod.Length0, y, x)] else old(mod[y, x])
  {
    for i := 0 to 15
      invariant forall y, x :: 0 <= y < mod.Length0 && 0 <= x < mod.Length0 ==>
                  mod[y, x] == if IsFormatCell(mod.Length0, (y, x)) && 0 <= BitIndex(mod.Length0, y, x) < i
                               then word[14 - BitIndex(mod.Length0, y, x)] else old(mod[y, x])
    {
      PlaceBothCopies(mod, i, word[14 - i]);
    }
  }

  lemma WordIsShown(mod: array2<bool>, word: seq<bool>)
    requires mod.Length0 == mod.Length1 >= 21 && |word| == 15 && mod[mod.Length0 - 8, 8]
    requires forall y, x | 0 <= y < mod.Length0 && 0 <= x < mod.Length0 ::
               IsFormatCell(mod.Length0, (y, x)) && 0 <= BitIndex(mod.Length0, y, x) < 15 ==>
                 mod[y, x] == word[14 - BitIndex(mod.Length0, y, x)]
    ensures HasFormat(mod, word)
  {
    forall i | 0 <= i < 15
      ensures mod[FirstCopy(mod.Length0, i).0, FirstCopy(mod.Length0, i).1] == word[14 - i]
      ensures mod[SecondCopy(mod.Length0, i).0, SecondCopy(mod.Length0, i).1] == word[14 - i]
    {
      CopiesHaveIndex(mod.Length0, i);
    }
  }

  method PlaceFormat(mod: array2<bool>, mask: Mask)
    requires mod.Length0 == mod.Length1 >= 21
    modifies mod
    ensures HasFormat(mod, FormatWord(mask))
    ensures forall y, x :: 0 <= y < mod.Length0 && 0 <= x < mod.Length0 && !IsFormatCell(mod.Length0, (y, x)) ==>
              mod[y, x] == old(mod[y, x])
  {
    var word := FormatBits(mask);
    PlaceWord(mod, word);
    mod[mod.Length0 - 8, 8] := true;
    WordIsShown(mod, word);
  }

  lemma FormatCellsAreReserved(version: Version, c: Cell)
    requires IsFormatCell(Size(version), c)
    ensures IsReserved(version, c)
  {
  }

  // ----- reading it back -----

  /** The three mask bits of a word, with the pattern taken off. */
  function MaskOf(b12: bool, b11: bool, b10: bool): Mask {
    (if b12 then 0 else 4) + (if b11 then 2 else 0) + (if b10 then 0 else 1)
  }

  lemma LowThreeBits(v: nat)
    ensures var b := Bits(v, 5);
            b[4] == (v % 2 == 1) && b[3] == (v / 2 % 2 == 1) && b[2] == (v / 2 / 2 % 2 == 1)
  {
    assert Bits(v, 5) == Bits(v / 2, 4) + [v % 2 == 1];
    assert Bits(v / 2, 4) == Bits(v / 2 / 2, 3) + [v / 2 % 2 == 1];
    assert Bits(v / 2 / 2, 3) == Bits(v / 2 / 2 / 2, 2) + [v / 2 / 2 % 2 == 1];
  }

  lemma MaskReadsBack(mask: Mask)
    ensures var w := FormatWord(mask); MaskOf(w[2], w[3], w[4]) == mask
  {
    LowThreeBits(8 + mask);
    var b, w := LevelAndMask(mask), FormatWord(mask);
    assert CodeOf(mask)[..5] == b;
    assert w[2] != b[2] && w[3] == b[3] && w[4] != b[4];
  }

  // ----- what the word names -----

  /** The word names level L, which is 01, and then the mask in binary. */
  lemma WordNamesLevelAndMask(mask: Mask)
    ensures var c := CodeOf(mask);
            c[..2] == [false, true] && Value(c[2..5]) == mask
            && (forall k | 0 <= k < 15 :: FormatWord(mask)[k] == (c[k] != Pattern()[k]))
  {
    var b := LevelAndMask(mask);
    hide Divide, Pattern;
    assert CodeOf(mask)[..5] == b;
    assert CodeOf(mask)[2..5] == b[2..] && CodeOf(mask)[..2] == b[..2];
    LevelBits(mask);
  }

  lemma LevelBits(mask: Mask)
    ensures LevelAndMask(mask)[..2] == [false, true] && Value(LevelAndMask(mask)[2..]) == mask
  {
    var low := Bits(mask, 3);
    BitsOfValue(low);
    assert Exp2(3) == 2 * Exp2(2) && Exp2(2) == 2 * Exp2(1);
    ValueOfBits(mask, 3);
    var all := [false, true] + low;
    ValueOfAll(low);
    BitsOfValue(all);
    assert LevelAndMask(mask) == all;
  }

  lemma {:induction false} ValueOfAll(low: seq<bool>)
    ensures Value([false, true] + low) == Exp2(|low|) + Value(low)
  {
    var all := [false, true] + low;
    if low == [] {
      assert all[..1][..0] == [] && all == [false, true];
    } else {
      ValueOfAll(low[..|low| - 1]);
      assert all[..|all| - 1] == [false, true] + low[..|low| - 1];
    }
  }

  /** The generator is x^10 + x^8 + x^5 + x^4 + x^2 + x + 1, and the pattern x^14 + x^12 + x^10 + x^4 + x. */
  lemma GeneratorAndPattern(k: nat)
    ensures k <= 10 ==> (Generator()[10 - k] <==> k in {10, 8, 5, 4, 2, 1, 0})
    ensures k <= 14 ==> (Pattern()[14 - k] <==> k in {14, 12, 10, 4, 1})
  {
  }
}

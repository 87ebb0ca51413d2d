/**
  The whole encoder: the matrix it returns is determined module by module, carries the least
  penalty of the eight masks, and reads back as the text that went in.
 */
module QrSymbol {
  import opened Gf256
  import opened QrBits
  import opened QrLayout
  import opened QrPenalty
  import opened QrModules
  import opened QrFormat
  import opened QrCode
  import opened Wrappers

  function Snapshot(m: array2<bool>): (g: Grid)
    reads m
    ensures |g| == m.Length0
    ensures forall y :: 0 <= y < m.Length0 ==> |g[y]| == m.Length1
    ensures forall y, x :: 0 <= y < m.Length0 && 0 <= x < m.Length1 ==> g[y][x] == m[y, x]
  {
    seq(m.Length0, y requires 0 <= y < m.Length0 reads m =>
      seq(m.Length1, x requires 0 <= x < m.Length1 reads m => m[y, x]))
  }

  // ----- what a symbol is -----

  ghost predicate SquareOf(g: Grid, size: nat) {
    |g| == size && Square(g)
  }

  predicate At(g: Grid, c: Cell) {
    0 <= c.0 < |g| && 0 <= c.1 < |g[c.0]| && g[c.0][c.1]
  }

  ghost predicate ShowsStream(g: Grid, version: Version, bits: seq<bool>, mask: Mask) {
    forall k :: 0 <= k < |DataCells(version)| ==>
      var c := DataCells(version)[k];
      At(g, c) == (StreamBit(bits, k) != MaskAt(mask, c.0, c.1))
  }

  ghost predicate ShowsFormat(g: Grid, mask: Mask) {
    && At(g, (|g| - 8, 8))
    && forall i :: 0 <= i < 15 ==>
         At(g, FirstCopy(|g|, i)) == At(g, SecondCopy(|g|, i)) == FormatWord(mask)[14 - i]
  }

  ghost predicate ShowsPatterns(g: Grid, version: Version) {
    forall y, x :: 0 <= y < |g| && 0 <= x < |g| && IsReserved(version, (y, x)) && !IsFormatCell(|g|, (y, x)) ==>
      At(g, (y, x)) == PatternDark(version, y, x)
  }

  /** The symbol of this version that carries the bits under the mask. */
  ghost predicate IsSymbol(g: Grid, version: Version, bits: seq<bool>, mask: Mask) {
    && SquareOf(g, Size(version))
    && ShowsStream(g, version, bits, mask)
    && ShowsFormat(g, mask)
    && ShowsPatterns(g, version)
  }

  lemma SameModule(g: Grid, h: Grid, version: Version, bits: seq<bool>, mask: Mask, c: Cell)
    requires IsSymbol(g, version, bits, mask) && IsSymbol(h, version, bits, mask)
    requires 0 <= c.0 < Size(version) && 0 <= c.1 < Size(version)
    ensures At(g, c) == At(h, c)
  {
    var size := Size(version);
    if !IsReserved(version, c) {
      DataCellsAreTheUnreserved(version);
      assert c in DataCells(version);
      var k :| 0 <= k < |DataCells(version)| && DataCells(version)[k] == c;
    } else if IsFormatCell(size, c) {
      if BitIndex(size, c.0, c.1) < 15 {
        IndexHasCopies(size, c.0, c.1);
      } else {
        assert c == (size - 8, 8);
      }
    } else {
      assert c == (c.0, c.1);
    }
  }

  /** Version, stream and mask leave no module of the symbol open. */
  lemma SymbolIsDetermined(g: Grid, h: Grid, version: Version, bits: seq<bool>, mask: Mask)
    requires IsSymbol(g, version, bits, mask) && IsSymbol(h, version, bits, mask)
    ensures g == h
  {
    forall y | 0 <= y < |g| ensures g[y] == h[y] {
      forall x | 0 <= x < |g[y]| ensures g[y][x] == h[y][x] {
        SameModule(g, h, version, bits, mask, (y, x));
        assert At(g, (y, x)) == g[y][x] && At(h, (y, x)) == h[y][x];
      }
    }
  }

  // ----- drawing one -----

  /** Writing the format modules over a filled matrix leaves the stream and the patterns alone. */
  lemma FormatKeepsTheRest(filled: Grid, g: Grid, version: Version, bits: seq<bool>, mask: Mask)
    requires SquareOf(filled, Size(version)) && SquareOf(g, Size(version))
    requires ShowsStream(filled, version, bits, mask) && ShowsPatterns(filled, version)
    requires ShowsFormat(g, mask)
    requires forall y, x :: 0 <= y < |g| && 0 <= x < |g| && !IsFormatCell(|g|, (y, x)) ==>
               g[y][x] == filled[y][x]
    ensures IsSymbol(g, version, bits, mask)
  {
    var cells := DataCells(version);
    forall k | 0 <= k < |cells|
      ensures At(g, cells[k]) == (StreamBit(bits, k) != MaskAt(mask, cells[k].0, cells[k].1))
    {
      var c := cells[k];
      DataCellsAreTheUnreserved(version);
      assert c in cells;
      if IsFormatCell(|g|, c) {
        FormatCellsAreReserved(version, c);
      }
      assert At(g, c) == At(filled, c);
    }
  }

  lemma SnapshotShowsStream(mod: array2<bool>, version: Version, bits: seq<bool>, mask: Mask)
    requires mod.Length0 == mod.Length1 == Size(version) && Inside(DataCells(version), Size(version))
    requires Carries(mod, DataCells(version), bits, mask)
    ensures ShowsStream(Snapshot(mod), version, bits, mask)
  {
  }

  lemma SnapshotShowsFormat(mod: array2<bool>, mask: Mask)
    requires mod.Length0 == mod.Length1 >= 21 && HasFormat(mod, FormatWord(mask))
    ensures ShowsFormat(Snapshot(mod), mask)
  {
    var g, size := Snapshot(mod), mod.Length0;
    forall i | 0 <= i < 15
      ensures At(g, FirstCopy(size, i)) == At(g, SecondCopy(size, i)) == FormatWord(mask)[14 - i]
    {
      CopiesHaveIndex(size, i);
    }
  }

  method Draw(base: array2<bool>, res: array2<bool>, version: Version, bits: seq<bool>, mask: Mask)
    returns (mod: array2<bool>)
    requires base.Length0 == base.Length1 == Size(version) && IsReservedMap(res, version)
    requires forall y, x :: 0 <= y < Size(version) && 0 <= x < Size(version) ==>
               base[y, x] == PatternDark(version, y, x)
    ensures fresh(mod) && mod.Length0 == mod.Length1 == Size(version)
    ensures IsSymbol(Snapshot(mod), version, bits, mask)
  {
    var size := Size(version);
    mod := new bool[size, size]((y, x) reads base requires 0 <= y < size && 0 <= x < size => base[y, x]);
    Fill(mod, res, version, bits, mask);
    ghost var filled := Snapshot(mod);
    SnapshotShowsStream(mod, version, bits, mask);
    assert ShowsPatterns(filled, version);
    PlaceFormat(mod, mask);
    SnapshotShowsFormat(mod, mask);
    FormatKeepsTheRest(filled, Snapshot(mod), version, bits, mask);
  }

  /** The bits of the code, then zeros for the remainder. */
  function Stream(version: Version, code: seq<Byte>): seq<bool> {
    ByteBits(code) + ZeroBits(RemainderBits(version))
  }

  method StreamBits(version: Version, code: seq<Byte>) returns (bits: seq<bool>)
    ensures bits == Stream(version, code)
  {
    bits := [];
    assert code[..0] == [];
    for b := 0 to |code|
      invariant bits == ByteBits(code[..b])
    {
      ghost var before := bits;
      var i := 8;
      while i > 0
        invariant 0 <= i <= 8
        invariant bits == before + Bits(code[b], 8)[..8 - i]
      {
        i := i - 1;
        BitAt(code[b], 8, i);
        bits := bits + [Shr(code[b], i) % 2 == 1];
      }
      assert Bits(code[b], 8)[..8] == Bits(code[b], 8);
      ByteBitsNext(code, b);
    }
    assert code[..|code|] == code;
    ghost var all := bits;
    for i := 0 to RemainderBits(version)
      invariant bits == all + ZeroBits(i)
    {
      bits := bits + [false];
    }
  }

  // ----- the least penalty -----

  /** The symbol of the first mask whose penalty no other mask beats. */
  ghost predicate IsBest(g: Grid, version: Version, bits: seq<bool>, mask: Mask) {
    && IsSymbol(g, version, bits, mask)
    && forall m: Mask, h: Grid :: IsSymbol(h, version, bits, m) ==>
         Penalty(g) <= Penalty(h) && (m < mask ==> Penalty(g) < Penalty(h))
  }

  /** The symbols of the first masks, and the first of those with the least penalty. */
  ghost predicate Ranked(drawn: seq<Grid>, version: Version, bits: seq<bool>, chosen: nat) {
    && chosen < |drawn| <= 8
    && (forall m :: 0 <= m < |drawn| ==> IsSymbol(drawn[m], version, bits, m))
    && (forall m :: 0 <= m < |drawn| ==> Penalty(drawn[chosen]) <= Penalty(drawn[m]))
    && (forall m :: 0 <= m < chosen ==> Penalty(drawn[chosen]) < Penalty(drawn[m]))
  }

  lemma RankNext(drawn: seq<Grid>, g: Grid, version: Version, bits: seq<bool>, chosen: nat)
    requires Ranked(drawn, version, bits, chosen) && |drawn| < 8
    requires IsSymbol(g, version, bits, |drawn|)
    ensures Ranked(drawn + [g], version, bits,
                   if Penalty(g) < Penalty(drawn[chosen]) then |drawn| else chosen)
  {
  }

  lemma RankedIsBest(drawn: seq<Grid>, version: Version, bits: seq<bool>, chosen: nat)
    requires Ranked(drawn, version, bits, chosen) && |drawn| == 8
    ensures IsBest(drawn[chosen], version, bits, chosen)
  {
    forall m: Mask, h: Grid | IsSymbol(h, version, bits, m)
      ensures Penalty(drawn[chosen]) <= Penalty(h)
      ensures m < chosen ==> Penalty(drawn[chosen]) < Penalty(h)
    {
      SymbolIsDetermined(h, drawn[m], version, bits, m);
    }
  }

  method BestOfEight(base: array2<bool>, res: array2<bool>, version: Version, bits: seq<bool>)
    returns (best: array2<bool>, ghost chosen: Mask)
    requires base.Length0 == base.Length1 == Size(version) && IsReservedMap(res, version)
    requires forall y, x :: 0 <= y < Size(version) && 0 <= x < Size(version) ==>
               base[y, x] == PatternDark(version, y, x)
    ensures fresh(best) && best.Length0 == best.Length1 == Size(version)
    ensures IsBest(Snapshot(best), version, bits, chosen)
  {
    hide IsSymbol, Penalty;
    best := Draw(base, res, version, bits, 0);
    SymbolIsSquare(Snapshot(best), version, bits, 0);
    var bestScore := ComputePenalty(Snapshot(best));
    chosen := 0;
    ghost var drawn: seq<Grid> := [Snapshot(best)];
    for mask := 1 to 8
      invariant fresh(best) && best.Length0 == best.Length1 == Size(version)
      invariant |drawn| == mask && Ranked(drawn, version, bits, chosen)
      invariant drawn[chosen] == Snapshot(best) && bestScore == Penalty(drawn[chosen])
    {
      var mod := Draw(base, res, version, bits, mask);
      ghost var g := Snapshot(mod);
      SymbolIsSquare(g, version, bits, mask);
      var score := ComputePenalty(Snapshot(mod));
      RankNext(drawn, g, version, bits, chosen);
      drawn := drawn + [g];
      if score < bestScore {
        bestScore := score;
        best := mod;
        chosen := mask;
      }
    }
    RankedIsBest(drawn, version, bits, chosen);
  }

  lemma SymbolIsSquare(g: Grid, version: Version, bits: seq<bool>, mask: Mask)
    requires IsSymbol(g, version, bits, mask)
    ensures SquareOf(g, Size(version))
  {
  }

  // ----- reading a symbol -----

  /** The version whose size this is. */
  function VersionOf(size: nat): Option<Version> {
    if 21 <= size <= 41 && size % 4 == 1 then Some((size - 17) / 4) else None
  }

  /** The mask bits of the first format copy. */
  function ReadMask(g: Grid): Mask {
    MaskOf(At(g, FirstCopy(|g|, 12)), At(g, FirstCopy(|g|, 11)), At(g, FirstCopy(|g|, 10)))
  }

  function ReadModules(g: Grid, cells: seq<Cell>, mask: Mask): (bits: seq<bool>)
    ensures |bits| == |cells|
  {
    seq(|cells|, k requires 0 <= k < |cells| => At(g, cells[k]) != MaskAt(mask, cells[k].0, cells[k].1))
  }

  /** The codewords along the zigzag path, with the mask named in the format bits removed. */
  function ReadCode(g: Grid, version: Version): (code: seq<Byte>)
    ensures |code| == CodeLength(version)
  {
    ModulesMatchBits(version);
    ToBytes(ReadModules(g, DataCells(version), ReadMask(g)), CodeLength(version))
  }

  function Decode(g: Grid): Option<seq<Byte>> {
    match VersionOf(|g|)
    case None => None
    case Some(version) => ParseSegment(DataOf(version, ReadCode(g, version)))
  }

  lemma MaskIsRead(g: Grid, version: Version, bits: seq<bool>, mask: Mask)
    requires IsSymbol(g, version, bits, mask)
    ensures ReadMask(g) == mask
  {
    MaskReadsBack(mask);
    var w := FormatWord(mask);
    assert At(g, FirstCopy(|g|, 12)) == w[14 - 12];
    assert At(g, FirstCopy(|g|, 11)) == w[14 - 11];
    assert At(g, FirstCopy(|g|, 10)) == w[14 - 10];
  }

  /** Whatever the mask, the code comes back off the symbol. */
  lemma CodeIsRead(g: Grid, version: Version, code: seq<Byte>, mask: Mask)
    requires |code| == CodeLength(version) && IsSymbol(g, version, Stream(version, code), mask)
    ensures ReadCode(g, version) == code
  {
    MaskIsRead(g, version, Stream(version, code), mask);
    ModulesMatchBits(version);
    var cells := DataCells(version);
    var bits := ReadModules(g, cells, mask);
    forall k | 0 <= k < |cells| ensures bits[k] == Stream(version, code)[k] {
      assert At(g, cells[k]) == (StreamBit(Stream(version, code), k) != MaskAt(mask, cells[k].0, cells[k].1));
    }
    assert bits == Stream(version, code);
    ToBytesPrefix(code, ZeroBits(RemainderBits(version)));
  }

  lemma VersionIsRead(version: Version)
    ensures VersionOf(Size(version)) == Some(version)
  {
  }

  // ----- the theorem -----

  /** A symbol of the text: its data codewords hold the text, every block checks, its mask is best. */
  ghost predicate EncodesText(g: Grid, version: Version, codewords: seq<Byte>, text: seq<Byte>, mask: Mask) {
    && |text| + 4 <= |codewords| == Capacity(version)
    && ByteBits(codewords) == SegmentBits(text, Capacity(version))
    && IsBest(g, version, Stream(version, CodeWords(version, codewords)), mask)
  }

  lemma DecodeUndoesEncode(g: Grid, version: Version, codewords: seq<Byte>, text: seq<Byte>, mask: Mask)
    requires EncodesText(g, version, codewords, text, mask)
    ensures Decode(g) == Some(text)
    ensures BlocksAreCodewords(version, ReadCode(g, version))
  {
    var code := CodeWords(version, codewords);
    CodeIsRead(g, version, code, mask);
    VersionIsRead(version);
    DataComesBack(version, codewords);
    CodeWordsAreCodewords(version, codewords);
    SegmentReadsBack(codewords, text);
  }

  method QrMatrix(t: Tables, text: seq<Byte>)
    returns (r: Result<array2<bool>, string>, ghost codewords: seq<Byte>, ghost mask: Mask)
    requires t.Valid()
    ensures r.Err? <==> |text| > MAX_TEXT
    ensures r.Ok? ==> fresh(r.value)
    ensures r.Ok? ==>
      var g := Snapshot(r.value);
      && VersionOf(|g|).Some?
      && (forall v: Version :: v < VersionOf(|g|).value ==> |text| + 2 > Capacity(v) - 2)
      && EncodesText(g, VersionOf(|g|).value, codewords, text, mask)
      && Decode(g) == Some(text)
      && BlocksAreCodewords(VersionOf(|g|).value, ReadCode(g, VersionOf(|g|).value))
  {
    codewords, mask := [], 0;
    var version := ChooseVersion(|text|);
    if version > 6 {
      return Err("QR payload is too long"), codewords, mask;
    }
    var words := EncodeSegment(version, text);
    codewords := words;
    var code := Interleave(t, version, words);
    var bits := StreamBits(version, code);
    var base := Base(version);
    var res := Reserved(version);
    var best;
    best, mask := BestOfEight(base, res, version, bits);
    VersionIsRead(version);
    DecodeUndoesEncode(Snapshot(best), version, codewords, text, mask);
    r := Ok(best);
  }
}

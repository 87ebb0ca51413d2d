/**
  From text to codewords: the version tables, the byte-mode segment, and the interleaving of data
  and check bytes, each with its inverse.
 */
module QrCode {
  import opened Gf256
  import ReedSolomon
  import opened QrBits
  import opened QrLayout
  import opened Wrappers

  // ----- the tables of versions 1 to 6, level L -----

  function Capacity(version: Version): (n: nat)
    ensures 19 <= n <= 136
  {
    [19, 34, 55, 80, 108, 136][version - 1]
  }

  function EcCount(version: Version): (n: nat)
    ensures 0 < n <= 26
  {
    [7, 10, 15, 20, 26, 18][version - 1]
  }

  function EcBlocks(version: Version): (n: nat)
    ensures 1 <= n <= 2
  {
    [1, 1, 1, 1, 1, 2][version - 1]
  }

  function RemainderBits(version: Version): nat {
    [0, 7, 7, 7, 7, 7][version - 1]
  }

  function DataEach(version: Version): (n: nat)
    ensures n * EcBlocks(version) == Capacity(version)
  {
    Capacity(version) / EcBlocks(version)
  }

  function CodeLength(version: Version): nat {
    Capacity(version) + EcCount(version) * EcBlocks(version)
  }

  /** The data modules of a version hold its code bits and remainder bits exactly. */
  lemma ModulesMatchBits(version: Version)
    ensures |DataCells(version)| == 8 * CodeLength(version) + RemainderBits(version)
  {
    DataCellsCount(version);
  }

  // ----- interleaving -----

  /** The first n columns of the blocks, one after the other. */
  function Columns(blocks: seq<seq<Byte>>, n: nat): (s: seq<Byte>)
    requires forall g :: 0 <= g < |blocks| ==> |blocks[g]| >= n
    ensures |s| == n * |blocks|
  {
    if n == 0 then [] else
      Columns(blocks, n - 1) + seq(|blocks|, g requires 0 <= g < |blocks| => blocks[g][n - 1])
  }

  lemma ColumnBound(i: nat, g: nat, n: nat, width: nat)
    requires i < n && g < width
    ensures i * width + g < n * width
  {
    assert (i + 1) * width <= n * width;
  }

  lemma {:induction false} ColumnsAt(blocks: seq<seq<Byte>>, n: nat, i: nat, g: nat)
    requires forall g :: 0 <= g < |blocks| ==> |blocks[g]| >= n
    requires i < n && g < |blocks|
    ensures i * |blocks| + g < n * |blocks|
    ensures Columns(blocks, n)[i * |blocks| + g] == blocks[g][i]
  {
    ColumnBound(i, g, n, |blocks|);
    if i < n - 1 {
      ColumnBound(i, g, n - 1, |blocks|);
      ColumnsAt(blocks, n - 1, i, g);
    }
  }

  function ToField(s: seq<Byte>): (r: seq<bv8>)
    ensures |r| == |s|
  {
    seq(|s|, i requires 0 <= i < |s| => s[i] as bv8)
  }

  function FromField(s: seq<bv8>): (r: seq<Byte>)
    ensures |r| == |s|
  {
    seq(|s|, i requires 0 <= i < |s| => s[i] as int)
  }

  lemma FromToField(s: seq<bv8>)
    ensures ToField(FromField(s)) == s
  {
  }

  /** The g-th block of data codewords. */
  function DataBlock(version: Version, data: seq<Byte>, g: nat): (b: seq<Byte>)
    requires |data| == Capacity(version) && g < EcBlocks(version)
    ensures |b| == DataEach(version)
  {
    data[g * DataEach(version)..(g + 1) * DataEach(version)]
  }

  ghost function CheckBlock(version: Version, data: seq<Byte>, g: nat): (b: seq<Byte>)
    requires |data| == Capacity(version) && g < EcBlocks(version)
    ensures |b| == EcCount(version)
  {
    FromField(ReedSolomon.Check(ToField(DataBlock(version, data, g)), EcCount(version)))
  }

  function DataBlocks(version: Version, data: seq<Byte>): (s: seq<seq<Byte>>)
    requires |data| == Capacity(version)
    ensures |s| == EcBlocks(version)
    ensures forall g :: 0 <= g < |s| ==> s[g] == DataBlock(version, data, g)
  {
    seq(EcBlocks(version), g requires 0 <= g < EcBlocks(version) => DataBlock(version, data, g))
  }

  ghost function CheckBlocks(version: Version, data: seq<Byte>): (s: seq<seq<Byte>>)
    requires |data| == Capacity(version)
    ensures |s| == EcBlocks(version)
    ensures forall g :: 0 <= g < |s| ==> s[g] == CheckBlock(version, data, g)
  {
    seq(EcBlocks(version), g requires 0 <= g < EcBlocks(version) => CheckBlock(version, data, g))
  }

  ghost function CodeWords(version: Version, data: seq<Byte>): (code: seq<Byte>)
    requires |data| == Capacity(version)
    ensures |code| == CodeLength(version)
  {
    Columns(DataBlocks(version, data), DataEach(version))
      + Columns(CheckBlocks(version, data), EcCount(version))
  }

  method PushColumns(blocks: seq<seq<Byte>>, n: nat, prefix: seq<Byte>) returns (out: seq<Byte>)
    requires forall g :: 0 <= g < |blocks| ==> |blocks[g]| >= n
    ensures out == prefix + Columns(blocks, n)
  {
    out := prefix;
    for i := 0 to n
      invariant out == prefix + Columns(blocks, i)
    {
      ghost var before := out;
      ghost var column := seq(|blocks|, g requires 0 <= g < |blocks| => blocks[g][i]);
      for g := 0 to |blocks|
        invariant out == before + column[..g]
      {
        out := out + [blocks[g][i]];
        assert column[..g + 1] == column[..g] + [column[g]];
      }
      assert column[..|blocks|] == column;
      assert before + column == prefix + Columns(blocks, i + 1);
    }
  }

  method CheckWords(t: Tables, chunk: seq<Byte>, n: nat) returns (check: seq<Byte>)
    requires t.Valid()
    ensures check == FromField(ReedSolomon.Check(ToField(chunk), n))
  {
    var ec := ReedSolomon.RsEncode(t, ToField(chunk), n);
    check := FromField(ec[..]);
  }

  method EncodeBlock(t: Tables, version: Version, data: seq<Byte>, i: nat, offset: nat)
    returns (chunk: seq<Byte>, check: seq<Byte>)
    requires t.Valid() && |data| == Capacity(version) && i < EcBlocks(version)
    requires offset == i * DataEach(version)
    ensures chunk == DataBlock(version, data, i) && check == CheckBlock(version, data, i)
  {
    BlockEnds(version, i);
    chunk := data[offset..offset + DataEach(version)];
    check := CheckWords(t, chunk, EcCount(version));
  }

  method EncodeBlocks(t: Tables, version: Version, data: seq<Byte>)
    returns (blocks: seq<seq<Byte>>, checks: seq<seq<Byte>>)
    requires t.Valid() && |data| == Capacity(version)
    ensures blocks == DataBlocks(version, data) && checks == CheckBlocks(version, data)
  {
    hide DataBlock, CheckBlock;
    var offset := 0;
    blocks, checks := [], [];
    for i := 0 to EcBlocks(version)
      invariant offset == i * DataEach(version)
      invariant |blocks| == |checks| == i
      invariant forall g :: 0 <= g < i ==> blocks[g] == DataBlock(version, data, g)
      invariant forall g :: 0 <= g < i ==> checks[g] == CheckBlock(version, data, g)
    {
      var chunk, check := EncodeBlock(t, version, data, i, offset);
      BlockEnds(version, i);
      offset := offset + DataEach(version);
      blocks := blocks + [chunk];
      checks := checks + [check];
    }
    BlocksAssembled(version, data, blocks, checks);
  }

  lemma BlocksAssembled(version: Version, data: seq<Byte>, blocks: seq<seq<Byte>>, checks: seq<seq<Byte>>)
    requires |data| == Capacity(version) && |blocks| == |checks| == EcBlocks(version)
    requires forall g :: 0 <= g < |blocks| ==> blocks[g] == DataBlock(version, data, g)
    requires forall g :: 0 <= g < |checks| ==> checks[g] == CheckBlock(version, data, g)
    ensures blocks == DataBlocks(version, data) && checks == CheckBlocks(version, data)
  {
  }

  method Interleave(t: Tables, version: Version, data: seq<Byte>) returns (out: seq<Byte>)
    requires t.Valid() && |data| == Capacity(version)
    ensures out == CodeWords(version, data)
  {
    var blocks, checks := EncodeBlocks(t, version, data);
    out := PushColumns(blocks, DataEach(version), []);
    out := PushColumns(checks, EcCount(version), out);
  }

  lemma BlockEnds(version: Version, i: nat)
    requires i < EcBlocks(version)
    ensures i * DataEach(version) + DataEach(version) == (i + 1) * DataEach(version) <= Capacity(version)
  {
    assert i == 0 || (i == 1 && EcBlocks(version) == 2);
  }

  // ----- de-interleaving -----

  /** The data codewords of a code, block after block. */
  function DataOf(version: Version, code: seq<Byte>): (data: seq<Byte>)
    requires |code| == CodeLength(version)
    ensures |data| == Capacity(version)
  {
    seq(Capacity(version), k requires 0 <= k < Capacity(version) =>
      PlaceInBounds(version, k);
      code[(k % DataEach(version)) * EcBlocks(version) + k / DataEach(version)])
  }

  /** The check codewords of block g. */
  function CheckOf(version: Version, code: seq<Byte>, g: nat): (check: seq<Byte>)
    requires |code| == CodeLength(version) && g < EcBlocks(version)
    ensures |check| == EcCount(version)
  {
    seq(EcCount(version), i requires 0 <= i < EcCount(version) =>
      CheckInBounds(version, i, g);
      code[Capacity(version) + i * EcBlocks(version) + g])
  }

  lemma PlaceInBounds(version: Version, k: nat)
    requires k < Capacity(version)
    ensures k / DataEach(version) < EcBlocks(version)
    ensures (k % DataEach(version)) * EcBlocks(version) + k / DataEach(version) < Capacity(version)
  {
    if version == 6 {
      assert DataEach(version) == 68;
    } else {
      assert DataEach(version) == Capacity(version);
    }
  }

  lemma CheckInBounds(version: Version, i: nat, g: nat)
    requires i < EcCount(version) && g < EcBlocks(version)
    ensures i * EcBlocks(version) + g < EcCount(version) * EcBlocks(version)
  {
    if version == 6 {
    } else {
      assert EcBlocks(version) == 1;
    }
  }

  /** Column i of block g, in the code and in the data. */
  lemma DataComesBackAt(version: Version, data: seq<Byte>, i: nat, g: nat)
    requires |data| == Capacity(version) && i < DataEach(version) && g < EcBlocks(version)
    ensures i * EcBlocks(version) + g < Capacity(version) && g * DataEach(version) + i < Capacity(version)
    ensures CodeWords(version, data)[i * EcBlocks(version) + g] == data[g * DataEach(version) + i]
  {
    var blocks := DataBlocks(version, data);
    ColumnBound(i, g, DataEach(version), EcBlocks(version));
    ColumnsAt(blocks, DataEach(version), i, g);
    BlockEnds(version, g);
    assert blocks[g] == DataBlock(version, data, g);
  }

  lemma CodeWordOf(version: Version, data: seq<Byte>, k: nat)
    requires |data| == Capacity(version) && k < Capacity(version)
    ensures k / DataEach(version) < EcBlocks(version)
    ensures var at := (k % DataEach(version)) * EcBlocks(version) + k / DataEach(version);
            at < Capacity(version) && CodeWords(version, data)[at] == data[k]
  {
    PlaceInBounds(version, k);
    DataComesBackAt(version, data, k % DataEach(version), k / DataEach(version));
  }

  lemma DataComesBack(version: Version, data: seq<Byte>)
    requires |data| == Capacity(version)
    ensures DataOf(version, CodeWords(version, data)) == data
  {
    hide CodeWords, DataEach, EcBlocks, Capacity;
    forall k | 0 <= k < Capacity(version) ensures DataOf(version, CodeWords(version, data))[k] == data[k] {
      CodeWordOf(version, data, k);
    }
  }

  lemma ChecksComeBack(version: Version, data: seq<Byte>, g: nat)
    requires |data| == Capacity(version) && g < EcBlocks(version)
    ensures CheckOf(version, CodeWords(version, data), g) == CheckBlock(version, data, g)
  {
    var checks := CheckBlocks(version, data);
    var front := Columns(DataBlocks(version, data), DataEach(version));
    TailComesBack(version, front, checks, g);
    assert checks[g] == CheckBlock(version, data, g);
  }

  lemma TailComesBack(version: Version, front: seq<Byte>, checks: seq<seq<Byte>>, g: nat)
    requires |front| == Capacity(version) && |checks| == EcBlocks(version) && g < |checks|
    requires forall k :: 0 <= k < |checks| ==> |checks[k]| == EcCount(version)
    ensures CheckOf(version, front + Columns(checks, EcCount(version)), g) == checks[g]
  {
    var code := front + Columns(checks, EcCount(version));
    forall i | 0 <= i < EcCount(version) ensures CheckOf(version, code, g)[i] == checks[g][i] {
      CheckInBounds(version, i, g);
      ColumnsAt(checks, EcCount(version), i, g);
    }
  }

  /** Every block of the code has all its syndromes zero. */
  ghost predicate BlocksAreCodewords(version: Version, code: seq<Byte>)
    requires |code| == CodeLength(version)
  {
    forall g :: 0 <= g < EcBlocks(version) ==>
      ReedSolomon.IsCodeword(ToField(DataBlock(version, DataOf(version, code), g))
                             + ToField(CheckOf(version, code, g)), EcCount(version))
  }

  lemma CodeWordsAreCodewords(version: Version, data: seq<Byte>)
    requires |data| == Capacity(version)
    ensures BlocksAreCodewords(version, CodeWords(version, data))
  {
    DataComesBack(version, data);
    forall g | 0 <= g < EcBlocks(version)
      ensures ReedSolomon.IsCodeword(ToField(DataBlock(version, DataOf(version, CodeWords(version, data)), g))
                + ToField(CheckOf(version, CodeWords(version, data), g)), EcCount(version))
    {
      ChecksComeBack(version, data, g);
      var block := ToField(DataBlock(version, data, g));
      FromToField(ReedSolomon.Check(block, EcCount(version)));
      ReedSolomon.CodewordVanishes(block, EcCount(version));
    }
  }

  // ----- the byte-mode segment -----

  /** What a reader finds in the data codewords: mode 0100, an eight-bit count, the bytes. */
  function ParseSegment(codewords: seq<Byte>): Option<seq<Byte>> {
    var bits := ByteBits(codewords);
    if |bits| < 12 || Value(bits[..4]) != 4 then None
    else
      var n := Value(bits[4..12]);
      if 12 + 8 * n > |bits| then None else Some(ToBytes(bits[12..], n))
  }

  function Header(length: nat): (h: seq<bool>)
    ensures |h| == 12
  {
    Bits(4, 4) + Bits(length, 8)
  }

  /** Terminator and alternating pad bytes, up to the capacity. */
  function Tail(length: nat, capacity: nat): seq<bool>
    requires length + 2 <= capacity
  {
    Bits(0, 4) + ByteBits(Pads(capacity - length - 2))
  }

  function SegmentBits(text: seq<Byte>, capacity: nat): seq<bool>
    requires |text| + 2 <= capacity
  {
    Header(|text|) + ByteBits(text) + Tail(|text|, capacity)
  }

  lemma Slices(a: seq<bool>, b: seq<bool>, c: seq<bool>, d: seq<bool>)
    ensures var s := (a + b) + c + d;
            s[..|a|] == a && s[|a|..|a| + |b|] == b && s[|a| + |b|..] == c + d
  {
  }

  /** Reading the segment gives the text back. */
  lemma SegmentReadsBack(codewords: seq<Byte>, text: seq<Byte>)
    requires |text| + 2 <= |codewords| && |text| < 256
    requires ByteBits(codewords) == SegmentBits(text, |codewords|)
    ensures ParseSegment(codewords) == Some(text)
  {
    var tail := Tail(|text|, |codewords|);
    Slices(Bits(4, 4), Bits(|text|, 8), ByteBits(text), tail);
    Exp2Small();
    ValueOfBits(4, 4);
    ValueOfBits(|text|, 8);
    ToBytesPrefix(text, tail);
  }

  const MAX_TEXT: nat := 132

  /** The smallest version the encoder accepts for a text of this length, or 7. */
  method ChooseVersion(length: nat) returns (version: nat)
    ensures 1 <= version <= 7 && (version == 7 <==> length > MAX_TEXT)
    ensures version <= 6 ==> length + 2 <= Capacity(version) - 2
    ensures forall v: Version :: v < version ==> length + 2 > Capacity(v) - 2
  {
    version := 1;
    while version <= 6 && length + 2 > Capacity(version) - 2
      invariant 1 <= version <= 7
      invariant forall v: Version :: v < version ==> length + 2 > Capacity(v) - 2
    {
      version := version + 1;
    }
    if version == 7 {
      assert length + 2 > Capacity(6) - 2;
    }
  }

  method PutText(buf: BitBuffer, text: seq<Byte>)
    requires buf.Valid()
    modifies buf
    ensures buf.Valid() && buf.Contents() == old(buf.Contents()) + ByteBits(text)
  {
    hide BitBuffer.Contents, ByteBits, Bits;
    ghost var before := buf.Contents();
    assert ByteBits(text[..0]) == [] by {
      assert text[..0] == [];
    }
    for i := 0 to |text|
      invariant buf.Valid() && buf.Contents() == before + ByteBits(text[..i])
    {
      buf.Put(text[i], 8);
      ByteBitsNext(text, i);
    }
    assert text[..|text|] == text;
  }

  /** Mode and count. */
  method PutHeader(buf: BitBuffer, length: nat)
    requires buf.Valid() && buf.Contents() == []
    modifies buf
    ensures buf.Valid() && buf.Contents() == Header(length)
  {
    buf.Put(4, 4);
    buf.Put(length, 8);
  }

  /** Puts the segment into an empty buffer; the capacity always leaves room for the terminator. */
  method PutSegment(buf: BitBuffer, text: seq<Byte>, cap: nat)
    requires buf.Valid() && buf.Contents() == [] && |text| + 4 <= cap
    modifies buf
    ensures buf.Valid() && buf.Contents() == Header(|text|) + ByteBits(text) + Bits(0, 4)
  {
    PutHeader(buf, |text|);
    PutText(buf, text);
    var room := cap * 8 - (4 + 8 + |text| * 8);
    buf.Put(0, if 4 < room then 4 else room);
  }

  method EncodeSegment(version: Version, text: seq<Byte>) returns (codewords: seq<Byte>)
    requires |text| + 2 <= Capacity(version) - 2
    ensures |codewords| == Capacity(version)
    ensures ByteBits(codewords) == SegmentBits(text, Capacity(version))
  {
    hide Header, ByteBits;
    var cap := Capacity(version);
    var buf := new BitBuffer();
    PutSegment(buf, text, cap);
    ghost var written := buf.Contents();
    buf.PadTo(cap);
    codewords := buf.bytes;
    FinishSegment(written, text, cap, codewords);
  }

  lemma FinishSegment(written: seq<bool>, text: seq<Byte>, cap: nat, codewords: seq<Byte>)
    requires |text| + 2 <= cap && |codewords| >= (|written| + 7) / 8
    requires written == Header(|text|) + ByteBits(text) + Bits(0, 4)
    requires var used := (|written| + 7) / 8;
             |codewords| == (if used < cap then cap else used) &&
             ByteBits(codewords) == written + ZeroBits(8 * used - |written|) + ByteBits(Pads(|codewords| - used))
    ensures |codewords| == cap && ByteBits(codewords) == SegmentBits(text, cap)
  {
    assert (|written| + 7) / 8 == |text| + 2;
    Regroup(Header(|text|) + ByteBits(text), Bits(0, 4), ByteBits(Pads(cap - |text| - 2)));
  }

  lemma Regroup(a: seq<bool>, b: seq<bool>, c: seq<bool>)
    ensures (a + b) + ZeroBits(0) + c == a + (b + c)
  {
  }
}

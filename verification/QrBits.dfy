/**
  The bit buffer of the QR encoder, the byte-mode segment it holds (ISO/IEC 18004, section 7.4),
  and the reader that undoes it.
 */
module QrBits {
  type Byte = b: int | 0 <= b < 256

  // ----- numbers as bits, most significant first -----

  function Exp2(n: nat): (r: nat)
    ensures r > 0
  {
    if n == 0 then 1 else 2 * Exp2(n - 1)
  }

  function Shr(v: nat, i: nat): nat {
    if i == 0 then v else Shr(v / 2, i - 1)
  }

  function Bits(v: nat, len: nat): (s: seq<bool>)
    ensures |s| == len
  {
    if len == 0 then [] else Bits(v / 2, len - 1) + [v % 2 == 1]
  }

  function Value(s: seq<bool>): nat {
    if s == [] then 0 else 2 * Value(s[..|s| - 1]) + (if s[|s| - 1] then 1 else 0)
  }

  lemma {:induction false} ValueOfBits(v: nat, len: nat)
    requires v < Exp2(len)
    ensures Value(Bits(v, len)) == v
  {
    if len > 0 {
      ValueOfBits(v / 2, len - 1);
      assert Bits(v, len)[..len - 1] == Bits(v / 2, len - 1);
    }
  }

  lemma {:induction false} BitsOfValue(s: seq<bool>)
    ensures Value(s) < Exp2(|s|) && Bits(Value(s), |s|) == s
  {
    if s != [] {
      var k := |s| - 1;
      BitsOfValue(s[..k]);
      assert s == s[..k] + [s[k]];
    }
  }

  lemma {:induction false} BitAt(v: nat, len: nat, i: nat)
    requires i < len
    ensures Bits(v, len)[len - 1 - i] == (Shr(v, i) % 2 == 1)
  {
    if i > 0 {
      BitAt(v / 2, len - 1, i - 1);
    }
  }

  lemma {:induction false} BitsSplit(v: nat, m: nat, n: nat)
    ensures Bits(v, m + n) == Bits(Shr(v, n), m) + Bits(v, n)
  {
    if n > 0 {
      BitsSplit(v / 2, m, n - 1);
    }
  }

  lemma BitsSnoc(acc: nat, bits: nat, bit: bool)
    ensures Bits(2 * acc + (if bit then 1 else 0), bits + 1) == Bits(acc, bits) + [bit]
  {
  }

  function ZeroBits(n: nat): (s: seq<bool>)
    ensures |s| == n
  {
    seq(n, i => false)
  }

  lemma {:induction false} BitsShifted(acc: nat, bits: nat, k: nat)
    ensures Bits(acc * Exp2(k), bits + k) == Bits(acc, bits) + ZeroBits(k)
  {
    if k == 0 {
      assert Bits(acc, bits) + ZeroBits(0) == Bits(acc, bits);
    } else {
      BitsShifted(acc, bits, k - 1);
      assert acc * Exp2(k) == 2 * (acc * Exp2(k - 1));
      assert ZeroBits(k) == ZeroBits(k - 1) + [false];
      BitsSnoc(acc * Exp2(k - 1), bits + k - 1, false);
    }
  }

  // ----- bytes as bits -----

  function ByteBits(bytes: seq<Byte>): (s: seq<bool>)
    ensures |s| == 8 * |bytes|
  {
    if bytes == [] then [] else ByteBits(bytes[..|bytes| - 1]) + Bits(bytes[|bytes| - 1], 8)
  }

  lemma ByteValue(s: seq<bool>)
    requires |s| == 8
    ensures Value(s) < 256
  {
    BitsOfValue(s);
    Exp2Small();
  }

  lemma ByteBitsNext(bytes: seq<Byte>, i: nat)
    requires i < |bytes|
    ensures ByteBits(bytes[..i + 1]) == ByteBits(bytes[..i]) + Bits(bytes[i], 8)
  {
    assert bytes[..i + 1][..i] == bytes[..i];
  }

  function ToBytes(s: seq<bool>, n: nat): (bytes: seq<Byte>)
    requires 8 * n <= |s|
    ensures |bytes| == n
  {
    if n == 0 then [] else
      ByteValue(s[8 * n - 8..8 * n]);
      ToBytes(s, n - 1) + [Value(s[8 * n - 8..8 * n])]
  }

  lemma {:induction false} ByteBitsAppend(a: seq<Byte>, b: seq<Byte>)
    ensures ByteBits(a + b) == ByteBits(a) + ByteBits(b)
  {
    if b == [] {
      assert a + b == a;
    } else {
      var k := |b| - 1;
      ByteBitsAppend(a, b[..k]);
      assert (a + b)[..|a + b| - 1] == a + b[..k];
    }
  }

  lemma {:induction false} ToBytesPrefix(bytes: seq<Byte>, rest: seq<bool>)
    ensures ToBytes(ByteBits(bytes) + rest, |bytes|) == bytes
  {
    if bytes != [] {
      var k := |bytes| - 1;
      var last := Bits(bytes[k], 8);
      ToBytesPrefix(bytes[..k], last + rest);
      var s := ByteBits(bytes[..k]) + (last + rest);
      assert ByteBits(bytes) + rest == s;
      assert s[8 * k..8 * k + 8] == last;
      Exp2Small();
      ValueOfBits(bytes[k], 8);
    }
  }

  // ----- the buffer -----

  /** Alternating pad bytes. */
  function Pads(n: nat): (p: seq<Byte>)
    ensures |p| == n
  {
    seq(n, i requires 0 <= i < n => if i % 2 == 0 then 0xec else 0x11)
  }

  /** The bytes 11101100 and 00010001 in turn, beginning with the first. */
  lemma PadsAre(n: nat, j: nat)
    ensures 2 * j < n ==> Pads(n)[2 * j] as int == 128 + 64 + 32 + 8 + 4
    ensures 2 * j + 1 < n ==> Pads(n)[2 * j + 1] as int == 16 + 1
  {
  }

  class BitBuffer {
    var bytes: seq<Byte>
    var acc: nat
    var bits: nat

    ghost predicate Valid()
      reads this
    {
      bits < 8 && acc < Exp2(bits)
    }

    ghost function Contents(): seq<bool>
      reads this
    {
      ByteBits(bytes) + Bits(acc, bits)
    }

    constructor ()
      ensures Valid() && Contents() == []
    {
      bytes, acc, bits := [], 0, 0;
    }

    method PutBit(bit: bool)
      requires Valid()
      modifies this
      ensures Valid() && Contents() == old(Contents()) + [bit]
    {
      BitsSnoc(acc, bits, bit);
      acc := 2 * acc + (if bit then 1 else 0);
      bits := bits + 1;
      if bits == 8 {
        Exp2Small();
        ghost var written := bytes;
        bytes := bytes + [acc];
        assert bytes[..|bytes| - 1] == written;
        acc := 0;
        bits := 0;
      }
    }

    method Put(value: nat, len: nat)
      requires Valid()
      modifies this
      ensures Valid() && Contents() == old(Contents()) + Bits(value, len)
    {
      ghost var before := Contents();
      ghost var all := Bits(value, len);
      var i := len;
      while i > 0
        invariant 0 <= i <= len && Valid()
        invariant Contents() == before + all[..len - i]
      {
        i := i - 1;
        BitAt(value, len, i);
        PutBit(Shr(value, i) % 2 == 1);
        assert all[..len - i] == all[..len - i - 1] + [all[len - i - 1]];
      }
      assert all[..len] == all;
    }

    /** Completes the last byte with zero bits. */
    method Flush()
      requires Valid()
      modifies this
      ensures bits == 0 && acc == 0
      ensures ByteBits(bytes) == old(Contents()) + ZeroBits(if old(bits) == 0 then 0 else 8 - old(bits))
      ensures |bytes| == (|old(Contents())| + 7) / 8
    {
      if bits > 0 {
        BitsShifted(acc, bits, 8 - bits);
        ByteFits(acc, bits);
        acc := acc * Exp2(8 - bits);
        ghost var written := bytes;
        bytes := bytes + [acc];
        assert bytes[..|bytes| - 1] == written;
        acc := 0;
        bits := 0;
      }
    }

    /** Completes the last byte with zero bits and pads up to n bytes. */
    method PadTo(n: nat)
      requires Valid()
      modifies this
      ensures Valid() && bits == 0
      ensures var used := (|old(Contents())| + 7) / 8;
              |bytes| == (if used < n then n else used) &&
              ByteBits(bytes) == old(Contents()) + ZeroBits(8 * used - |old(Contents())|)
                                 + ByteBits(Pads(|bytes| - used))
    {
      Exp2Small();
      Flush();
      ghost var full := bytes;
      var i := 0;
      while |bytes| < n
        invariant bits == 0 && acc == 0
        invariant bytes == full + Pads(i)
        invariant i > 0 ==> |bytes| <= n
      {
        bytes := bytes + [if i % 2 == 0 then 0xec else 0x11];
        i := i + 1;
      }
      ByteBitsAppend(full, Pads(i));
    }
  }

  lemma Exp2Small()
    ensures Exp2(0) == 1 && Exp2(1) == 2 && Exp2(2) == 4 && Exp2(3) == 8 && Exp2(4) == 16
    ensures Exp2(5) == 32 && Exp2(6) == 64 && Exp2(7) == 128 && Exp2(8) == 256
  {
  }

  lemma ByteFits(acc: nat, bits: nat)
    requires bits <= 8 && acc < Exp2(bits)
    ensures acc * Exp2(8 - bits) < 256
  {
    Exp2Small();
  }
}

/**
  Arithmetic in GF(256) modulo x^8 + x^4 + x^3 + x^2 + 1, as the QR encoder does it with a table
  of powers (EXP) and a table of logarithms (LOG).

  Everything is reduced to one linear map, multiplication by x (`Xtime`).  Its orbit through 1 has
  length 255, so the powers of x are all the nonzero bytes; from that the table product is shown to
  be the field product: commutative, associative, distributive, and equal to shift-and-xor.
 */
module Gf256 {

  /** Addition, which is also subtraction. */
  function Xor(a: bv8, b: bv8): bv8 {
    a ^ b
  }

  /** Multiplication by x: shift left, and subtract 0x11d when the top bit falls out. */
  function Xtime(a: bv8): bv8 {
    (a << 1) ^ ((a >> 7) * 0x1d)
  }

  /** Multiplication by x^n. */
  function Iter(a: bv8, n: nat): bv8 {
    if n == 0 then a else Xtime(Iter(a, n - 1))
  }

  /** The n-th power of x, the value the EXP table holds at n. */
  function Pow(n: nat): bv8 {
    Iter(1, n)
  }

  lemma XtimeLinear(a: bv8, b: bv8)
    ensures Xtime(a ^ b) == Xtime(a) ^ Xtime(b)
  {
  }

  lemma XtimeInjective(a: bv8, b: bv8)
    requires Xtime(a) == Xtime(b)
    ensures a == b
  {
  }

  lemma {:induction false} IterLinear(a: bv8, b: bv8, n: nat)
    ensures Iter(a ^ b, n) == Iter(a, n) ^ Iter(b, n)
  {
    if n > 0 {
      IterLinear(a, b, n - 1);
      XtimeLinear(Iter(a, n - 1), Iter(b, n - 1));
    }
  }

  lemma {:induction false} IterZero(n: nat)
    ensures Iter(0, n) == 0
  {
    if n > 0 {
      IterZero(n - 1);
    }
  }

  lemma {:induction false} IterAdd(a: bv8, m: nat, n: nat)
    ensures Iter(a, m + n) == Iter(Iter(a, m), n)
  {
    if n > 0 {
      IterAdd(a, m, n - 1);
      assert m + n - 1 == m + (n - 1);
    }
  }

  lemma {:induction false} IterInjective(a: bv8, b: bv8, n: nat)
    requires Iter(a, n) == Iter(b, n)
    ensures a == b
  {
    if n > 0 {
      XtimeInjective(Iter(a, n - 1), Iter(b, n - 1));
      IterInjective(a, b, n - 1);
    }
  }

  // ----- x has order 255 -----

  function X4(a: bv8): bv8 {
    Xtime(Xtime(Xtime(Xtime(a))))
  }

  function X16(a: bv8): bv8 {
    X4(X4(X4(X4(a))))
  }

  function X64(a: bv8): bv8 {
    X16(X16(X16(X16(a))))
  }

  lemma Steps4(n: nat)
    ensures Pow(n + 4) == X4(Pow(n))
  {
    assert Pow(n + 1) == Xtime(Pow(n));
    assert Pow(n + 2) == Xtime(Pow(n + 1));
    assert Pow(n + 3) == Xtime(Pow(n + 2));
  }

  lemma Steps16(n: nat)
    ensures Pow(n + 16) == X16(Pow(n))
  {
    Steps4(n);
    Steps4(n + 4);
    Steps4(n + 8);
    Steps4(n + 12);
  }

  lemma Steps64(n: nat)
    ensures Pow(n + 64) == X64(Pow(n))
  {
    Steps16(n);
    Steps16(n + 16);
    Steps16(n + 32);
    Steps16(n + 48);
  }

  lemma Orbit64()
    ensures X64(1) == 0x5f && X64(0x5f) == 0x85
    ensures X64(0x85) == 0x82 && X64(0x82) == 2
  {
  }

  lemma PowAt255()
    ensures Pow(255) == 1
  {
    Orbit64();
    Steps64(0);
    Steps64(64);
    Steps64(128);
    Steps64(192);
    assert Xtime(1) == 2 && Xtime(Pow(255)) == Pow(256);
    XtimeInjective(Pow(255), 1);
  }

  lemma Orbit16()
    ensures X16(1) == 0x4c && X16(0x4c) == 0x9d && X16(0x9d) == 0x46
    ensures X16(0x5f) == 0xfd && X4(0xfd) == 0x6b && X4(0x46) == 0x14
  {
  }

  lemma NotOne(a: bv8, b: bv8)
    requires b == Xtime(a) && b != 2
    ensures a != 1
  {
  }

  lemma PowAtMaximalDivisors()
    ensures Pow(15) != 1 && Pow(51) != 1 && Pow(85) != 1
  {
    Orbit16();
    Orbit64();
    Steps16(0);
    Steps16(16);
    Steps16(32);
    Steps4(48);
    Steps64(0);
    Steps16(64);
    Steps4(80);
    NotOne(Pow(15), Pow(16));
    NotOne(Pow(51), Pow(52));
    NotOne(Pow(85), Pow(86));
  }

  /** Every proper divisor of 255 divides 85, 51 or 15. */
  lemma ProperDivisors(d: nat, q: nat)
    requires q * d == 255 && d < 255
    ensures 0 < d && (85 % d == 0 || 51 % d == 0 || 15 % d == 0)
  {
    assert q <= 16 || d <= 15;
    if q <= 16 {
      assert q == 3 || q == 5 || q == 15;
    } else {
      assert d == 1 || d == 3 || d == 5 || d == 15;
    }
  }

  lemma {:induction false} PowMultiples(d: nat, k: nat)
    requires Pow(d) == 1
    ensures Pow(k * d) == 1
  {
    if k > 0 {
      PowMultiples(d, k - 1);
      IterAdd(1, (k - 1) * d, d);
      assert (k - 1) * d + d == k * d;
    } else {
      assert k * d == 0;
    }
  }

  lemma PowRemainder(n: nat, d: nat)
    requires d > 0 && Pow(d) == 1
    ensures Pow(n % d) == Pow(n)
  {
    PowMultiples(d, n / d);
    IterAdd(1, n / d * d, n % d);
    assert n / d * d + n % d == n;
  }

  lemma PowOfMultiple(n: nat, d: nat)
    requires d > 0 && Pow(d) == 1 && n % d == 0
    ensures Pow(n) == 1
  {
    PowRemainder(n, d);
  }

  /** 255 is the first positive exponent at which the powers of x come back to 1. */
  lemma {:induction false} OrderIs255(d: nat)
    requires 0 < d < 255
    ensures Pow(d) != 1
  {
    if Pow(d) == 1 {
      PowAt255();
      PowRemainder(255, d);
      var r := 255 % d;
      if r > 0 {
        OrderIs255(r);
      } else {
        ProperDivisors(d, 255 / d);
        PowAtMaximalDivisors();
        if 85 % d == 0 {
          PowOfMultiple(85, d);
        } else if 51 % d == 0 {
          PowOfMultiple(51, d);
        } else {
          PowOfMultiple(15, d);
        }
      }
      assert false;
    }
  }

  lemma PowInjective(i: nat, j: nat)
    requires i < 255 && j < 255 && Pow(i) == Pow(j)
    ensures i == j
  {
    if i < j {
      IterAdd(1, j - i, i);
      IterInjective(Pow(j - i), 1, i);
      OrderIs255(j - i);
    } else if j < i {
      PowInjective(j, i);
    }
  }

  lemma {:induction false} PowNonzero(n: nat)
    ensures Pow(n) != 0
  {
    if n > 0 {
      PowNonzero(n - 1);
      XtimeOfNonzero(Pow(n - 1));
    }
  }

  lemma XtimeOfNonzero(a: bv8)
    requires a != 0
    ensures Xtime(a) != 0
  {
  }

  lemma PowPeriod(n: nat)
    ensures Pow(n + 255) == Pow(n)
  {
    PowAt255();
    IterAdd(1, 255, n);
  }

  // ----- logarithms -----

  ghost function PowSet(n: nat): (s: set<bv8>)
    requires n <= 255
    ensures forall a :: a in s ==> exists i :: 0 <= i < n && Pow(i) == a
    ensures |s| == n
    decreases n, 1
  {
    if n == 0 then {} else
      PowSetExcludesNext(n);
      PowSet(n - 1) + {Pow(n - 1)}
  }

  lemma PowSetExcludesNext(n: nat)
    requires 0 < n <= 255
    ensures Pow(n - 1) !in PowSet(n - 1)
    decreases n, 0
  {
    if Pow(n - 1) in PowSet(n - 1) {
      var i :| 0 <= i < n - 1 && Pow(i) == Pow(n - 1);
      PowInjective(i, n - 1);
      assert false;
    }
  }

  ghost function BytesUpTo(n: nat): (s: set<bv8>)
    requires n < 256
    ensures |s| <= n
  {
    if n == 0 then {} else BytesUpTo(n - 1) + {n as bv8}
  }

  lemma {:induction false} InBytesUpTo(k: nat, n: nat)
    requires 0 < k <= n < 256
    ensures k as bv8 in BytesUpTo(n)
  {
    if k < n {
      InBytesUpTo(k, n - 1);
    }
  }

  lemma NonzeroByte(a: bv8)
    requires a != 0
    ensures a in BytesUpTo(255)
  {
    InBytesUpTo(a as int, 255);
  }

  lemma SubsetOfSameSize<T>(a: set<T>, b: set<T>)
    requires a <= b && |b| <= |a|
    ensures a == b
  {
    assert b == a + (b - a);
  }

  /** Every nonzero byte is a power of x. */
  lemma PowSurjective(a: bv8)
    requires a != 0
    ensures exists i :: 0 <= i < 255 && Pow(i) == a
  {
    forall b | b in PowSet(255) ensures b in BytesUpTo(255) {
      var i :| 0 <= i < 255 && Pow(i) == b;
      PowNonzero(i);
      NonzeroByte(b);
    }
    SubsetOfSameSize(PowSet(255), BytesUpTo(255));
    NonzeroByte(a);
  }

  ghost function Log(a: bv8): (i: nat)
    requires a != 0
    ensures i < 255 && Pow(i) == a
  {
    PowSurjective(a);
    var i :| 0 <= i < 255 && Pow(i) == a;
    i
  }

  // ----- the field product -----

  /** The product the tables compute: add logarithms, look the power up. */
  ghost function Mul(a: bv8, b: bv8): bv8 {
    if a == 0 || b == 0 then 0 else Pow(Log(a) + Log(b))
  }

  lemma MulCommutes(a: bv8, b: bv8)
    ensures Mul(a, b) == Mul(b, a)
  {
  }

  lemma MulIsIter(a: bv8, b: bv8)
    requires a != 0
    ensures Mul(a, b) == Iter(b, Log(a))
  {
    if b == 0 {
      IterZero(Log(a));
    } else {
      IterAdd(1, Log(b), Log(a));
    }
  }

  lemma MulPow(i: nat, b: bv8)
    ensures Mul(Pow(i), b) == Iter(b, i)
  {
    PowNonzero(i);
    if b == 0 {
      IterZero(i);
    } else {
      var a := Pow(i);
      MulIsIter(a, b);
      IterAdd(1, Log(b), Log(a));
      IterAdd(1, Log(a), Log(b));
      IterAdd(1, i, Log(b));
      IterAdd(1, Log(b), i);
    }
  }

  lemma PowStep(n: nat)
    requires n > 0
    ensures Mul(Pow(1), Pow(n - 1)) == Pow(n)
  {
    MulPow(1, Pow(n - 1));
    IterAdd(1, n - 1, 1);
  }

  lemma MulDistributes(a: bv8, b: bv8, c: bv8)
    ensures Mul(a, b ^ c) == Mul(a, b) ^ Mul(a, c)
  {
    if a != 0 {
      MulIsIter(a, b ^ c);
      MulIsIter(a, b);
      MulIsIter(a, c);
      IterLinear(b, c, Log(a));
    }
  }

  lemma MulAssociates(a: bv8, b: bv8, c: bv8)
    ensures Mul(a, Mul(b, c)) == Mul(Mul(a, b), c)
  {
    if a != 0 && b != 0 {
      MulIsIter(a, Mul(b, c));
      MulIsIter(b, c);
      IterAdd(c, Log(b), Log(a));
      MulPow(Log(a) + Log(b), c);
    }
  }

  lemma MulOne(b: bv8)
    ensures Mul(1, b) == b
  {
    assert Pow(0) == 1;
    MulPow(0, b);
    assert Iter(b, 0) == b;
  }

  lemma MulInjective(a: bv8, b: bv8, c: bv8)
    requires a != 0 && Mul(a, b) == Mul(a, c)
    ensures b == c
  {
    MulIsIter(a, b);
    MulIsIter(a, c);
    IterInjective(b, c, Log(a));
  }

  /** Schoolbook multiplication of polynomials over GF(2), reduced mod 0x11d as it goes. */
  function ShiftAndXor(a: bv8, b: bv8): bv8
    decreases b
  {
    if b == 0 then 0 else
      LowBitTimes(a, b) ^ ShiftAndXor(Xtime(a), b >> 1)
  }

  function LowBitTimes(a: bv8, b: bv8): bv8 {
    if b & 1 == 1 then a else 0
  }

  lemma MulLowBit(a: bv8, b: bv8)
    ensures Mul(a, b & 1) == LowBitTimes(a, b)
  {
    assert b & 1 == 0 || b & 1 == 1;
    MulOne(a);
    MulCommutes(a, 1);
  }

  lemma MulXtime(a: bv8, c: bv8)
    ensures Mul(a, Xtime(c)) == Mul(Xtime(a), c)
  {
    assert Pow(1) == 2 && Iter(a, 0) == a && Iter(c, 0) == c;
    MulPow(1, c);
    MulPow(1, a);
    MulCommutes(a, 2);
    MulAssociates(a, 2, c);
  }

  lemma SplitLowBit(b: bv8)
    ensures b == (b & 1) ^ Xtime(b >> 1)
  {
  }

  lemma MulSplit(a: bv8, b: bv8, p: bv8, q: bv8)
    requires b == p ^ q
    ensures Mul(a, b) == Mul(a, p) ^ Mul(a, q)
  {
    MulDistributes(a, p, q);
  }

  lemma MulStep(a: bv8, b: bv8)
    ensures Mul(a, b) == LowBitTimes(a, b) ^ Mul(Xtime(a), b >> 1)
  {
    var high := Xtime(b >> 1);
    assert b == (b & 1) ^ high by {
      SplitLowBit(b);
    }
    MulSplit(a, b, b & 1, high);
    MulLowBit(a, b);
    MulXtime(a, b >> 1);
  }

  lemma ShiftDecreases(b: bv8)
    ensures b != 0 ==> b >> 1 < b
  {
  }

  /** The table product is multiplication of polynomials modulo 0x11d. */
  lemma {:induction false} MulIsShiftAndXor(a: bv8, b: bv8)
    ensures Mul(a, b) == ShiftAndXor(a, b)
    decreases b
  {
    if b != 0 {
      MulStep(a, b);
      ShiftDecreases(b);
      MulIsShiftAndXor(Xtime(a), b >> 1);
    }
  }

  // ----- the tables -----

  /** One step of the table loop, on a wider word as the source does it. */
  lemma ShiftAndReduce(x: bv16)
    requires x < 256
    ensures var y := if (x << 1) & 0x100 != 0 then (x << 1) ^ 0x11d else x << 1;
            y < 256 && y as bv8 == Xtime(x as bv8)
  {
  }

  newtype u8 = v: int | 0 <= v < 256

  /** Where the LOG table keeps the logarithm of x^i. */
  function PowIndex(i: nat): (k: nat)
    ensures k < 256
  {
    Pow(i) as int
  }

  lemma PowIndexDistinct(i: nat, j: nat)
    requires i < j < 255
    ensures PowIndex(i) != PowIndex(j)
  {
    if Pow(i) == Pow(j) {
      PowInjective(i, j);
    }
  }

  lemma SameIndex(x: bv16, i: nat)
    requires x < 256 && x as bv8 == Pow(i)
    ensures x as int == PowIndex(i)
  {
  }

  /** EXP and LOG, which nothing writes once they are built. */
  datatype Tables = Tables(exp: seq<bv8>, log: seq<u8>) {

    ghost predicate Valid() {
      && |exp| == 512 && |log| == 256
      && (forall i :: 0 <= i < 512 ==> exp[i] == Pow(i))
      && (forall i :: 0 <= i < 255 ==> log[PowIndex(i)] as int == i)
    }

    function GfMul(a: bv8, b: bv8): (p: bv8)
      requires Valid()
      ensures p == Mul(a, b)
    {
      if a == 0 || b == 0 then 0 else
        assert a as int == PowIndex(Log(a)) && b as int == PowIndex(Log(b));
        exp[log[a as int] as int + log[b as int] as int]
    }
  }

  method BuildTables() returns (t: Tables)
    ensures t.Valid()
  {
    var exp := new bv8[512];
    var log := new u8[256];
    var x: bv16 := 1;
    for i := 0 to 255
      invariant x < 256 && x as bv8 == Pow(i)
      invariant forall j :: 0 <= j < i ==> exp[j] == Pow(j)
      invariant forall j :: 0 <= j < i ==> log[PowIndex(j)] as int == j
    {
      exp[i] := x as bv8;
      SameIndex(x, i);
      log[x as int] := i as u8;
      forall j | 0 <= j < i ensures PowIndex(j) != PowIndex(i) {
        PowIndexDistinct(j, i);
      }
      ShiftAndReduce(x);
      x := x << 1;
      if x & 0x100 != 0 {
        x := x ^ 0x11d;
      }
    }
    for i := 255 to 512
      invariant forall j :: 0 <= j < i ==> exp[j] == Pow(j)
      invariant forall j :: 0 <= j < 255 ==> log[PowIndex(j)] as int == j
    {
      PowPeriod(i - 255);
      exp[i] := exp[i - 255];
    }
    t := Tables(exp[..], log[..]);
  }
}

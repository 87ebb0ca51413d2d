/**
  What the eight masks look like, told without their formulas (ISO/IEC 18004, section 7.8.2).
 */
module QrMasks {
  import opened QrModules

  lemma ModuloSix(t: int)
    ensures t % 2 + t % 3 == 0 <==> t % 6 == 0
    ensures (t % 2 + t % 3) % 2 == 0 <==> t % 6 < 3
  {
    var q, r := t / 6, t % 6;
    assert t == 2 * (3 * q + r / 2) + r % 2 && t == 3 * (2 * q + r / 3) + r % 3;
    Remainder(t, 2, 3 * q + r / 2, r % 2);
    Remainder(t, 3, 2 * q + r / 3, r % 3);
  }

  lemma Remainder(t: int, n: int, q: int, r: int)
    requires 0 <= r < n && t == n * q + r
    ensures t % n == r && t / n == q
  {
    assert t == n * (t / n) + t % n;
    InOrder(t / n + 1, q, n);
    InOrder(q + 1, t / n, n);
  }

  lemma InOrder(a: int, b: int, n: int)
    requires n > 0
    ensures a <= b ==> n * a <= n * b
  {
  }

  lemma Parity(y: int, x: int)
    ensures (y + x) % 2 == 0 <==> y % 2 == x % 2
  {
  }

  /** The masks that depend on rows and columns: checks, stripes, and blocks of 2 by 3. */
  lemma PlainMasks(y: nat, x: nat, a: nat, b: nat)
    requires 2 * a <= y < 2 * a + 2 && 3 * b <= x < 3 * b + 3
    ensures MaskAt(0, y, x) <==> y % 2 == x % 2
    ensures MaskAt(1, y, x) <==> y == 2 * a
    ensures MaskAt(2, y, x) <==> x == 3 * b
    ensures MaskAt(4, y, x) <==> a % 2 == b % 2
  {
    Remainder(y, 2, a, y - 2 * a);
    Remainder(x, 3, b, x - 3 * b);
    Parity(y, x);
    Parity(a, b);
  }

  lemma DiagonalMask(y: nat, x: nat)
    ensures MaskAt(3, y, x) <==> (y - 2 * x) % 3 == 0
  {
    var q, r := (y + x) / 3, (y + x) % 3;
    Remainder(y - 2 * x, 3, q - x, r);
  }

  /** The masks that depend on the product of row and column. */
  lemma ProductMasks(y: nat, x: nat)
    ensures MaskAt(5, y, x) <==> (y * x) % 6 == 0
    ensures MaskAt(6, y, x) <==> (y * x) % 6 < 3
    ensures MaskAt(7, y, x) <==> ((y % 2 == x % 2) <==> (y * x) % 3 != 1)
  {
    var t := y * x;
    ModuloSix(t);
    Parity(y, x);
    Parity((y + x) % 2, t % 3);
  }
}

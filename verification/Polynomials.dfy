/**
  Polynomials over a commutative ring of characteristic two, given as a record of its operations.
  A polynomial is the sequence of its coefficients, highest power first, so appending a coefficient
  multiplies by x and adds.
 */
module Polynomials {

  datatype Field<!T(!new)> = Field(zero: T, one: T, add: (T, T) -> T, mul: (T, T) -> T)

  /** Mentioning three elements here brings the laws below to bear on them. */
  ghost predicate On<T>(a: T, b: T, c: T) {
    true
  }

  ghost predicate SumLaws<T(!new)>(f: Field<T>, a: T, b: T, c: T) {
    && f.add(a, b) == f.add(b, a)
    && f.add(f.add(a, b), c) == f.add(a, f.add(b, c))
    && f.add(a, f.zero) == a
    && f.add(a, a) == f.zero
  }

  ghost predicate ProductLaws<T(!new)>(f: Field<T>, a: T, b: T, c: T) {
    && f.mul(a, b) == f.mul(b, a)
    && f.mul(f.mul(a, b), c) == f.mul(a, f.mul(b, c))
    && f.mul(a, f.add(b, c)) == f.add(f.mul(a, b), f.mul(a, c))
    && f.mul(f.one, a) == a
    && f.mul(f.zero, a) == f.zero
    && (f.mul(a, b) == f.zero ==> a == f.zero || b == f.zero)
  }

  ghost predicate Laws<T(!new)>(f: Field<T>) {
    forall a: T, b: T, c: T {:trigger On(a, b, c)} ::
      On(a, b, c) ==> SumLaws(f, a, b, c) && ProductLaws(f, a, b, c)
  }

  function Zeros<T(!new)>(f: Field<T>, n: nat): (p: seq<T>)
    ensures |p| == n
  {
    seq(n, i => f.zero)
  }

  function Add<T(!new)>(f: Field<T>, p: seq<T>, q: seq<T>): (r: seq<T>)
    requires |p| == |q|
    ensures |r| == |p|
  {
    seq(|p|, i requires 0 <= i < |p| => f.add(p[i], q[i]))
  }

  function Scale<T(!new)>(f: Field<T>, c: T, p: seq<T>): (r: seq<T>)
    ensures |r| == |p|
  {
    seq(|p|, i requires 0 <= i < |p| => f.mul(c, p[i]))
  }

  /** p + q with the last coefficients lined up. */
  function AddTail<T(!new)>(f: Field<T>, p: seq<T>, q: seq<T>): (r: seq<T>)
    requires |q| <= |p|
    ensures |r| == |p|
  {
    Add(f, p, Zeros(f, |p| - |q|) + q)
  }

  /** The value of p at a, by Horner's rule. */
  function Eval<T(!new)>(f: Field<T>, p: seq<T>, a: T): T {
    if p == [] then f.zero else
      f.add(f.mul(a, Eval(f, p[..|p| - 1], a)), p[|p| - 1])
  }

  /** The product of two polynomials. */
  function Times<T(!new)>(f: Field<T>, q: seq<T>, g: seq<T>): (r: seq<T>)
    requires g != []
    ensures |r| == |q| + |g| - 1
  {
    if q == [] then Zeros(f, |g| - 1) else
      AddTail(f, Times(f, q[..|q| - 1], g) + [f.zero], Scale(f, q[|q| - 1], g))
  }

  // ----- evaluation respects the operations -----

  lemma EvalSnoc<T(!new)>(f: Field<T>, p: seq<T>, c: T, a: T)
    ensures Eval(f, p + [c], a) == f.add(f.mul(a, Eval(f, p, a)), c)
  {
    assert (p + [c])[..|p|] == p;
  }

  lemma {:induction false} EvalZeros<T(!new)>(f: Field<T>, n: nat, a: T)
    requires Laws(f)
    ensures Eval(f, Zeros(f, n), a) == f.zero
  {
    if n > 0 {
      EvalZeros(f, n - 1, a);
      assert Zeros(f, n) == Zeros(f, n - 1) + [f.zero];
      EvalSnoc(f, Zeros(f, n - 1), f.zero, a);
      assert On(f.zero, a, a) && On(a, f.zero, a);
    }
  }

  lemma {:induction false} EvalPadded<T(!new)>(f: Field<T>, n: nat, p: seq<T>, a: T)
    requires Laws(f)
    ensures Eval(f, Zeros(f, n) + p, a) == Eval(f, p, a)
  {
    if p == [] {
      assert Zeros(f, n) + p == Zeros(f, n);
      EvalZeros(f, n, a);
    } else {
      var k := |p| - 1;
      EvalPadded(f, n, p[..k], a);
      assert Zeros(f, n) + p == (Zeros(f, n) + p[..k]) + [p[k]];
      EvalSnoc(f, Zeros(f, n) + p[..k], p[k], a);
    }
  }

  lemma AddSwaps<T(!new)>(f: Field<T>, a: T, b: T, c: T, d: T)
    requires Laws(f)
    ensures f.add(f.add(a, b), f.add(c, d)) == f.add(f.add(a, c), f.add(b, d))
  {
    assert On(a, b, f.add(c, d)) && On(b, c, d) && On(c, b, d) && On(a, c, f.add(b, d));
  }

  lemma {:induction false} EvalAdd<T(!new)>(f: Field<T>, p: seq<T>, q: seq<T>, a: T)
    requires Laws(f) && |p| == |q|
    ensures Eval(f, Add(f, p, q), a) == f.add(Eval(f, p, a), Eval(f, q, a))
  {
    if p == [] {
      assert On(f.zero, f.zero, f.zero);
    } else {
      var k := |p| - 1;
      var v, w := Eval(f, p[..k], a), Eval(f, q[..k], a);
      EvalAdd(f, p[..k], q[..k], a);
      assert Add(f, p, q)[..k] == Add(f, p[..k], q[..k]);
      assert On(a, v, w);
      AddSwaps(f, f.mul(a, v), f.mul(a, w), p[k], q[k]);
    }
  }

  lemma {:induction false} EvalScale<T(!new)>(f: Field<T>, c: T, p: seq<T>, a: T)
    requires Laws(f)
    ensures Eval(f, Scale(f, c, p), a) == f.mul(c, Eval(f, p, a))
  {
    if p == [] {
      assert On(f.zero, c, c) && On(c, f.zero, c);
    } else {
      var k := |p| - 1;
      var v := Eval(f, p[..k], a);
      EvalScale(f, c, p[..k], a);
      assert Scale(f, c, p)[..k] == Scale(f, c, p[..k]);
      assert On(c, f.mul(a, v), p[k]) && On(a, c, v) && On(c, a, v);
    }
  }

  lemma EvalAddTail<T(!new)>(f: Field<T>, p: seq<T>, q: seq<T>, a: T)
    requires Laws(f) && |q| <= |p|
    ensures Eval(f, AddTail(f, p, q), a) == f.add(Eval(f, p, a), Eval(f, q, a))
  {
    EvalAdd(f, p, Zeros(f, |p| - |q|) + q, a);
    EvalPadded(f, |p| - |q|, q, a);
  }

  lemma {:induction false} EvalTimes<T(!new)>(f: Field<T>, q: seq<T>, g: seq<T>, a: T)
    requires Laws(f) && g != []
    ensures Eval(f, Times(f, q, g), a) == f.mul(Eval(f, q, a), Eval(f, g, a))
  {
    var w := Eval(f, g, a);
    if q == [] {
      EvalZeros(f, |g| - 1, a);
      assert On(w, w, w);
    } else {
      var k := |q| - 1;
      var v := Eval(f, q[..k], a);
      EvalTimes(f, q[..k], g, a);
      var shifted := Times(f, q[..k], g) + [f.zero];
      EvalSnoc(f, Times(f, q[..k], g), f.zero, a);
      EvalScale(f, q[k], g, a);
      EvalAddTail(f, shifted, Scale(f, q[k], g), a);
      var av := f.mul(a, v);
      assert On(f.mul(a, f.mul(v, w)), f.zero, w) && On(a, v, w);
      assert On(w, av, q[k]) && On(av, w, w) && On(q[k], w, w) && On(f.add(av, q[k]), w, w);
    }
  }

  // ----- a polynomial with more roots than its degree is zero -----

  /** The coefficients of (p - p(a)) / (x - a): Horner's intermediate values. */
  function Quot<T(!new)>(f: Field<T>, p: seq<T>, a: T): (q: seq<T>)
    requires p != []
    ensures |q| == |p| - 1
  {
    seq(|p| - 1, i requires 0 <= i < |p| - 1 => Eval(f, p[..i + 1], a))
  }

  lemma {:induction false} SyntheticDivision<T(!new)>(f: Field<T>, p: seq<T>, a: T, b: T)
    requires Laws(f) && p != []
    ensures Eval(f, p, b) == f.add(f.mul(Eval(f, Quot(f, p, a), b), f.add(b, a)), Eval(f, p, a))
  {
    var k := |p| - 1;
    if k == 0 {
      assert p[..0] == [] && Quot(f, p, a) == [];
      var z, s := f.zero, f.add(b, a);
      assert On(s, s, s) && On(a, z, z) && On(b, z, z) && On(z, a, a) && On(z, b, b);
      assert On(z, p[0], z) && On(p[0], z, z);
    } else {
      SyntheticDivision(f, p[..k], a, b);
      var q := Quot(f, p, a);
      var q' := Quot(f, p[..k], a);
      forall i | 0 <= i < k - 1 ensures q[i] == q'[i] {
        assert p[..k][..i + 1] == p[..i + 1];
      }
      assert q == q' + [Eval(f, p[..k], a)];
      EvalSnoc(f, q', Eval(f, p[..k], a), b);
      HornerStep(f, Eval(f, q', b), Eval(f, p[..k], a), p[k], a, b);
    }
  }

  /** b(u(b+a) + v) + c == (bu + v)(b+a) + (av + c) */
  lemma HornerStep<T(!new)>(f: Field<T>, u: T, v: T, c: T, a: T, b: T)
    requires Laws(f)
    ensures f.add(f.mul(b, f.add(f.mul(u, f.add(b, a)), v)), c)
         == f.add(f.mul(f.add(f.mul(b, u), v), f.add(b, a)), f.add(f.mul(a, v), c))
  {
    var s := f.add(b, a);
    var bus, bv, av := f.mul(f.mul(b, u), s), f.mul(b, v), f.mul(a, v);
    assert On(b, f.mul(u, s), v) && On(b, u, s);
    assert f.mul(b, f.add(f.mul(u, s), v)) == f.add(bus, bv);
    assert On(s, f.mul(b, u), v) && On(f.mul(b, u), s, s) && On(s, v, v);
    assert On(f.add(f.mul(b, u), v), s, s);
    assert On(v, b, a) && On(b, v, v) && On(a, v, v);
    assert f.mul(f.add(f.mul(b, u), v), s) == f.add(bus, f.add(bv, av));
    assert On(bus, f.add(bv, av), f.add(av, c)) && On(bv, av, f.add(av, c)) && On(av, av, c);
    assert On(c, f.zero, c) && On(f.zero, c, c) && On(bus, bv, c);
  }

  ghost predicate Distinct<T(!new)>(xs: seq<T>) {
    forall i, j :: 0 <= i < j < |xs| ==> xs[i] != xs[j]
  }

  ghost predicate VanishesOn<T(!new)>(f: Field<T>, p: seq<T>, xs: seq<T>) {
    forall i :: 0 <= i < |xs| ==> Eval(f, p, xs[i]) == f.zero
  }

  lemma SumZero<T(!new)>(f: Field<T>, a: T, b: T)
    requires Laws(f) && f.add(a, b) == f.zero
    ensures a == b
  {
    assert On(a, b, b) && On(b, b, b) && On(f.zero, b, b) && On(b, f.zero, b) && On(a, f.zero, a);
  }

  lemma QuotVanishes<T(!new)>(f: Field<T>, p: seq<T>, xs: seq<T>)
    requires Laws(f) && |p| == |xs| > 0 && Distinct(xs) && VanishesOn(f, p, xs)
    ensures VanishesOn(f, Quot(f, p, xs[0]), xs[1..])
  {
    var a := xs[0];
    forall i | 0 <= i < |xs[1..]| ensures Eval(f, Quot(f, p, a), xs[1..][i]) == f.zero {
      var b := xs[i + 1];
      SyntheticDivision(f, p, a, b);
      var v := Eval(f, Quot(f, p, a), b);
      assert On(f.mul(v, f.add(b, a)), f.zero, v) && On(v, f.add(b, a), v);
      if f.add(b, a) == f.zero {
        SumZero(f, b, a);
      }
    }
  }

  lemma {:induction false} ManyRoots<T(!new)>(f: Field<T>, p: seq<T>, xs: seq<T>)
    requires Laws(f) && |p| == |xs| && Distinct(xs) && VanishesOn(f, p, xs)
    ensures p == Zeros(f, |p|)
    decreases |p|
  {
    if p != [] {
      var a := xs[0];
      QuotVanishes(f, p, xs);
      var q := Quot(f, p, a);
      ManyRoots(f, q, xs[1..]);
      forall i | 0 <= i < |p| ensures p[i] == f.zero {
        assert i < |p| - 1 ==> q[i] == f.zero;
        assert Eval(f, p[..i + 1], a) == f.zero by {
          assert i == |p| - 1 ==> p[..i + 1] == p;
          assert Eval(f, p, xs[0]) == f.zero;
        }
        assert p[..i + 1] == p[..i] + [p[i]];
        EvalSnoc(f, p[..i], p[i], a);
        assert Eval(f, p[..i], a) == f.zero by {
          assert i > 0 ==> q[i - 1] == f.zero;
        }
        assert On(f.zero, a, a) && On(a, f.zero, a) && On(p[i], f.zero, a) && On(f.zero, p[i], a);
      }
    }
  }

  // ----- a polynomial with few terms and many consecutive roots is zero -----

  function Power<T(!new)>(f: Field<T>, a: T, n: nat): T {
    if n == 0 then f.one else f.mul(a, Power(f, a, n - 1))
  }

  /** The places of the coefficients that are not zero. */
  ghost function Support<T(!new)>(f: Field<T>, p: seq<T>): set<int> {
    set i | 0 <= i < |p| && p[i] != f.zero
  }

  lemma {:induction false} SupportFits<T(!new)>(f: Field<T>, p: seq<T>)
    ensures |Support(f, p)| <= |p|
  {
    if p != [] {
      var k := |p| - 1;
      SupportFits(f, p[..k]);
      assert Support(f, p) == if p[k] == f.zero then Support(f, p[..k]) else Support(f, p[..k]) + {k};
    } else {
      assert Support(f, p) == {};
    }
  }

  /** p(ax) */
  function Scaled<T(!new)>(f: Field<T>, p: seq<T>, a: T): (r: seq<T>)
    ensures |r| == |p|
  {
    seq(|p|, i requires 0 <= i < |p| => f.mul(p[i], Power(f, a, |p| - 1 - i)))
  }

  lemma ScaledSnoc<T(!new)>(f: Field<T>, p: seq<T>, a: T)
    requires Laws(f) && p != []
    ensures var k := |p| - 1; Scaled(f, p, a) == Scale(f, a, Scaled(f, p[..k], a)) + [p[k]]
  {
    var k := |p| - 1;
    var s, front := Scaled(f, p, a), Scale(f, a, Scaled(f, p[..k], a));
    forall i | 0 <= i < k ensures s[i] == front[i] {
      var c, e := p[i], Power(f, a, k - 1 - i);
      assert On(c, a, e) && On(a, c, e) && On(f.mul(c, a), e, e);
    }
    assert On(p[k], f.one, a) && On(f.one, p[k], a);
    assert s[k] == p[k];
  }

  lemma {:induction false} EvalScaled<T(!new)>(f: Field<T>, p: seq<T>, a: T, x: T)
    requires Laws(f)
    ensures Eval(f, Scaled(f, p, a), x) == Eval(f, p, f.mul(a, x))
  {
    if p != [] {
      var k := |p| - 1;
      var front := Scaled(f, p[..k], a);
      EvalScaled(f, p[..k], a, x);
      ScaledSnoc(f, p, a);
      EvalSnoc(f, Scale(f, a, front), p[k], x);
      EvalScale(f, a, front, x);
      var v := Eval(f, front, x);
      assert On(x, a, v) && On(a, x, v);
    }
  }

  /** p(ax) less the k-th power of a times p(x): the k-th term is gone, and one root less is sure. */
  function Twisted<T(!new)>(f: Field<T>, p: seq<T>, a: T, k: nat): (r: seq<T>)
    requires k < |p|
    ensures |r| == |p|
  {
    Add(f, Scaled(f, p, a), Scale(f, Power(f, a, |p| - 1 - k), p))
  }

  lemma EvalTwisted<T(!new)>(f: Field<T>, p: seq<T>, a: T, k: nat, j: nat)
    requires Laws(f) && k < |p|
    requires Eval(f, p, Power(f, a, j)) == f.zero && Eval(f, p, Power(f, a, j + 1)) == f.zero
    ensures Eval(f, Twisted(f, p, a, k), Power(f, a, j)) == f.zero
  {
    var x, c := Power(f, a, j), Power(f, a, |p| - 1 - k);
    EvalAdd(f, Scaled(f, p, a), Scale(f, c, p), x);
    EvalScaled(f, p, a, x);
    EvalScale(f, c, p, x);
    assert On(c, f.zero, c) && On(f.zero, c, c) && On(f.zero, f.zero, f.zero);
  }

  /** The first m powers of a are different. */
  ghost predicate PowersDiffer<T(!new)>(f: Field<T>, a: T, m: nat) {
    forall i, j :: 0 <= i < j < m ==> Power(f, a, i) != Power(f, a, j)
  }

  lemma TwistedSupport<T(!new)>(f: Field<T>, p: seq<T>, a: T, k: nat)
    requires Laws(f) && PowersDiffer(f, a, |p|) && k < |p|
    ensures Support(f, Twisted(f, p, a, k)) == Support(f, p) - {k}
  {
    var q, m := Twisted(f, p, a, k), |p| - 1;
    forall i | 0 <= i < |p| ensures q[i] == f.zero <==> p[i] == f.zero || i == k {
      var c, u, v := p[i], Power(f, a, m - i), Power(f, a, m - k);
      assert q[i] == f.add(f.mul(c, u), f.mul(v, c));
      assert On(v, c, c) && On(c, u, v) && On(c, f.add(u, v), c);
      assert q[i] == f.mul(c, f.add(u, v));
      assert On(f.zero, f.add(u, v), c) && On(u, u, u) && On(c, f.zero, c);
      if f.add(u, v) == f.zero {
        SumZero(f, u, v);
        assert m - i == m - k;
      }
    }
  }

  lemma {:induction false} EvalLone<T(!new)>(f: Field<T>, p: seq<T>, k: nat)
    requires Laws(f) && k < |p| && forall i :: 0 <= i < |p| && i != k ==> p[i] == f.zero
    ensures Eval(f, p, f.one) == p[k]
  {
    var n := |p| - 1;
    var v := Eval(f, p[..n], f.one);
    assert On(f.one, v, v) && On(v, f.zero, v);
    if k < n {
      EvalLone(f, p[..n], k);
    } else {
      assert p[..n] == Zeros(f, n);
      EvalZeros(f, n, f.one);
      assert On(f.one, f.zero, f.zero) && On(f.zero, p[k], f.zero) && On(p[k], f.zero, f.zero);
    }
  }

  /** At most n terms, and zero at the first n powers of a: no terms at all. */
  lemma {:induction false} FewTerms<T(!new)>(f: Field<T>, p: seq<T>, a: T, n: nat)
    requires Laws(f) && PowersDiffer(f, a, |p|) && |Support(f, p)| <= n
    requires forall j :: 0 <= j < n ==> Eval(f, p, Power(f, a, j)) == f.zero
    ensures Support(f, p) == {}
    decreases n
  {
    if Support(f, p) != {} {
      var k: int :| k in Support(f, p);
      var q := Twisted(f, p, a, k);
      assert Eval(f, p, Power(f, a, 0)) == f.zero && Power(f, a, 0) == f.one;
      TwistedSupport(f, p, a, k);
      forall j | 0 <= j < n - 1 ensures Eval(f, q, Power(f, a, j)) == f.zero {
        EvalTwisted(f, p, a, k, j);
      }
      assert |Support(f, q)| == |Support(f, p)| - 1;
      FewTerms(f, q, a, n - 1);
      LoneTerm(f, p, k);
      assert false;
    }
  }

  lemma LoneTerm<T(!new)>(f: Field<T>, p: seq<T>, k: nat)
    requires Laws(f) && k < |p| && p[k] != f.zero && Support(f, p) - {k} == {}
    ensures Eval(f, p, f.one) != f.zero
  {
    forall i | 0 <= i < |p| && i != k ensures p[i] == f.zero {
      assert i !in Support(f, p) - {k};
    }
    EvalLone(f, p, k);
  }

  // ----- the shift register -----

  function Factor<T(!new)>(f: Field<T>, register: seq<T>, b: T): T {
    f.add(b, if register == [] then f.zero else register[0])
  }

  /** The register of a divider by the monic g, after one more coefficient b. */
  function Shift<T(!new)>(f: Field<T>, g: seq<T>, register: seq<T>, b: T): (r: seq<T>)
    requires |g| == |register| + 1
    ensures |r| == |register|
  {
    if register == [] then [] else
      Add(f, register[1..] + [f.zero], Scale(f, Factor(f, register, b), g[1..]))
  }

  /** The register after all the data. */
  function Remainder<T(!new)>(f: Field<T>, g: seq<T>, data: seq<T>): (r: seq<T>)
    requires g != []
    ensures |r| == |g| - 1
  {
    if data == [] then Zeros(f, |g| - 1) else
      Shift(f, g, Remainder(f, g, data[..|data| - 1]), data[|data| - 1])
  }

  function Quotient<T(!new)>(f: Field<T>, g: seq<T>, data: seq<T>): (q: seq<T>)
    requires g != []
    ensures |q| == |data|
  {
    if data == [] then [] else
      var k := |data| - 1;
      Quotient(f, g, data[..k]) + [Factor(f, Remainder(f, g, data[..k]), data[k])]
  }

  /** One step of the register is one step of long division. */
  lemma DivisionStep<T(!new)>(f: Field<T>, g: seq<T>, prefix: seq<T>, register: seq<T>, b: T)
    requires Laws(f) && |g| == |register| + 1 && g[0] == f.one
    ensures AddTail(f, prefix + register + [f.zero], Scale(f, Factor(f, register, b), g))
            == prefix + [b] + Shift(f, g, register, b)
  {
    var c, m := Factor(f, register, b), |prefix|;
    var left := AddTail(f, prefix + register + [f.zero], Scale(f, c, g));
    var right := prefix + [b] + Shift(f, g, register, b);
    forall i | 0 <= i < |left| ensures left[i] == right[i] {
      if i < m {
        assert On(prefix[i], f.zero, f.zero);
      } else if i == m {
        var top := if register == [] then f.zero else register[0];
        assert On(c, f.one, top) && On(f.one, c, top) && On(top, c, top);
        assert On(b, top, top) && On(top, top, top) && On(b, f.zero, top);
      }
    }
  }

  /** Data followed by the register is a multiple of the divisor. */
  lemma {:induction false} Division<T(!new)>(f: Field<T>, g: seq<T>, data: seq<T>)
    requires Laws(f) && g != [] && g[0] == f.one
    ensures data + Remainder(f, g, data) == Times(f, Quotient(f, g, data), g)
  {
    if data != [] {
      var k := |data| - 1;
      Division(f, g, data[..k]);
      DivisionStep(f, g, data[..k], Remainder(f, g, data[..k]), data[k]);
      assert data == data[..k] + [data[k]];
    }
  }
}

/**
  Reed-Solomon check symbols over GF(256) (ISO/IEC 18004, section 7.5.2).

  The shift register of the encoder carries out long division: data followed by the register is a
  multiple of the generator polynomial, so it vanishes at all the generator's roots, and no other
  check symbols after the same data do.
 */
module ReedSolomon {
  import opened Gf256
  import opened Polynomials

  ghost const GF: Field<bv8> := Field(0, 1, (a: bv8, b: bv8) => Xor(a, b), (a: bv8, b: bv8) => Mul(a, b))

  lemma ByteSumLaws(a: bv8, b: bv8, c: bv8)
    ensures SumLaws(GF, a, b, c)
  {
  }

  lemma ByteProductLaws(a: bv8, b: bv8, c: bv8)
    ensures ProductLaws(GF, a, b, c)
  {
    MulCommutes(a, b);
    MulAssociates(a, b, c);
    MulDistributes(a, b, c);
    MulOne(a);
    if a != 0 && b != 0 {
      PowNonzero(Log(a) + Log(b));
    }
  }

  lemma GFLaws()
    ensures Laws(GF)
  {
    forall a: bv8, b: bv8, c: bv8 {:trigger On(a, b, c)} | On(a, b, c)
      ensures SumLaws(GF, a, b, c) && ProductLaws(GF, a, b, c)
    {
      ByteSumLaws(a, b, c);
      ByteProductLaws(a, b, c);
    }
  }

  // ----- the generator -----

  /** The i-th root asked of the table; past its end the product with it is 0. */
  function Root(i: nat): bv8 {
    if i < 512 then Pow(i) else 0
  }

  /** p * (x + r) */
  ghost function TimesLinear(p: seq<bv8>, r: bv8): (q: seq<bv8>)
    ensures |q| == |p| + 1
  {
    Add(GF, p + [0], [0] + Scale(GF, r, p))
  }

  /** (x + Root(0)) ... (x + Root(n-1)) */
  ghost function Generator(n: nat): (g: seq<bv8>)
    ensures |g| == n + 1 && g[0] == 1
  {
    if n == 0 then [1] else
      TimesLinear(Generator(n - 1), Root(n - 1))
  }

  lemma EvalTimesLinear(p: seq<bv8>, r: bv8, a: bv8)
    ensures Eval(GF, TimesLinear(p, r), a) == GF.mul(GF.add(a, r), Eval(GF, p, a))
  {
    GFLaws();
    var v := Eval(GF, p, a);
    EvalAdd(GF, p + [0], [0] + Scale(GF, r, p), a);
    EvalSnoc(GF, p, 0, a);
    EvalScale(GF, r, p, a);
    assert [0] + Scale(GF, r, p) == Zeros(GF, 1) + Scale(GF, r, p);
    EvalPadded(GF, 1, Scale(GF, r, p), a);
    assert On(v, a, r) && On(GF.add(a, r), v, v) && On(a, v, v) && On(r, v, v);
    assert On(GF.mul(a, v), v, v);
  }

  lemma {:induction false} GeneratorRoots(n: nat, i: nat)
    requires i < n
    ensures Eval(GF, Generator(n), Root(i)) == 0
  {
    GFLaws();
    var a, v := Root(i), Eval(GF, Generator(n - 1), Root(i));
    EvalTimesLinear(Generator(n - 1), Root(n - 1), a);
    if i < n - 1 {
      GeneratorRoots(n - 1, i);
      assert On(GF.add(a, Root(n - 1)), 0, 0) && On(0, GF.add(a, Root(n - 1)), 0);
    } else {
      assert On(a, a, a) && On(0, v, v) && On(v, v, v);
    }
  }

  /** The n check symbols for the data. */
  ghost function Check(data: seq<bv8>, n: nat): (r: seq<bv8>)
    ensures |r| == n
  {
    Remainder(GF, Generator(n), data)
  }

  /** Data followed by its check symbols is a multiple of the generator, for any data and any n. */
  lemma CheckDivides(data: seq<bv8>, n: nat)
    ensures data + Check(data, n) == Times(GF, Quotient(GF, Generator(n), data), Generator(n))
  {
    GFLaws();
    Division(GF, Generator(n), data);
  }

  /** Every syndrome of a received word is zero. */
  ghost predicate IsCodeword(word: seq<bv8>, n: nat) {
    forall i :: 0 <= i < n ==> Eval(GF, word, Root(i)) == 0
  }

  /** The codeword vanishes at every root of the generator. */
  lemma CodewordVanishes(data: seq<bv8>, n: nat)
    ensures IsCodeword(data + Check(data, n), n)
  {
    GFLaws();
    CheckDivides(data, n);
    var q := Quotient(GF, Generator(n), data);
    forall i | 0 <= i < n ensures Eval(GF, data + Check(data, n), Root(i)) == 0 {
      EvalTimes(GF, q, Generator(n), Root(i));
      GeneratorRoots(n, i);
      assert On(Eval(GF, q, Root(i)), 0, 0) && On(0, Eval(GF, q, Root(i)), 0);
    }
  }

  /** No other n symbols after the data vanish at the n roots: the check symbols are determined. */
  lemma CheckIsUnique(data: seq<bv8>, check: seq<bv8>)
    requires |check| <= 255 && IsCodeword(data + check, |check|)
    ensures check == Check(data, |check|)
  {
    GFLaws();
    var n := |check|;
    var word, word' := data + check, data + Check(data, n);
    var roots := seq(n, i requires 0 <= i < n => Root(i));
    var diff := Add(GF, check, Check(data, n));
    CodewordVanishes(data, n);
    forall i | 0 <= i < n ensures Eval(GF, diff, roots[i]) == 0 {
      EvalAdd(GF, word, word', Root(i));
      assert Add(GF, word, word') == Zeros(GF, |data|) + diff by {
        forall k | 0 <= k < |data| ensures Add(GF, word, word')[k] == 0 {
          assert On(data[k], data[k], data[k]);
        }
      }
      EvalPadded(GF, |data|, diff, Root(i));
      assert On(0, 0, 0);
    }
    forall i, j | 0 <= i < j < n ensures roots[i] != roots[j] {
      if Pow(i) == Pow(j) {
        PowInjective(i, j);
      }
    }
    ManyRoots(GF, diff, roots);
    forall k | 0 <= k < n ensures check[k] == Check(data, n)[k] {
      assert diff[k] == 0;
      SumZero(GF, check[k], Check(data, n)[k]);
    }
  }

  // ----- distance -----

  lemma {:induction false} PowersArePow(n: nat)
    ensures Power(GF, Pow(1), n) == Pow(n)
  {
    if n > 0 {
      PowersArePow(n - 1);
      PowStep(n);
    }
  }

  /** The places at which two words differ. */
  function Places(v: seq<bv8>, w: seq<bv8>): set<int>
    requires |v| == |w|
  {
    set i | 0 <= i < |v| && v[i] != w[i]
  }

  lemma PlacesOfDifference(v: seq<bv8>, w: seq<bv8>)
    requires |v| == |w|
    ensures Support(GF, Add(GF, v, w)) == Places(v, w)
  {
    GFLaws();
    var d := Add(GF, v, w);
    forall i | 0 <= i < |v| ensures d[i] == GF.zero <==> v[i] == w[i] {
      assert On(v[i], v[i], v[i]);
      if d[i] == GF.zero {
        SumZero(GF, v[i], w[i]);
      }
    }
  }

  lemma DifferenceIsCodeword(v: seq<bv8>, w: seq<bv8>, n: nat)
    requires |v| == |w| && IsCodeword(v, n) && IsCodeword(w, n)
    ensures IsCodeword(Add(GF, v, w), n)
  {
    GFLaws();
    forall i | 0 <= i < n ensures Eval(GF, Add(GF, v, w), Root(i)) == 0 {
      EvalAdd(GF, v, w, Root(i));
      assert On(0, 0, 0);
    }
  }

  lemma PowersDifferTo255(m: nat)
    requires m <= 255
    ensures PowersDiffer(GF, Pow(1), m)
  {
    forall i, j | 0 <= i < j < m ensures Power(GF, Pow(1), i) != Power(GF, Pow(1), j) {
      PowersArePow(i);
      PowersArePow(j);
      if Pow(i) == Pow(j) {
        PowInjective(i, j);
      }
    }
  }

  /** Two different words of up to 255 symbols whose n syndromes are zero differ in more than n places. */
  lemma CodewordsAreApart(v: seq<bv8>, w: seq<bv8>, n: nat)
    requires |v| == |w| <= 255 && IsCodeword(v, n) && IsCodeword(w, n) && v != w
    ensures |Places(v, w)| > n
  {
    GFLaws();
    var d := Add(GF, v, w);
    DifferenceIsCodeword(v, w, n);
    PlacesOfDifference(v, w);
    PowersDifferTo255(|d|);
    var i :| 0 <= i < |v| && v[i] != w[i];
    assert i in Places(v, w);
    if |Support(GF, d)| <= n {
      SupportFits(GF, d);
      FirstRootsVanish(d, n);
      FewTerms(GF, d, Pow(1), |Support(GF, d)|);
    }
  }

  lemma FirstRootsVanish(d: seq<bv8>, n: nat)
    requires IsCodeword(d, n)
    ensures forall j :: 0 <= j < n && j < 512 ==> Eval(GF, d, Power(GF, Pow(1), j)) == 0
  {
    forall j | 0 <= j < n && j < 512 ensures Eval(GF, d, Power(GF, Pow(1), j)) == 0 {
      PowersArePow(j);
      assert Eval(GF, d, Root(j)) == 0;
    }
  }

  /** Blocks with different data differ in more than n places, n being the number of check symbols. */
  lemma BlocksAreApart(a: seq<bv8>, b: seq<bv8>, n: nat)
    requires |a| == |b| && |a| + n <= 255 && a != b
    ensures |Places(a + Check(a, n), b + Check(b, n))| > n
  {
    CodewordVanishes(a, n);
    CodewordVanishes(b, n);
    var v, w := a + Check(a, n), b + Check(b, n);
    assert v[..|a|] == a && w[..|a|] == b;
    CodewordsAreApart(v, w, n);
  }

  lemma SomePlace<T>(s: set<T>, a: set<T>, b: set<T>)
    requires s <= a + b
    ensures |s| <= |a| + |b|
  {
    assert a + b == a + (b - a) && b == (b - a) + (b * a);
    assert a + b == s + (a + b - s);
  }

  /** So n check symbols correct n / 2 errors: at most one codeword is that close to a received word. */
  lemma ErrorsAreCorrectable(received: seq<bv8>, v: seq<bv8>, w: seq<bv8>, n: nat)
    requires |received| == |v| == |w| <= 255 && IsCodeword(v, n) && IsCodeword(w, n)
    requires |Places(received, v)| <= n / 2 && |Places(received, w)| <= n / 2
    ensures v == w
  {
    SomePlace(Places(v, w), Places(received, v), Places(received, w));
    if v != w {
      CodewordsAreApart(v, w, n);
    }
  }

  // ----- the encoder's loops -----

  /** Coefficient j of p * (x + r), in the order in which the generator loop adds it up. */
  lemma TimesLinearAt(p: seq<bv8>, r: bv8, j: nat)
    requires j <= |p|
    ensures TimesLinear(p, r)[j] ==
            Xor(if j == 0 then 0 else Mul(p[j - 1], r), if j < |p| then p[j] else 0)
  {
    if j > 0 {
      MulCommutes(p[j - 1], r);
    }
  }

  lemma XorZero(a: bv8)
    ensures Xor(0, a) == a == Xor(a, 0)
  {
  }

  method MultiplyLinear(t: Tables, poly: array<bv8>, root: bv8) returns (next: array<bv8>)
    requires t.Valid()
    ensures fresh(next) && next[..] == TimesLinear(poly[..], root)
  {
    hide Mul, Xor;
    next := new bv8[poly.Length + 1](i => 0);
    ghost var target := TimesLinear(poly[..], root);
    for j := 0 to poly.Length
      invariant forall k :: 0 <= k < j ==> next[k] == target[k]
      invariant next[j] == if j == 0 then 0 else Mul(poly[j - 1], root)
      invariant forall k :: j < k < next.Length ==> next[k] == 0
    {
      TimesLinearAt(poly[..], root, j);
      next[j] := Xor(next[j], poly[j]);
      var p := t.GfMul(poly[j], root);
      XorZero(p);
      next[j + 1] := Xor(next[j + 1], p);
    }
    TimesLinearAt(poly[..], root, poly.Length);
    XorZero(next[poly.Length]);
  }

  method RsGenerator(t: Tables, n: nat) returns (poly: array<bv8>)
    requires t.Valid()
    ensures fresh(poly) && poly[..] == Generator(n)
  {
    hide Mul, Xor;
    poly := new bv8[1](i => 1);
    for i := 0 to n
      invariant fresh(poly) && poly[..] == Generator(i)
    {
      var root := if i < 512 then t.exp[i] else 0;
      poly := MultiplyLinear(t, poly, root);
    }
  }

  /** One data byte enters the register. */
  method Feed(t: Tables, gen: array<bv8>, rest: array<bv8>, b: bv8)
    requires t.Valid() && gen != rest && gen.Length == rest.Length + 1
    modifies rest
    ensures rest[..] == Shift(GF, gen[..], old(rest[..]), b)
  {
    hide Mul, Xor;
    var n := rest.Length;
    ghost var register := rest[..];
    var factor := Xor(b, if n > 0 then rest[0] else 0);
    forall i | 0 <= i < n - 1 {
      rest[i] := rest[i + 1];
    }
    if n > 0 {
      rest[n - 1] := 0;
    }
    ghost var shifted := rest[..];
    assert n > 0 ==> shifted == register[1..] + [0];
    if factor != 0 {
      for i := 0 to n
        invariant gen[..] == old(gen[..])
        invariant forall k :: i <= k < n ==> rest[k] == shifted[k]
        invariant forall k :: 0 <= k < i ==> rest[k] == Xor(shifted[k], Mul(factor, gen[k + 1]))
      {
        var p := t.GfMul(gen[i + 1], factor);
        MulCommutes(gen[i + 1], factor);
        rest[i] := Xor(rest[i], p);
      }
    } else {
      forall k | 0 <= k < n ensures rest[k] == Xor(shifted[k], Mul(factor, gen[k + 1])) {
        MulByZero(gen[k + 1]);
        XorZero(shifted[k]);
      }
    }
  }

  lemma MulByZero(a: bv8)
    ensures Mul(0, a) == 0
  {
  }

  method RsEncode(t: Tables, data: seq<bv8>, n: nat) returns (rest: array<bv8>)
    requires t.Valid()
    ensures fresh(rest) && rest[..] == Check(data, n)
  {
    var gen := RsGenerator(t, n);
    rest := new bv8[n](i => 0);
    assert rest[..] == Zeros(GF, n);
    for d := 0 to |data|
      invariant gen[..] == Generator(n)
      invariant rest[..] == Remainder(GF, Generator(n), data[..d])
    {
      Feed(t, gen, rest, data[d]);
      assert data[..d + 1][..d] == data[..d];
    }
    assert data[..|data|] == data;
  }
}

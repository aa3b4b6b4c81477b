/** Powers in Z_q: which exponents leave every non-zero scalar as it is. */
module Powers {
  import opened Zq
  import opened Permutations

  function Pow(q: nat, x: Scalar, n: nat): (r: Scalar)
    requires 2 <= q
    ensures r < q
  {
    if n == 0 then 1 else Mul(q, Pow(q, x, n - 1), x)
  }

  lemma {:induction false} PowAdd(q: nat, x: Scalar, a: nat, b: nat)
    requires 2 <= q
    ensures Pow(q, x, a + b) == Mul(q, Pow(q, x, a), Pow(q, x, b))
    decreases b
  {
    hide Mul;
    if b == 0 {
      MulOne(q, Pow(q, x, a));
    } else {
      PowAdd(q, x, a, b - 1);
      MulAssoc(q, Pow(q, x, a), Pow(q, x, b - 1), x);
    }
  }

  // ----- The exponent q - 1 -----

  function NonZeros(q: nat): (r: seq<Scalar>)
    requires 1 <= q
    ensures |r| == q - 1 && forall i :: 0 <= i < |r| ==> r[i] == i + 1
  {
    seq(q - 1, i => i + 1)
  }

  function Times(q: nat, x: Scalar, ys: seq<Scalar>): (r: seq<Scalar>)
    requires 1 <= q
    ensures |r| == |ys| && forall i :: 0 <= i < |r| ==> r[i] == Mul(q, x, ys[i])
  {
    seq(|ys|, i requires 0 <= i < |ys| => Mul(q, x, ys[i]))
  }

  lemma FourFactors(q: nat, a: Scalar, b: Scalar, c: Scalar, d: Scalar)
    requires 0 < q
    ensures Mul(q, Mul(q, a, b), Mul(q, c, d)) == Mul(q, Mul(q, a, c), Mul(q, b, d))
  {
    hide Mul;
    MulAssoc(q, a, b, Mul(q, c, d));
    MulSwap(q, b, c, d);
    MulAssoc(q, a, c, Mul(q, b, d));
  }

  lemma {:induction false} ProductOfTimes(q: nat, x: Scalar, ys: seq<Scalar>)
    requires 2 <= q
    ensures Product(q, Times(q, x, ys)) == Mul(q, Pow(q, x, |ys|), Product(q, ys))
  {
    hide Mul;
    if ys == [] {
      MulOne(q, 1);
    } else {
      var n := |ys| - 1;
      var p, r, y := Pow(q, x, n), Product(q, ys[..n]), ys[n];
      ProductOfTimes(q, x, ys[..n]);
      assert Times(q, x, ys)[..n] == Times(q, x, ys[..n]);
      assert Product(q, Times(q, x, ys)) == Mul(q, Mul(q, p, r), Mul(q, x, y));
      FourFactors(q, p, r, x, y);
    }
  }

  /** Multiplying the non-zero scalars by one of them permutes them. */
  lemma TimesPermutes(q: nat, x: Scalar)
    requires Prime(q) && 0 < x < q
    ensures multiset(Times(q, x, NonZeros(q))) == multiset(NonZeros(q))
  {
    hide Mul;
    var ys := NonZeros(q);
    var zs := Times(q, x, ys);
    forall i | 0 <= i < |ys|
      ensures 0 < zs[i] < q
    {
      MulNonZero(q, x, ys[i]);
    }
    forall i, j | 0 <= i < j < |ys|
      ensures zs[i] != zs[j]
    {
      if zs[i] == zs[j] {
        MulCancel(q, x, ys[i], ys[j]);
      }
    }
    var s := seq(|ys|, i requires 0 <= i < |ys| => zs[i] - 1);
    assert IsPermutation(s, |ys|);
    assert Select(ys, s) == zs;
    SelectPermutes(ys, s);
  }

  /** Fermat: the power q - 1 of a non-zero scalar is one. */
  lemma PowOfOrder(q: nat, x: Scalar)
    requires Prime(q) && 0 < x < q
    ensures Pow(q, x, q - 1) == 1
  {
    hide Mul;
    var ys := NonZeros(q);
    var p := Product(q, ys);
    ProductOfTimes(q, x, ys);
    TimesPermutes(q, x);
    ProductOfPermutation(q, Times(q, x, ys), ys);
    ProductNonZero(q, ys);
    MulComm(q, Pow(q, x, q - 1), p);
    MulOne(q, p);
    MulCancel(q, p, Pow(q, x, q - 1), 1);
  }

  lemma PowOfZero(q: nat, x: Scalar)
    requires 2 <= q
    ensures Pow(q, x, 0) == 1
  {
  }

  lemma {:induction false} PowOfMultiple(q: nat, x: Scalar, k: nat)
    requires Prime(q) && 0 < x < q
    ensures Pow(q, x, k * (q - 1)) == 1
  {
    hide Mul, Pow;
    if k == 0 {
      PowOfZero(q, x);
    } else {
      var a := (k - 1) * (q - 1);
      assert k * (q - 1) == a + (q - 1);
      PowOfMultiple(q, x, k - 1);
      PowOfOrder(q, x);
      PowAdd(q, x, a, q - 1);
      MulOne(q, 1);
    }
  }

  // ----- No smaller exponent -----

  /** A polynomial by its coefficients, the leading one first. */
  function Eval(p: seq<int>, x: int): int {
    if p == [] then 0 else Eval(p[..|p| - 1], x) * x + p[|p| - 1]
  }

  /** The polynomial divided by x - a. */
  function Quotient(p: seq<int>, a: int): (r: seq<int>)
    ensures |r| == if p == [] then 0 else |p| - 1
    ensures |p| > 1 ==> r[0] == p[0]
  {
    if |p| <= 1 then []
    else
      var init := p[..|p| - 1];
      assert |p| == 2 ==> Eval(init, a) == Eval(init[..0], a) * a + p[0];
      Quotient(init, a) + [Eval(init, a)]
  }

  lemma EvalLast(p: seq<int>, x: int)
    requires p != []
    ensures Eval(p, x) == Eval(p[..|p| - 1], x) * x + p[|p| - 1]
  {
  }

  lemma QuotientOfFew(p: seq<int>, a: int, x: int)
    requires |p| <= 1
    ensures Eval(p, x) == Eval(p, a) && Eval(Quotient(p, a), x) == 0
  {
    assert p != [] ==> Eval(p[..0], x) == Eval(p[..0], a) == 0;
  }

  lemma QuotientLast(p: seq<int>, a: int)
    requires |p| > 1
    ensures Quotient(p, a) == Quotient(p[..|p| - 1], a) + [Eval(p[..|p| - 1], a)]
  {
  }

  lemma OneMoreTerm(u: int, v: int, w: int, x: int, a: int, d: int, e: int)
    requires u - v == (x - a) * w && d == u * x - v * a && e == w * x + v
    ensures d == (x - a) * e
  {
    assert (x - a) * (w * x + v) == (x - a) * w * x + (x - a) * v;
    assert (x - a) * w * x == (u - v) * x;
  }

  lemma {:induction false} QuotientDivides(p: seq<int>, a: int, x: int)
    ensures Eval(p, x) - Eval(p, a) == (x - a) * Eval(Quotient(p, a), x)
  {
    hide Eval, Quotient;
    if |p| <= 1 {
      QuotientOfFew(p, a, x);
    } else {
      var init := p[..|p| - 1];
      var r := Quotient(init, a);
      QuotientDivides(init, a, x);
      QuotientLast(p, a);
      assert (r + [Eval(init, a)])[..|r|] == r;
      EvalLast(p, x);
      EvalLast(p, a);
      EvalLast(r + [Eval(init, a)], x);
      OneMoreTerm(Eval(init, x), Eval(init, a), Eval(r, x), x, a, Eval(p, x) - Eval(p, a), Eval(r + [Eval(init, a)], x));
    }
  }

  /** A prime divides a product only if it divides a factor. */
  lemma PrimeDivides(q: nat, u: int, v: int)
    requires Prime(q) && u * v % q == 0
    ensures u % q == 0 || v % q == 0
  {
    hide Mul;
    ModMul(q, u, v);
    ModMul(q, v, u % q);
    MulIsMod(q, u % q, v % q);
    MulNonZero(q, u % q, v % q);
  }

  lemma Divisible(q: nat, u: int, v: int)
    requires 0 < q && u % q == 0 && v % q == 0
    ensures (u - v) % q == 0
  {
    ModAdd(q, u, v);
    ModAdd(q, v, 0);
    Small(q, 0);
  }

  lemma SmallMultiple(q: nat, d: int)
    requires 0 < q && d % q == 0 && d < q && d > 0 - q
    ensures d == 0
  {
    var k := d / q;
    assert d == k * q;
    Multiple(k, q);
  }

  lemma OtherRoot(q: nat, p: seq<int>, a: int, x: int)
    requires Prime(q) && Eval(p, a) % q == 0 && 0 <= a < q && 0 <= x < q && a != x
    requires Eval(Quotient(p, a), x) % q != 0
    ensures Eval(p, x) % q != 0
  {
    hide Eval, Quotient;
    QuotientDivides(p, a, x);
    var u, v := Eval(p, x), Eval(p, a);
    if u % q == 0 {
      Divisible(q, u, v);
      PrimeDivides(q, x - a, Eval(Quotient(p, a), x));
      SmallMultiple(q, x - a);
    }
  }

  /** Modulo a prime, a polynomial has no more roots than its degree. */
  lemma {:induction false} RootsAreFew(q: nat, p: seq<int>, xs: seq<int>)
    requires Prime(q) && p != [] && p[0] % q != 0 && |xs| == |p|
    requires Distinct(xs) && InRange(xs, q)
    ensures exists i :: 0 <= i < |xs| && Eval(p, xs[i]) % q != 0
    decreases |p|
  {
    var n := |p| - 1;
    var a := xs[n];
    if n == 0 {
      assert Eval(p, a) == Eval(p[..0], a) * a + p[0];
    } else if Eval(p, a) % q == 0 {
      var r := Quotient(p, a);
      RootsAreFew(q, r, xs[..n]);
      var i :| 0 <= i < n && Eval(r, xs[..n][i]) % q != 0;
      OtherRoot(q, p, a, xs[i]);
    }
  }

  /** The polynomial x^n. */
  function Monomial(n: nat): (p: seq<int>)
    ensures |p| == n + 1 && p[0] == 1
  {
    [1] + seq(n, _ => 0)
  }

  lemma {:induction false} EvalMonomial(q: nat, x: Scalar, n: nat)
    requires 2 <= q
    ensures Eval(Monomial(n), x) % q == Pow(q, x, n)
  {
    hide Mul;
    if n == 0 {
      assert Eval([1], x) == Eval([1][..0], x) * x + 1;
      Small(q, 1);
    } else {
      var e := Eval(Monomial(n - 1), x);
      EvalMonomial(q, x, n - 1);
      assert Monomial(n)[..n] == Monomial(n - 1);
      MulIsMod(q, e % q, x);
      ModMul(q, e, x);
    }
  }

  lemma EvalPowMinusOne(q: nat, x: Scalar, d: nat)
    requires 2 <= q && 0 < d && Pow(q, x, d) == 1
    ensures Eval(Monomial(d)[..d] + [-1], x) % q == 0
  {
    hide Pow, Mul;
    EvalMonomial(q, x, d);
    var init := Monomial(d)[..d];
    assert Monomial(d) == init + [0];
    assert (init + [0])[..d] == init && (init + [-1])[..d] == init;
    var e := Eval(init, x) * x;
    assert Eval(init + [-1], x) == e - 1;
    ModAdd(q, e, 1);
    Small(q, 0);
  }

  /** A smaller positive exponent takes some scalar away from one. */
  lemma PowIsNotOne(q: nat, d: nat)
    returns (x: Scalar)
    requires Prime(q) && 0 < d < q - 1
    ensures 0 < x < q && Pow(q, x, d) != 1
  {
    hide Mul, Pow, Eval;
    var p := Monomial(d)[..d] + [-1];
    var xs := seq(d + 1, i => i + 1);
    Small(q, 1);
    RootsAreFew(q, p, xs);
    var i :| 0 <= i < |xs| && Eval(p, xs[i]) % q != 0;
    x := xs[i];
    if Pow(q, x, d) == 1 {
      EvalPowMinusOne(q, x, d);
    }
  }
}

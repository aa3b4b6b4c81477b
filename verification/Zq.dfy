/** The field Z_q and the cyclic group of prime order q, written in the exponent.

    A scalar is an exponent reduced modulo q and a point is the discrete logarithm of a group
    element: the base point is 1, adding points is addition modulo q, and multiplying a point by a
    scalar is multiplication modulo q. Every group of prime order q is isomorphic to this one. */
module Zq {
  type Scalar = nat
  type Point = nat

  /** The logarithm of the base point and of the neutral element. */
  const BASE: Point := 1

  const NULL: Point := 0

  predicate Prime(q: nat) {
    2 <= q && forall d :: 2 <= d < q ==> q % d != 0
  }

  /** The representative of x in 0, .., q-1. */
  function Reduce(q: nat, x: int): (r: nat)
    requires 0 < q
    ensures r < q
    decreases if x < 0 then 1 else 0, if x < 0 then -x else x
  {
    if x < 0 then Reduce(q, x + q) else if x < q then x else Reduce(q, x - q)
  }

  function Add(q: nat, a: nat, b: nat): (r: nat)
    requires 0 < q
    ensures r < q
  {
    Reduce(q, a + b)
  }

  function Sub(q: nat, a: nat, b: nat): (r: nat)
    requires 0 < q
    ensures r < q
  {
    Reduce(q, a - b)
  }

  /** The a-fold sum of b. */
  function Mul(q: nat, a: nat, b: nat): (r: nat)
    requires 0 < q
    ensures r < q
  {
    if a == 0 then 0 else Add(q, Mul(q, a - 1, b), b)
  }

  // ----- Congruences -----

  lemma Multiple(d: int, n: int)
    requires 0 < n
    ensures d >= 1 ==> d * n >= n
    ensures d <= -1 ==> d * n <= -n
  {
    if d >= 1 {
      assert d * n == (d - 1) * n + n;
    } else if d <= -1 {
      assert d * n == (d + 1) * n - n;
    }
  }

  lemma Shift(q: nat, a: int, k: int)
    requires 0 < q
    ensures (a + k * q) % q == a % q
  {
    var x, y := (a + k * q) % q, a % q;
    var d := (a + k * q) / q - a / q - k;
    var big: int := q;
    assert x - y == - d * big by {
      assert a + k * q == ((a + k * q) / q) * q + x;
      assert a == (a / q) * q + y;
    }
    Multiple(d, big);
  }

  lemma MulRearrange(a: int, b: int, c: int)
    ensures a * (b * c) == (a * b) * c == (b * c) * a
  {
  }

  lemma Congruent(q: nat, a: int, b: int, k: int)
    requires 0 < q && a - b == k * q
    ensures a % q == b % q
  {
    Shift(q, b, k);
  }

  lemma Small(q: nat, a: int)
    requires 0 <= a < q
    ensures a % q == a
  {
  }

  lemma ModAdd(q: nat, a: int, b: int)
    requires 0 < q
    ensures (a % q + b) % q == (a + b) % q
    ensures (a % q - b) % q == (a - b) % q
    ensures (b - a % q) % q == (b - a) % q
  {
    var k := a / q;
    assert a == k * q + a % q;
    Congruent(q, a + b, a % q + b, k);
    Congruent(q, a - b, a % q - b, k);
    Congruent(q, b - a % q, b - a, k);
  }

  lemma ModMul(q: nat, a: int, b: int)
    requires 0 < q
    ensures ((a % q) * b) % q == (a * b) % q
    ensures (b * (a % q)) % q == (a * b) % q
  {
    var k, r := a / q, a % q;
    assert a == k * q + r;
    assert a * b == (k * q + r) * b == k * q * b + r * b;
    assert k * q * b == (k * b) * q;
    Congruent(q, a * b, r * b, k * b);
    assert b * r == r * b;
  }

  // ----- The operations are those of the integers modulo q -----

  lemma {:induction false} ReduceIsMod(q: nat, x: int)
    requires 0 < q
    ensures Reduce(q, x) == x % q
    decreases if x < 0 then 1 else 0, if x < 0 then -x else x
  {
    if x < 0 {
      ReduceIsMod(q, x + q);
      Shift(q, x, 1);
    } else if x < q {
      Small(q, x);
    } else {
      ReduceIsMod(q, x - q);
      Shift(q, x, -1);
    }
  }

  lemma AddIsMod(q: nat, a: nat, b: nat)
    requires 0 < q
    ensures Add(q, a, b) == (a + b) % q && Sub(q, a, b) == (a - b) % q
  {
    ReduceIsMod(q, a + b);
    ReduceIsMod(q, a - b);
  }

  lemma {:induction false} MulIsMod(q: nat, a: nat, b: nat)
    requires 0 < q
    ensures Mul(q, a, b) == (a * b) % q
  {
    if a == 0 {
      Small(q, 0);
    } else {
      MulIsMod(q, a - 1, b);
      AddIsMod(q, Mul(q, a - 1, b), b);
      ModAdd(q, (a - 1) * b, b);
      assert (a - 1) * b + b == a * b;
    }
  }

  // ----- Ring laws -----

  lemma MulComm(q: nat, a: nat, b: nat)
    requires 0 < q
    ensures Mul(q, a, b) == Mul(q, b, a)
  {
    MulIsMod(q, a, b);
    MulIsMod(q, b, a);
    assert a * b == b * a;
  }

  lemma MulAssoc(q: nat, a: nat, b: nat, c: nat)
    requires 0 < q
    ensures Mul(q, a, Mul(q, b, c)) == Mul(q, Mul(q, a, b), c)
  {
    var x, y := b * c, a * b;
    MulIsMod(q, b, c);
    MulIsMod(q, a, b);
    MulIsMod(q, a, x % q);
    MulIsMod(q, y % q, c);
    ModMul(q, x, a);
    ModMul(q, y, c);
    MulRearrange(a, b, c);
  }

  /** The two factors in front of a point may be exchanged. */
  lemma MulSwap(q: nat, a: nat, b: nat, p: nat)
    requires 0 < q
    ensures Mul(q, a, Mul(q, b, p)) == Mul(q, b, Mul(q, a, p))
  {
    MulAssoc(q, a, b, p);
    MulAssoc(q, b, a, p);
    MulComm(q, a, b);
  }

  lemma MulSub(q: nat, a: nat, b: nat, p: nat)
    requires 0 < q
    ensures Mul(q, Sub(q, a, b), p) == Sub(q, Mul(q, a, p), Mul(q, b, p))
  {
    var x, y := a * p, b * p;
    AddIsMod(q, a, b);
    MulIsMod(q, Sub(q, a, b), p);
    MulIsMod(q, a, p);
    MulIsMod(q, b, p);
    AddIsMod(q, x % q, y % q);
    ModMul(q, a - b, p);
    assert (a - b) * p == x - y;
    ModAdd(q, x, y % q);
    ModAdd(q, y, x);
  }

  lemma MulOne(q: nat, a: nat)
    requires a < q
    ensures Mul(q, a, 1) == a && Mul(q, 1, a) == a
  {
    MulComm(q, a, 1);
    assert Mul(q, 0, a) == 0;
  }

  lemma MulZero(q: nat, a: nat)
    requires 0 < q
    ensures Mul(q, a, 0) == 0 && Mul(q, 0, a) == 0
  {
    MulComm(q, a, 0);
  }

  /** Removing a common summand from both sides of a difference. */
  lemma SubSame(q: nat, a: nat, b: nat, c: nat)
    requires 0 < q
    ensures Sub(q, Sub(q, a, c), Sub(q, b, c)) == Sub(q, a, b)
  {
    var x, y := a - c, b - c;
    AddIsMod(q, a, c);
    AddIsMod(q, b, c);
    AddIsMod(q, a, b);
    AddIsMod(q, x % q, y % q);
    ModAdd(q, x, y % q);
    ModAdd(q, y, x);
    assert x - y == a - b;
  }

  lemma SubThenAdd(q: nat, a: nat, b: nat)
    requires a < q
    ensures Add(q, Sub(q, a, b), b) == a
  {
    var x := a - b;
    AddIsMod(q, a, b);
    AddIsMod(q, x % q, b);
    ModAdd(q, x, b);
    assert x + b == a;
    Small(q, a);
  }

  lemma SubIsZero(q: nat, a: nat, b: nat)
    requires a < q && b < q
    ensures Sub(q, a, b) == 0 <==> a == b
  {
    if a < b {
      assert Reduce(q, a - b + q) == a - b + q;
    }
  }

  /** a + b = c + d rearranged as a - c = d - b. */
  lemma SumToDifference(q: nat, a: nat, b: nat, c: nat, d: nat)
    requires 0 < q
    requires Add(q, a, b) == Add(q, c, d)
    ensures Sub(q, a, c) == Sub(q, d, b)
  {
    var x, y, z := a + b, c + d, b + c;
    AddIsMod(q, a, b);
    AddIsMod(q, c, d);
    AddIsMod(q, a, c);
    AddIsMod(q, d, b);
    ModAdd(q, x, z);
    ModAdd(q, y, z);
    assert x - z == a - c;
    assert y - z == d - b;
  }

  /** a - b = c - d rearranged as a - c = b - d. */
  lemma DifferenceToDifference(q: nat, a: nat, b: nat, c: nat, d: nat)
    requires 0 < q
    requires Sub(q, a, b) == Sub(q, c, d)
    ensures Sub(q, a, c) == Sub(q, b, d)
  {
    var x, y, z := a - b, c - d, c - b;
    AddIsMod(q, a, b);
    AddIsMod(q, c, d);
    AddIsMod(q, a, c);
    AddIsMod(q, b, d);
    ModAdd(q, x, z);
    ModAdd(q, y, z);
    assert x - z == a - c;
    assert y - z == b - d;
  }

  // ----- Inverses -----

  /** Bezout coefficients, by the extended Euclidean algorithm. */
  function Bezout(a: nat, b: nat): (nat, int, int)
    decreases b
  {
    if b == 0 then
      (a, 1, 0)
    else
      var (g, x, y) := Bezout(b, a % b);
      (g, y, x - (a / b) * y)
  }

  lemma BezoutStep(a: nat, b: nat, g: nat, x: int, y: int)
    requires b > 0 && b * x + (a % b) * y == g
    ensures a * y + b * (x - (a / b) * y) == g
  {
    var k, r := a / b, a % b;
    assert a == k * b + r;
    assert a * y == (k * b + r) * y == k * b * y + r * y;
    assert b * (x - k * y) == b * x - b * (k * y);
    assert b * (k * y) == k * b * y;
  }

  lemma {:induction false} BezoutIdentity(a: nat, b: nat)
    ensures var (g, x, y) := Bezout(a, b); a * x + b * y == g
    decreases b
  {
    if b != 0 {
      var (g, x, y) := Bezout(b, a % b);
      BezoutIdentity(b, a % b);
      BezoutStep(a, b, g, x, y);
    }
  }

  lemma DividesCombination(g: nat, k: int, b: nat, r: nat)
    requires g > 0 && b % g == 0 && r % g == 0
    ensures (k * b + r) % g == 0
  {
    var x := b / g;
    assert b == x * g;
    MulRearrange(k, x, g);
    Shift(g, r, k * x);
  }

  lemma DivisorIsSmaller(g: nat, a: nat)
    requires g > 0 && a > 0 && a % g == 0
    ensures g <= a
  {
    Multiple(a / g, g);
  }

  lemma {:induction false} BezoutDivides(a: nat, b: nat)
    requires a > 0 || b > 0
    ensures var g := Bezout(a, b).0; g > 0 && a % g == 0 && b % g == 0
    decreases b
  {
    if b == 0 {
      assert a == 1 * a;
    } else {
      var g := Bezout(b, a % b).0;
      BezoutDivides(b, a % b);
      assert a == (a / b) * b + a % b;
      DividesCombination(g, a / b, b, a % b);
    }
  }

  /** The inverse a scalar has in the field; zero is sent to zero. */
  function Inv(q: nat, a: Scalar): (r: Scalar)
    requires 0 < q
    ensures r < q
  {
    if Reduce(q, a) == 0 then 0 else Reduce(q, Bezout(Reduce(q, a), q).1)
  }

  lemma BezoutIsOne(q: nat, a: Scalar)
    requires Prime(q) && 0 < a < q
    ensures Bezout(a, q).0 == 1
  {
    BezoutDivides(a, q);
    DivisorIsSmaller(Bezout(a, q).0, a);
  }

  lemma CoefficientIsInverse(q: nat, a: nat, x: int, y: int)
    requires 1 < q && a * x + q * y == 1
    ensures (a * (x % q)) % q == 1
  {
    ModMul(q, x, a);
    assert x * a == a * x;
    assert a * x - 1 == -y * q;
    Congruent(q, a * x, 1, -y);
    Small(q, 1);
  }

  lemma InvIsCoefficient(q: nat, a: Scalar, x: int)
    requires 0 < a < q && x == Bezout(a, q).1
    ensures Inv(q, a) == x % q
  {
    ReduceIsMod(q, x);
  }

  lemma InvIsInverse(q: nat, a: Scalar)
    requires Prime(q) && 0 < a < q
    ensures Mul(q, a, Inv(q, a)) == 1 && 0 < Inv(q, a)
  {
    var (g, x, y) := Bezout(a, q);
    BezoutIdentity(a, q);
    BezoutIsOne(q, a);
    InvIsCoefficient(q, a, x);
    CoefficientIsInverse(q, a, x, y);
    MulIsMod(q, a, x % q);
    MulZero(q, a);
  }

  lemma InvCancels(q: nat, a: Scalar, p: Point)
    requires Prime(q) && 0 < a < q && p < q
    ensures Mul(q, Inv(q, a), Mul(q, a, p)) == p
    ensures Mul(q, a, Mul(q, Inv(q, a), p)) == p
  {
    InvIsInverse(q, a);
    MulAssoc(q, Inv(q, a), a, p);
    MulAssoc(q, a, Inv(q, a), p);
    MulComm(q, a, Inv(q, a));
    MulOne(q, p);
  }

  lemma MulCancel(q: nat, a: Scalar, x: Point, y: Point)
    requires Prime(q) && 0 < a < q && x < q && y < q
    requires Mul(q, a, x) == Mul(q, a, y)
    ensures x == y
  {
    InvCancels(q, a, x);
    InvCancels(q, a, y);
  }

  lemma MulNonZero(q: nat, a: Scalar, p: Point)
    requires Prime(q) && a < q && p < q
    ensures Mul(q, a, p) == 0 <==> a == 0 || p == 0
  {
    MulZero(q, a);
    MulZero(q, p);
    if a != 0 && Mul(q, a, p) == 0 {
      MulCancel(q, a, p, 0);
    }
  }

  // ----- Products -----

  function Product(q: nat, xs: seq<Scalar>): (r: Scalar)
    requires 2 <= q
    ensures r < q
  {
    if xs == [] then 1 else Mul(q, Product(q, xs[..|xs| - 1]), xs[|xs| - 1])
  }

  lemma ProductSnoc(q: nat, xs: seq<Scalar>, x: Scalar)
    requires 2 <= q
    ensures Product(q, xs + [x]) == Mul(q, Product(q, xs), x)
  {
    assert (xs + [x])[..|xs|] == xs;
  }

  lemma {:induction false} ProductRemove(q: nat, xs: seq<Scalar>, k: nat)
    requires 2 <= q && k < |xs|
    ensures Product(q, xs) == Mul(q, Product(q, xs[..k] + xs[k + 1..]), xs[k])
    decreases |xs|
  {
    hide Mul;
    var n := |xs| - 1;
    if k == n {
      assert xs[..k] + xs[k + 1..] == xs[..n];
    } else {
      var init, last, x := xs[..n], xs[n], xs[k];
      ProductRemove(q, init, k);
      var rest := init[..k] + init[k + 1..];
      assert xs[..k] + xs[k + 1..] == rest + [last];
      ProductSnoc(q, rest, last);
      var p := Product(q, rest);
      MulAssoc(q, p, x, last);
      MulAssoc(q, p, last, x);
      MulComm(q, x, last);
    }
  }

  lemma RemovedMultiset<T>(s: seq<T>, k: nat)
    requires k < |s|
    ensures multiset(s[..k] + s[k + 1..]) == multiset(s) - multiset{s[k]}
  {
    assert s == s[..k] + [s[k]] + s[k + 1..];
  }

  /** What comes last in one order is somewhere in the other one, and the rest of both is the same again. */
  lemma LastElsewhere<T>(xs: seq<T>, ys: seq<T>)
    returns (k: nat)
    requires xs != [] && multiset(xs) == multiset(ys)
    ensures |xs| == |ys| && k < |ys| && ys[k] == xs[|xs| - 1]
    ensures multiset(ys[..k] + ys[k + 1..]) == multiset(xs[..|xs| - 1])
  {
    var n := |xs| - 1;
    assert |xs| == |multiset(xs)| == |multiset(ys)| == |ys|;
    assert xs[n] in multiset(ys);
    k :| k < |ys| && ys[k] == xs[n];
    RemovedMultiset(ys, k);
    RemovedMultiset(xs, n);
    assert xs[..n] + xs[n + 1..] == xs[..n];
  }

  /** The order of the factors does not matter. */
  lemma {:induction false} ProductOfPermutation(q: nat, xs: seq<Scalar>, ys: seq<Scalar>)
    requires 2 <= q
    requires multiset(xs) == multiset(ys)
    ensures Product(q, xs) == Product(q, ys)
    decreases |xs|
  {
    if xs == [] {
      assert |multiset(ys)| == 0;
    } else {
      hide Product;
      var n := |xs| - 1;
      var k := LastElsewhere(xs, ys);
      ProductOfPermutation(q, xs[..n], ys[..k] + ys[k + 1..]);
      ProductRemove(q, ys, k);
      ProductRemove(q, xs, n);
      assert xs[..n] + xs[n + 1..] == xs[..n];
    }
  }

  lemma {:induction false} ProductNonZero(q: nat, xs: seq<Scalar>)
    requires Prime(q) && forall i :: 0 <= i < |xs| ==> 0 < xs[i] < q
    ensures Product(q, xs) != 0
  {
    if xs != [] {
      ProductNonZero(q, xs[..|xs| - 1]);
      MulNonZero(q, Product(q, xs[..|xs| - 1]), xs[|xs| - 1]);
    }
  }
}

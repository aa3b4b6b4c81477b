/** Which lists of servers a log may name so that its tag does not depend on anybody's secrets but the
    round secrets of all servers, once each. */
module LogTags {
  import opened Zq
  import opened Permutations
  import opened Powers

  ghost predicate AllNonZero(q: nat, xs: seq<Scalar>) {
    forall i :: 0 <= i < |xs| ==> 0 < xs[i] < q
  }

  /** The round secrets of the servers in the list make up for all shared secrets as those of all
      servers would for the shared secrets of the list. */
  ghost predicate Balanced(q: nat, js: seq<int>, rs: seq<Scalar>, ss: seq<Scalar>)
    requires 2 <= q && |rs| == |ss| && InRange(js, |rs|)
  {
    Mul(q, Product(q, Select(rs, js)), Product(q, ss)) == Mul(q, Product(q, Select(ss, js)), Product(q, rs))
  }

  /** The list balances whatever the secrets. */
  ghost predicate AlwaysBalanced(q: nat, js: seq<int>, m: nat)
    requires 2 <= q && InRange(js, m)
  {
    forall rs: seq<Scalar>, ss: seq<Scalar> ::
      |rs| == |ss| == m && AllNonZero(q, rs) && AllNonZero(q, ss) ==> Balanced(q, js, rs, ss)
  }

  // ----- Products by number of turns -----

  function Turns(js: seq<int>, j: int): (n: nat)
    ensures n == multiset(js)[j]
  {
    multiset(js)[j]
  }

  /** The product of the first k scalars, each as often as its server is in the list. */
  function PowProduct(q: nat, xs: seq<Scalar>, js: seq<int>, k: nat): (r: Scalar)
    requires 2 <= q && k <= |xs|
    ensures r < q
  {
    if k == 0 then 1 else Mul(q, PowProduct(q, xs, js, k - 1), Pow(q, xs[k - 1], Turns(js, k - 1)))
  }

  lemma TurnsSnoc(js: seq<int>, j: int, k: int)
    ensures Turns(js + [j], k) == Turns(js, k) + if j == k then 1 else 0
  {
  }

  /** One more turn of server j multiplies the product by its scalar. */
  lemma {:induction false} PowProductSnoc(q: nat, xs: seq<Scalar>, js: seq<int>, j: nat, k: nat)
    requires 2 <= q && k <= |xs| && j < |xs| && xs[j] < q
    ensures PowProduct(q, xs, js + [j], k) ==
      if j < k then Mul(q, PowProduct(q, xs, js, k), xs[j]) else PowProduct(q, xs, js, k)
  {
    hide Mul, Turns;
    if k > 0 {
      PowProductSnoc(q, xs, js, j, k - 1);
      TurnsSnoc(js, j, k - 1);
      var p, t := PowProduct(q, xs, js, k - 1), Turns(js, k - 1);
      if j == k - 1 {
        assert Pow(q, xs[j], t + 1) == Mul(q, Pow(q, xs[j], t), xs[j]);
        MulAssoc(q, p, Pow(q, xs[j], t), xs[j]);
      } else if j < k - 1 {
        var w := Pow(q, xs[k - 1], t);
        MulAssoc(q, p, xs[j], w);
        MulComm(q, xs[j], w);
        MulAssoc(q, p, w, xs[j]);
      }
    }
  }

  lemma {:induction false} PowProductOfNone(q: nat, xs: seq<Scalar>, k: nat)
    requires 2 <= q && k <= |xs|
    ensures PowProduct(q, xs, [], k) == 1
  {
    hide Mul;
    if k > 0 {
      PowProductOfNone(q, xs, k - 1);
      MulOne(q, 1);
    }
  }

  lemma {:induction false} ProductByTurns(q: nat, xs: seq<Scalar>, js: seq<int>)
    requires 2 <= q && InRange(js, |xs|) && forall i :: 0 <= i < |xs| ==> xs[i] < q
    ensures Product(q, Select(xs, js)) == PowProduct(q, xs, js, |xs|)
  {
    hide Mul, PowProduct;
    if js == [] {
      PowProductOfNone(q, xs, |xs|);
      assert Select(xs, js) == [];
    } else {
      var n := |js| - 1;
      assert js == js[..n] + [js[n]];
      ProductByTurns(q, xs, js[..n]);
      PowProductSnoc(q, xs, js[..n], js[n], |xs|);
      assert Select(xs, js) == Select(xs, js[..n]) + [xs[js[n]]];
      ProductSnoc(q, Select(xs, js[..n]), xs[js[n]]);
    }
  }

  // ----- When the powers are the scalars themselves -----

  /** The number of turns is one up to multiples of q - 1. */
  predicate Fits(q: nat, n: nat)
    requires 2 <= q
  {
    (n - 1) % (q - 1) == 0
  }

  predicate AllFit(q: nat, js: seq<int>, m: nat)
    requires 2 <= q
  {
    forall j :: 0 <= j < m ==> Fits(q, Turns(js, j))
  }

  lemma FitsMeans(q: nat, n: nat)
    requires 2 <= q
    ensures Fits(q, 0) <==> q == 2
    ensures n > 0 ==> n == (n - 1) / (q - 1) * (q - 1) + (n - 1) % (q - 1) + 1
    ensures 0 < n < q ==> (Fits(q, n) <==> n == 1)
  {
    if q > 2 {
      assert -1 == (-1) * (q - 1) + (q - 2);
      Congruent(q - 1, -1, q - 2, -1);
      Small(q - 1, q - 2);
    }
    if 0 < n < q - 1 + 1 {
      Small(q - 1, n - 1);
    }
  }

  lemma PowStays(q: nat, x: Scalar, n: nat)
    requires Prime(q) && 0 < x < q && Fits(q, n)
    ensures Pow(q, x, n) == x
  {
    hide Mul;
    FitsMeans(q, n);
    if n > 0 {
      var k := (n - 1) / (q - 1);
      PowOfMultiple(q, x, k);
      MulOne(q, x);
      assert n - 1 == k * (q - 1);
    }
  }

  lemma NextPow(q: nat, x: Scalar, n: nat)
    requires 2 <= q
    ensures Pow(q, x, n + 1) == Mul(q, Pow(q, x, n), x)
  {
  }

  lemma PowMoves(q: nat, n: nat)
    returns (x: Scalar)
    requires Prime(q) && !Fits(q, n)
    ensures 0 < x < q && Pow(q, x, n) != x
  {
    hide Mul, Pow;
    FitsMeans(q, n);
    if n == 0 {
      x := 2;
      PowOfZero(q, 2);
    } else {
      var k, r := (n - 1) / (q - 1), (n - 1) % (q - 1);
      x := PowIsNotOne(q, r);
      PowOfMultiple(q, x, k);
      PowAdd(q, x, k * (q - 1), r);
      MulOne(q, Pow(q, x, r));
      assert Pow(q, x, n - 1) == Pow(q, x, r);
      NextPow(q, x, n - 1);
      MulComm(q, Pow(q, x, n - 1), x);
      if Pow(q, x, n) == x {
        MulOne(q, x);
        MulCancel(q, x, Pow(q, x, n - 1), 1);
      }
    }
  }

  // ----- The condition on the list -----

  lemma {:induction false} PowProductStays(q: nat, xs: seq<Scalar>, js: seq<int>, k: nat)
    requires Prime(q) && AllNonZero(q, xs) && AllFit(q, js, |xs|) && k <= |xs|
    ensures PowProduct(q, xs, js, k) == Product(q, xs[..k])
  {
    hide Mul, Pow, Turns, Fits;
    if k > 0 {
      PowProductStays(q, xs, js, k - 1);
      PowStays(q, xs[k - 1], Turns(js, k - 1));
      assert xs[..k] == xs[..k - 1] + [xs[k - 1]];
      ProductSnoc(q, xs[..k - 1], xs[k - 1]);
    }
  }

  /** Ones, but for x at position j. */
  function Single(m: nat, j: nat, x: Scalar): (r: seq<Scalar>)
    ensures |r| == m && forall i :: 0 <= i < m ==> r[i] == if i == j then x else 1
  {
    seq(m, i => if i == j then x else 1)
  }

  lemma {:induction false} PowOfOne(q: nat, n: nat)
    requires 2 <= q
    ensures Pow(q, 1, n) == 1
  {
    hide Mul;
    if n > 0 {
      PowOfOne(q, n - 1);
      MulOne(q, 1);
    }
  }

  lemma {:induction false} PowProductOfSingle(q: nat, m: nat, j: nat, x: Scalar, js: seq<int>, k: nat)
    requires 2 <= q && k <= m && x < q
    ensures PowProduct(q, Single(m, j, x), js, k) == if j < k then Pow(q, x, Turns(js, j)) else 1
  {
    hide Mul, Pow, Turns;
    if k > 0 {
      PowProductOfSingle(q, m, j, x, js, k - 1);
      PowOfOne(q, Turns(js, k - 1));
      MulOne(q, 1);
      MulOne(q, Pow(q, x, Turns(js, j)));
    }
  }

  lemma {:induction false} ProductOfSingle(q: nat, m: nat, j: nat, x: Scalar)
    requires 2 <= q && x < q
    ensures Product(q, Single(m, j, x)) == if j < m then x else 1
  {
    hide Mul;
    if m > 0 {
      assert Single(m, j, x)[..m - 1] == Single(m - 1, j, x);
      ProductOfSingle(q, m - 1, j, x);
      MulOne(q, 1);
      MulOne(q, x);
    }
  }

  /** Secrets under which a list does not balance, when some server's number of turns does not fit. */
  lemma Unbalanced(q: nat, js: seq<int>, m: nat, j: nat)
    returns (rs: seq<Scalar>, ss: seq<Scalar>)
    requires Prime(q) && InRange(js, m) && j < m && !Fits(q, Turns(js, j))
    ensures |rs| == |ss| == m && AllNonZero(q, rs) && AllNonZero(q, ss) && !Balanced(q, js, rs, ss)
  {
    hide Mul, Pow, Turns, Fits, PowProduct;
    var x := PowMoves(q, Turns(js, j));
    rs, ss := Single(m, j, x), Single(m, j, 1);
    ProductByTurns(q, rs, js);
    ProductByTurns(q, ss, js);
    PowProductOfSingle(q, m, j, x, js, m);
    PowProductOfSingle(q, m, j, 1, js, m);
    ProductOfSingle(q, m, j, x);
    ProductOfSingle(q, m, j, 1);
    PowOfOne(q, Turns(js, j));
    MulOne(q, x);
    MulOne(q, Pow(q, x, Turns(js, j)));
  }

  lemma FittingIsBalanced(q: nat, js: seq<int>, rs: seq<Scalar>, ss: seq<Scalar>)
    requires Prime(q) && |rs| == |ss| && InRange(js, |rs|) && AllFit(q, js, |rs|)
    requires AllNonZero(q, rs) && AllNonZero(q, ss)
    ensures Balanced(q, js, rs, ss)
  {
    hide Mul, Fits, PowProduct;
    ProductByTurns(q, rs, js);
    ProductByTurns(q, ss, js);
    PowProductStays(q, rs, js, |rs|);
    PowProductStays(q, ss, js, |ss|);
    assert rs[..|rs|] == rs && ss[..|ss|] == ss;
    MulComm(q, Product(q, rs), Product(q, ss));
  }

  /** For which lists the tag is right whatever the secrets, of any length and with any repetitions:
      exactly for those in which every server has one turn, up to multiples of q - 1. */
  lemma AlwaysBalancedIff(q: nat, js: seq<int>, m: nat)
    requires Prime(q) && InRange(js, m)
    ensures AlwaysBalanced(q, js, m) <==> AllFit(q, js, m)
  {
    hide Mul, Fits, Balanced;
    if AllFit(q, js, m) {
      forall rs: seq<Scalar>, ss: seq<Scalar> | |rs| == |ss| == m && AllNonZero(q, rs) && AllNonZero(q, ss)
        ensures Balanced(q, js, rs, ss)
      {
        FittingIsBalanced(q, js, rs, ss);
      }
    } else {
      var j :| 0 <= j < m && !Fits(q, Turns(js, j));
      var rs, ss := Unbalanced(q, js, m, j);
    }
  }

  // ----- What a caller can check -----

  function TurnsUpTo(js: seq<int>, k: nat): nat {
    if k == 0 then 0 else TurnsUpTo(js, k - 1) + Turns(js, k - 1)
  }

  lemma {:induction false} TurnsUpToSnoc(js: seq<int>, j: nat, k: nat)
    ensures TurnsUpTo(js + [j], k) == TurnsUpTo(js, k) + if j < k then 1 else 0
  {
    if k > 0 {
      TurnsUpToSnoc(js, j, k - 1);
      TurnsSnoc(js, j, k - 1);
    }
  }

  lemma {:induction false} NoTurns(k: nat)
    ensures TurnsUpTo([], k) == 0
  {
    if k > 0 {
      NoTurns(k - 1);
    }
  }

  lemma {:induction false} AllTurns(js: seq<int>, m: nat)
    requires InRange(js, m)
    ensures TurnsUpTo(js, m) == |js|
  {
    if js == [] {
      NoTurns(m);
    } else {
      var n := |js| - 1;
      AllTurns(js[..n], m);
      TurnsUpToSnoc(js[..n], js[n], m);
      assert js == js[..n] + [js[n]];
    }
  }

  lemma {:induction false} EverybodyOnce(js: seq<int>, k: nat)
    requires forall i :: 0 <= i < k ==> Turns(js, i) > 0
    ensures TurnsUpTo(js, k) >= k
  {
    if k > 0 {
      EverybodyOnce(js, k - 1);
    }
  }

  /** If everybody has a turn, nobody has many more than one. */
  lemma {:induction false} TurnsAreFew(js: seq<int>, k: nat, j: nat)
    requires j < k && forall i :: 0 <= i < k ==> Turns(js, i) > 0
    ensures TurnsUpTo(js, k) >= k - 1 + Turns(js, j)
  {
    hide Turns;
    if j < k - 1 {
      TurnsAreFew(js, k - 1, j);
    } else {
      EverybodyOnce(js, k - 1);
    }
  }

  lemma {:induction false} OneEach(js: seq<int>, k: nat)
    requires forall j :: 0 <= j < k ==> Turns(js, j) == 1
    ensures TurnsUpTo(js, k) == k
  {
    if k > 0 {
      OneEach(js, k - 1);
    }
  }

  lemma OnceIsDistinct(js: seq<int>)
    requires forall i :: 0 <= i < |js| ==> multiset(js)[js[i]] <= 1
    ensures Distinct(js)
  {
    forall i, j | 0 <= i < j < |js|
      ensures js[i] != js[j]
    {
      if js[i] == js[j] {
        TwiceInMultiset(js, i, j);
      }
    }
  }

  lemma PermutationIff(js: seq<int>, m: nat)
    requires InRange(js, m)
    ensures IsPermutation(js, m) <==> forall j :: 0 <= j < m ==> Turns(js, j) == 1
  {
    if IsPermutation(js, m) {
      forall j | 0 <= j < m
        ensures Turns(js, j) == 1
      {
        PermutationCovers(js, m, j);
        DistinctOnce(js, j);
      }
    } else if forall j :: 0 <= j < m ==> Turns(js, j) == 1 {
      AllTurns(js, m);
      OneEach(js, m);
      forall i | 0 <= i < |js|
        ensures multiset(js)[js[i]] <= 1
      {
        assert Turns(js, js[i]) == 1;
      }
      OnceIsDistinct(js);
    }
  }

  /** For every list that is not longer than the number of servers by the order of the group, so for
      every list there is, a caller can tell: the tag is right whatever the secrets exactly when the
      list is a permutation of the servers. */
  lemma AlwaysBalancedIffPermutation(q: nat, js: seq<int>, m: nat)
    requires Prime(q) && 2 < q && InRange(js, m) && |js| < m + q - 1
    ensures AlwaysBalanced(q, js, m) <==> IsPermutation(js, m)
  {
    hide AlwaysBalanced, Turns, Fits, IsPermutation;
    AlwaysBalancedIff(q, js, m);
    PermutationIff(js, m);
    FitsMeans(q, 1);
    if AllFit(q, js, m) {
      forall j | 0 <= j < m
        ensures Turns(js, j) > 0
      {
        FitsMeans(q, Turns(js, j));
      }
      AllTurns(js, m);
      forall j | 0 <= j < m
        ensures Turns(js, j) == 1
      {
        TurnsAreFew(js, m, j);
        FitsMeans(q, Turns(js, j));
      }
    }
  }
}

/** The order-insensitive comparison of two lists of keys. */
module SameElems {
  import opened Zq
  import opened Permutations

  /** The text form of a point identifies it. */
  ghost predicate Naming(name: Point -> string) {
    forall p, p' :: name(p) == name(p') ==> p == p'
  }

  predicate SameElements(a: seq<Point>, b: seq<Point>) {
    |a| == |b| && forall i :: 0 <= i < |b| ==> b[i] in a
  }

  /** Collects the names of the first list in a map and looks the second list up in it. */
  method ContainsSameElems(a: seq<Point>, b: seq<Point>, name: Point -> string) returns (same: bool)
    requires Naming(name)
    ensures same == SameElements(a, b)
  {
    if |a| != |b| {
      return false;
    }
    var names: map<string, ()> := map[];
    for i := 0 to |a|
      invariant forall p :: name(p) in names <==> p in a[..i]
    {
      names := names[name(a[i]) := ()];
    }
    assert a[..|a|] == a;
    for i := 0 to |b|
      invariant forall j :: 0 <= j < i ==> b[j] in a
    {
      if name(b[i]) !in names {
        return false;
      }
    }
    return true;
  }

  lemma {:induction false} SameIsPermuted(a: seq<Point>, b: seq<Point>)
    requires Distinct(b) && SameElements(a, b)
    ensures multiset(a) == multiset(b)
  {
    if b == [] {
      assert a == [];
    } else {
      var n := |b| - 1;
      var k :| 0 <= k < |a| && a[k] == b[n];
      var rest := Without(a, k);
      forall i | 0 <= i < n
        ensures b[..n][i] in rest
      {
        var j :| 0 <= j < |a| && a[j] == b[i];
        assert j != k;
        assert rest[if j < k then j else j - 1] == b[i];
      }
      SameIsPermuted(rest, b[..n]);
      assert a == a[..k] + [a[k]] + a[k + 1..];
      assert b == b[..n] + [b[n]];
    }
  }

  /** Without duplicates in the second list the comparison means that it is a permutation of the
      first, which then has no duplicates either. */
  lemma {:induction false} SameIffPermuted(a: seq<Point>, b: seq<Point>)
    requires Distinct(b)
    ensures SameElements(a, b) <==> multiset(a) == multiset(b)
    ensures SameElements(a, b) ==> Distinct(a)
  {
    if multiset(a) == multiset(b) {
      assert |a| == |multiset(a)| == |multiset(b)| == |b|;
      forall i | 0 <= i < |b|
        ensures b[i] in a
      {
        assert b[i] in multiset(b);
      }
    }
    if SameElements(a, b) {
      SameIsPermuted(a, b);
      forall i, j | 0 <= i < j < |a|
        ensures a[i] != a[j]
      {
        if a[i] == a[j] {
          TwiceInMultiset(a, i, j);
          DistinctOnce(b, a[i]);
        }
      }
    }
  }

  function Max(s: seq<Point>): (m: Point)
    ensures forall i :: 0 <= i < |s| ==> s[i] <= m
  {
    if s == [] then 0
    else
      var m := Max(s[..|s| - 1]);
      if s[|s| - 1] > m then s[|s| - 1] else m
  }

  /** For which second lists the comparison can be trusted: exactly those without duplicates. One
      duplicate is enough to accept a list that is no permutation. */
  lemma TrustedIffDistinct(b: seq<Point>)
    ensures (forall a: seq<Point> :: SameElements(a, b) ==> multiset(a) == multiset(b)) <==> Distinct(b)
  {
    if Distinct(b) {
      forall a: seq<Point> | SameElements(a, b)
        ensures multiset(a) == multiset(b)
      {
        SameIffPermuted(a, b);
      }
    } else {
      var i, j :| 0 <= i < j < |b| && b[i] == b[j];
      var other := Max(b) + 1;
      var a := b[j := other];
      forall k | 0 <= k < |b|
        ensures b[k] in a
      {
        assert b[k] == a[if k == j then i else k];
      }
      assert SameElements(a, b);
      assert a[j] == other && other !in b;
      assert other in multiset(a) && other !in multiset(b);
    }
  }

  /** For which first lists it can be trusted: those that repeat a single element. From any other, an
      element can be dropped in favour of a repetition, and the comparison does not notice. */
  lemma DropsUnnoticedIff(a: seq<Point>)
    ensures (exists b: seq<Point> :: SameElements(a, b) && multiset(a) != multiset(b))
      <==> exists i, j :: 0 <= i < j < |a| && a[i] != a[j]
  {
    if i, j :| 0 <= i < j < |a| && a[i] != a[j] {
      var b := seq(|a|, _ => a[i]);
      assert SameElements(a, b);
      assert a[j] in multiset(a) && a[j] !in multiset(b);
    } else {
      forall b: seq<Point> | SameElements(a, b)
        ensures multiset(a) == multiset(b)
      {
        assert forall k :: 0 <= k < |a| ==> a[k] == a[0];
        assert a == b;
      }
    }
  }
}

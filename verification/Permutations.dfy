/** Sequences that list the indexes 0, .., m-1 once each. */
module Permutations {
  predicate Distinct<T(==)>(s: seq<T>) {
    forall i, j :: 0 <= i < j < |s| ==> s[i] != s[j]
  }

  lemma {:induction false} DistinctOnce<T>(s: seq<T>, x: T)
    requires Distinct(s)
    ensures multiset(s)[x] == if x in s then 1 else 0
  {
    if s != [] {
      DistinctOnce(s[1..], x);
      assert s == [s[0]] + s[1..];
    }
  }

  lemma TwiceInMultiset<T>(a: seq<T>, i: nat, j: nat)
    requires i < j < |a| && a[i] == a[j]
    ensures multiset(a)[a[i]] >= 2
  {
    assert a == a[..i] + [a[i]] + a[i + 1..j] + [a[j]] + a[j + 1..];
  }

  predicate InRange(s: seq<int>, m: nat) {
    forall i :: 0 <= i < |s| ==> 0 <= s[i] < m
  }

  predicate IsPermutation(s: seq<int>, m: nat) {
    |s| == m && Distinct(s) && InRange(s, m)
  }

  function Without<T>(s: seq<T>, k: nat): (r: seq<T>)
    requires k < |s|
    ensures |r| == |s| - 1
  {
    s[..k] + s[k + 1..]
  }

  /** Pigeonhole: distinct numbers below m are at most m. */
  lemma {:induction false} DistinctIsShort(s: seq<int>, m: nat)
    requires Distinct(s) && InRange(s, m)
    ensures |s| <= m
    decreases m
  {
    if s != [] {
      assert 0 <= s[0] < m;
      if m - 1 in s {
        var k :| 0 <= k < |s| && s[k] == m - 1;
        DistinctIsShort(Without(s, k), m - 1);
      } else {
        DistinctIsShort(s, m - 1);
      }
    }
  }

  /** Pigeonhole: m distinct numbers below m leave none out. */
  lemma PermutationCovers(s: seq<int>, m: nat, x: int)
    requires IsPermutation(s, m) && 0 <= x < m
    ensures x in s
  {
    if x !in s {
      DistinctIsShort(s + [x], m);
    }
  }

  /** The entries of r in the order given by s. */
  function Select<T>(r: seq<T>, s: seq<int>): (t: seq<T>)
    requires InRange(s, |r|)
    ensures |t| == |s|
  {
    seq(|s|, i requires 0 <= i < |s| => r[s[i]])
  }

  lemma SelectWithLast<T>(r: seq<T>, s: seq<int>, k: nat)
    requires |r| > 0 && IsPermutation(s, |r|) && k < |s| && s[k] == |r| - 1
    ensures IsPermutation(Without(s, k), |r| - 1)
    ensures
      var t := Select(r[..|r| - 1], Without(s, k));
      k <= |t| && Select(r, s) == t[..k] + [r[|r| - 1]] + t[k..]
  {
  }

  lemma InsertMultiset<T>(t: seq<T>, k: nat, x: T)
    requires k <= |t|
    ensures multiset(t[..k] + [x] + t[k..]) == multiset(t) + multiset{x}
  {
    assert t == t[..k] + t[k..];
  }

  /** Reading a sequence in a permuted order keeps its entries with their multiplicities. */
  lemma {:induction false} SelectPermutes<T>(r: seq<T>, s: seq<int>)
    requires IsPermutation(s, |r|)
    ensures multiset(Select(r, s)) == multiset(r)
  {
    if r == [] {
      assert Select(r, s) == [];
    } else {
      var n := |r| - 1;
      PermutationCovers(s, |r|, n);
      var k :| 0 <= k < |s| && s[k] == n;
      SelectWithLast(r, s, k);
      SelectPermutes(r[..n], Without(s, k));
      InsertMultiset(Select(r[..n], Without(s, k)), k, r[n]);
      assert r == r[..n] + [r[n]];
    }
  }
}

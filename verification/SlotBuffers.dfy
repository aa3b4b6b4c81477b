/** Buffers of a fixed number of slots, each empty until it is written. */
module SlotBuffers {
  import opened Suites

  type Slots<T> = seq<Option<T>>

  /** Fills a slot. Writing outside the slots or to a filled slot makes the node panic. */
  function Save<T>(slots: Slots<T>, index: int, value: T): (r: Option<Slots<T>>)
    ensures r.Some? <==> 0 <= index < |slots| && slots[index].None?
    ensures r.Some? ==> r.value == slots[index := Some(value)]
  {
    if index < 0 || index >= |slots| then None
    else if slots[index].Some? then None
    else Some(slots[index := Some(value)])
  }

  /** What comes first, and what comes second, in a list of pairs. */
  function Firsts<A, B>(pairs: seq<(A, B)>): (r: seq<A>)
    ensures |r| == |pairs| && forall k :: 0 <= k < |r| ==> r[k] == pairs[k].0
  {
    seq(|pairs|, k requires 0 <= k < |pairs| => pairs[k].0)
  }

  function Seconds<A, B>(pairs: seq<(A, B)>): (r: seq<B>)
    ensures |r| == |pairs| && forall k :: 0 <= k < |r| ==> r[k] == pairs[k].1
  {
    seq(|pairs|, k requires 0 <= k < |pairs| => pairs[k].1)
  }

  function Empty<T>(n: nat): (r: Slots<T>)
    ensures |r| == n && forall i :: 0 <= i < n ==> r[i].None?
  {
    seq(n, _ => None)
  }

  function Filled<T>(slots: Slots<T>): (n: nat)
    ensures n <= |slots|
  {
    if slots == [] then 0
    else Filled(slots[..|slots| - 1]) + (if slots[|slots| - 1].Some? then 1 else 0)
  }

  lemma {:induction false} FilledAfterSave<T>(slots: Slots<T>, index: nat, value: T)
    requires index < |slots| && slots[index].None?
    ensures Filled(slots[index := Some(value)]) == Filled(slots) + 1
  {
    var n := |slots| - 1;
    if index < n {
      FilledAfterSave(slots[..n], index, value);
      assert slots[index := Some(value)][..n] == slots[..n][index := Some(value)];
    } else {
      assert slots[index := Some(value)][..n] == slots[..n];
    }
  }

  lemma {:induction false} EmptyIsUnfilled<T>(n: nat)
    ensures Filled(Empty<T>(n)) == 0
  {
    if n > 0 {
      EmptyIsUnfilled<T>(n - 1);
      assert Empty<T>(n)[..n - 1] == Empty<T>(n - 1);
    }
  }

  /** Pigeonhole: as many writes as slots leave no slot empty. */
  lemma {:induction false} AllFilled<T>(slots: Slots<T>, i: nat)
    requires Filled(slots) == |slots| && i < |slots|
    ensures slots[i].Some?
  {
    var n := |slots| - 1;
    if i < n {
      AllFilled(slots[..n], i);
    }
  }

  predicate Complete<T>(slots: Slots<T>) {
    forall i :: 0 <= i < |slots| ==> slots[i].Some?
  }

  function Values<T>(slots: Slots<T>): (r: seq<T>)
    requires Complete(slots)
    ensures |r| == |slots| && forall i :: 0 <= i < |r| ==> r[i] == slots[i].value
  {
    seq(|slots|, i requires 0 <= i < |slots| => slots[i].value)
  }
}

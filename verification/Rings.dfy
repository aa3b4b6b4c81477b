/** The ring of nodes in the order of the roster. */
module Rings {
  import opened Zq
  import opened Suites
  import opened Permutations
  import opened Challenges

  datatype TreeNode = TreeNode(id: nat, key: Point)

  /** The index of the first occurrence of a key, or -1. */
  method IndexOf(keys: seq<Point>, key: Point) returns (i: int)
    ensures key in keys ==> 0 <= i < |keys| && keys[i] == key && key !in keys[..i]
    ensures key !in keys ==> i == -1
  {
    for k := 0 to |keys|
      invariant key !in keys[..k]
    {
      if keys[k] == key {
        return k;
      }
    }
    return -1;
  }

  function Successor(i: int, m: nat): (r: nat)
    requires 0 < m && -1 <= i
    ensures r < m
  {
    (i + 1) % m
  }

  /** The tree node that holds the key after position ownIndex of the ring. */
  method NextNode(ownIndex: int, keys: seq<Point>, treeNodes: seq<TreeNode>) returns (r: Option<TreeNode>)
    requires |keys| > 0 && -1 <= ownIndex
    ensures r.Some? ==> r.value in treeNodes && r.value.key == keys[Successor(ownIndex, |keys|)]
    ensures r.None? <==> forall t :: t in treeNodes ==> t.key != keys[Successor(ownIndex, |keys|)]
  {
    var nextServerPubKey := keys[Successor(ownIndex, |keys|)];
    for k := 0 to |treeNodes|
      invariant forall j :: 0 <= j < k ==> treeNodes[j].key != nextServerPubKey
    {
      if treeNodes[k].key == nextServerPubKey {
        return Some(treeNodes[k]);
      }
    }
    return None;
  }

  /** The node of a key, if the tree has one. */
  function NodeOf(key: Point, nodes: seq<TreeNode>): TreeNode {
    if nodes == [] then TreeNode(0, key)
    else if nodes[0].key == key then nodes[0]
    else NodeOf(key, nodes[1..])
  }

  /** A tree over a roster with distinct keys: every key has exactly one node. */
  ghost predicate TreeOver(keys: seq<Point>, nodes: seq<TreeNode>) {
    && |keys| > 0 && Distinct(keys) && |nodes| == |keys|
    && (forall i :: 0 <= i < |keys| ==> NodeOf(keys[i], nodes) in nodes && NodeOf(keys[i], nodes).key == keys[i])
    && (forall s, t :: s in nodes && t in nodes && s.key == t.key ==> s == t)
  }

  /** What every node does to find its successor: look up its own key, then the next one. */
  method NextInRing(keys: seq<Point>, ownKey: Point, nodes: seq<TreeNode>) returns (r: Option<TreeNode>)
    requires |keys| > 0
    ensures TreeOver(keys, nodes) && ownKey in keys ==>
      exists i :: 0 <= i < |keys| && keys[i] == ownKey && r == Some(NodeOf(keys[Successor(i, |keys|)], nodes))
  {
    var own := IndexOf(keys, ownKey);
    r := NextNode(own, keys, nodes);
    if TreeOver(keys, nodes) && ownKey in keys {
      var next := keys[Successor(own, |keys|)];
      assert NodeOf(next, nodes) in nodes && NodeOf(next, nodes).key == next;
      assert r.Some? && r.value == NodeOf(next, nodes);
    }
  }

  // ----- The cycle -----

  /** The position after k hops from position i. */
  function Hops(i: nat, k: nat, m: nat): (r: nat)
    requires i < m
    ensures r < m
  {
    if k == 0 then i else Successor(Hops(i, k - 1, m), m)
  }

  lemma SuccessorIs(i: nat, m: nat)
    requires i < m
    ensures Successor(i, m) == if i + 1 == m then 0 else i + 1
  {
    Small(m, if i + 1 == m then 0 else i + 1);
    if i + 1 == m {
      Congruent(m, i + 1, 0, 1);
    }
  }

  lemma {:induction false} HopsAre(i: nat, k: nat, m: nat)
    requires i < m && k <= m
    ensures Hops(i, k, m) == if i + k < m then i + k else i + k - m
  {
    if k > 0 {
      HopsAre(i, k - 1, m);
      SuccessorIs(Hops(i, k - 1, m), m);
    }
  }

  /** The positions of the first n hops. */
  function Tour(i: nat, n: nat, m: nat): (r: seq<int>)
    requires i < m
    ensures |r| == n && forall k :: 0 <= k < n ==> r[k] == Hops(i, k, m)
  {
    seq(n, k requires 0 <= k < n => Hops(i, k, m))
  }

  /** Following successors is one cycle through all m positions: m hops visit every position exactly
      once and lead back to the start, and no smaller number of hops does. */
  lemma RingIsOneCycle(i: nat, m: nat)
    requires i < m
    ensures IsPermutation(Tour(i, m, m), m)
    ensures Hops(i, m, m) == i
    ensures forall k :: 0 < k < m ==> Hops(i, k, m) != i
  {
    forall k | 0 <= k <= m
      ensures Hops(i, k, m) == if i + k < m then i + k else i + k - m
    {
      HopsAre(i, k, m);
    }
  }

  lemma HopStep(i: nat, k: nat, m: nat)
    requires i < m
    ensures Hops(i, k + 1, m) == Successor(Hops(i, k, m), m)
    ensures Hops(i, 0, m) == i
  {
  }

  // ----- Nodes around the ring -----

  /** The fixed surroundings of a node: the suite, the roster's keys and the tree built over it. */
  datatype Setting = Setting(suite: Suite, keys: seq<Point>, nodes: seq<TreeNode>)

  ghost predicate Usable(s: Setting) {
    s.suite.Valid() && TreeOver(s.keys, s.nodes)
  }

  /** The next node after the one at position i. */
  function NextOf(s: Setting, i: nat): TreeNode
    requires i < |s.keys|
  {
    NodeOf(s.keys[Successor(i, |s.keys|)], s.nodes)
  }

  /** The position of a tree node in the ring. */
  ghost function RingPosition(s: Setting, t: TreeNode): (i: nat)
    requires t.key in s.keys
    ensures i < |s.keys| && s.keys[i] == t.key
  {
    var i: nat :| i < |s.keys| && s.keys[i] == t.key;
    i
  }

  /** The node after the one at position i, found through the keys. */
  method NextServer(s: Setting, i: nat) returns (next: TreeNode)
    requires Usable(s) && i < |s.keys|
    ensures next == NextOf(s, i)
  {
    var found := NextInRing(s.keys, s.keys[i], s.nodes);
    assert found == Some(NextOf(s, i));
    next := found.value;
  }

  /** The servers in the order in which the ring visits them. */
  function RingFrom(servers: seq<Identity>, leader: nat): (r: seq<Identity>)
    requires leader < |servers|
    ensures |r| == |servers| && forall k :: 0 <= k < |r| ==> r[k] == servers[Hops(leader, k, |servers|)]
  {
    Select(servers, Tour(leader, |servers|, |servers|))
  }

  lemma RingFromPermutes(servers: seq<Identity>, leader: nat)
    requires leader < |servers| && IsPermutation(Indexes(servers), |servers|)
    ensures IsPermutation(Indexes(RingFrom(servers, leader)), |servers|)
  {
    var n := |servers|;
    var tour := Tour(leader, n, n);
    RingIsOneCycle(leader, n);
    var ring := Indexes(RingFrom(servers, leader));
    forall i, j | 0 <= i < j < n
      ensures ring[i] != ring[j]
    {
      assert tour[i] != tour[j];
      assert ring[i] == Indexes(servers)[tour[i]] && ring[j] == Indexes(servers)[tour[j]];
    }
  }

  lemma RingServer(servers: seq<Identity>, leader: nat, k: nat)
    requires leader < |servers| && k < |servers|
    ensures RingFrom(servers, leader)[k] == servers[Hops(leader, k, |servers|)]
  {
  }
}

/** The challenge generation when every node is honest, from the first commitment to the result. */
module ChallengeRing {
  import opened Zq
  import opened Suites
  import opened Permutations
  import opened Challenges
  import opened Rings
  import opened SlotBuffers
  import opened ChallengeNode

  // ----- Replies in any order -----

  function SlotsOf(replies: seq<ChallengeCommitment>): (r: seq<int>)
    ensures |r| == |replies|
  {
    seq(|replies|, k requires 0 <= k < |replies| => replies[k].index)
  }

  /** Signed commitments of different servers with empty slots are collected in whatever order they
      arrive, each into the slot of its server, and no other slot changes. */
  lemma {:induction false} CollectsInAnyOrder(
    suite: Suite, keys: seq<Point>, slots: Slots<ChallengeCommitment>, replies: seq<ChallengeCommitment>)
    requires |slots| == |keys| && Distinct(SlotsOf(replies))
    requires forall k :: 0 <= k < |replies| ==>
      0 <= replies[k].index < |keys| && slots[replies[k].index].None? && CommitmentSigned(suite, keys[replies[k].index], replies[k])
    ensures Collect(suite, keys, slots, replies).Some?
    ensures
      var r := Collect(suite, keys, slots, replies).value;
      && |r| == |slots|
      && (forall k :: 0 <= k < |replies| ==> r[replies[k].index] == Some(replies[k]))
      && (forall i :: 0 <= i < |r| && i !in SlotsOf(replies) ==> r[i] == slots[i])
  {
    hide CommitmentSigned;
    if replies != [] {
      var n := |replies| - 1;
      var last := replies[n].index;
      assert SlotsOf(replies[..n]) == SlotsOf(replies)[..n];
      CollectsInAnyOrder(suite, keys, slots, replies[..n]);
      assert SlotsOf(replies)[n] == last && last !in SlotsOf(replies[..n]);
      forall k | 0 <= k < n
        ensures replies[k].index != last
      {
        assert SlotsOf(replies)[k] != SlotsOf(replies)[n];
      }
      assert forall i :: i !in SlotsOf(replies) ==> i !in SlotsOf(replies[..n]);
    }
  }

  lemma {:induction false} CollectsOpeningsInAnyOrder(slots: Slots<Scalar>, replies: seq<(int, Scalar)>)
    requires Distinct(Firsts(replies))
    requires forall k :: 0 <= k < |replies| ==> 0 <= replies[k].0 < |slots| && slots[replies[k].0].None?
    ensures CollectOpenings(slots, replies).Some?
    ensures
      var r := CollectOpenings(slots, replies).value;
      && |r| == |slots|
      && (forall k :: 0 <= k < |replies| ==> r[replies[k].0] == Some(replies[k].1))
      && (forall i :: 0 <= i < |r| && i !in Firsts(replies) ==> r[i] == slots[i])
  {
    if replies != [] {
      var n := |replies| - 1;
      assert Firsts(replies[..n]) == Firsts(replies)[..n];
      CollectsOpeningsInAnyOrder(slots, replies[..n]);
      assert Firsts(replies)[n] !in Firsts(replies[..n]);
      forall k | 0 <= k < n
        ensures replies[k].0 != replies[n].0
      {
        assert Firsts(replies)[k] != Firsts(replies)[n];
      }
      assert forall i :: i !in Firsts(replies) ==> i !in Firsts(replies[..n]);
    }
  }

  // ----- An honest round -----

  /** An honest round: position i of the roster holds servers[i], which draws openings[i] and the
      nonces of its two signatures. The leader closes the ring with one more nonce. */
  datatype Round = Round(
    setting: Setting, request: Request, servers: seq<Identity>, leader: nat,
    openings: seq<Scalar>, commitNonces: seq<Scalar>, nonces: seq<Scalar>)
  {
    ghost predicate Valid() {
      && Usable(setting) && leader < |servers|
      && |servers| == |setting.keys| == |request.context.Y| == |openings| == |commitNonces| && |nonces| == |servers| + 1
      && IsPermutation(Indexes(servers), |servers|) && OwnKeys(setting.suite.q, request.context, servers)
    }

    function Size(): nat { |servers| }

    /** The commitment of the server at position i. */
    function Commit(i: nat): (c: ChallengeCommitment)
      requires Valid() && i < |servers|
      ensures c.index == servers[i].index && CheckOpening(setting.suite, c.commit, openings[i])
      ensures CommitmentSigned(setting.suite, request.context.Y[c.index], c)
    {
      NewChallengeCommitment(setting.suite, servers[i], openings[i], commitNonces[i]).value.0
    }

    /** The other positions, in the order in which their replies arrive. */
    ghost predicate Arrival(order: seq<int>) {
      InRange(order, |servers|) && Distinct(order) && leader !in order && |order| == |servers| - 1
    }

    function CommitReplies(order: seq<int>): (r: seq<ChallengeCommitment>)
      requires Valid() && InRange(order, |servers|)
      ensures |r| == |order| && forall k :: 0 <= k < |r| ==> r[k] == Commit(order[k])
    {
      seq(|order|, k requires 0 <= k < |order| => Commit(order[k]))
    }

    function OpeningReplies(order: seq<int>): (r: seq<(int, Scalar)>)
      requires Valid() && InRange(order, |servers|)
      ensures |r| == |order| && forall k :: 0 <= k < |r| ==> r[k] == (servers[order[k]].index, openings[order[k]])
    {
      seq(|order|, k requires 0 <= k < |order| => (servers[order[k]].index, openings[order[k]]))
    }

    /** The leader's state after it started. */
    function Opened(): Option<NodeState>
      requires Valid()
    {
      Started(setting.suite, LeaderSetup(Size(), request, servers[leader]), Size() - 1, openings[leader], commitNonces[leader])
    }

    function Ring(): seq<Identity>
      requires leader < |servers|
    {
      RingFrom(servers, leader)
    }
  }

  lemma EverybodyReplies(r: Round, order: seq<int>, i: nat)
    requires r.leader < |r.servers| && r.Arrival(order) && i < r.Size()
    ensures i == r.leader || i in order
  {
    var all := [r.leader] + order;
    assert IsPermutation(all, |r.servers|);
    PermutationCovers(all, |r.servers|, i);
  }

  lemma IndexesDiffer(r: Round, i: nat, j: nat)
    requires r.Valid() && i < r.Size() && j < r.Size() && i != j
    ensures r.servers[i].index != r.servers[j].index
  {
    assert Indexes(r.servers)[i] != Indexes(r.servers)[j];
  }

  lemma RoundSizes(r: Round)
    requires r.Valid()
    ensures r.leader < r.Size() == |r.openings| == |r.request.context.Y| == |r.setting.keys| == |r.nonces| - 1
    ensures 0 < r.setting.suite.q
  {
  }

  lemma RoundIndex(r: Round, i: nat)
    requires r.Valid() && i < r.Size()
    ensures r.servers[i].index < r.Size() == |r.request.context.Y|
  {
  }

  /** The leader starts with its own two slots filled. */
  lemma OpenedSlots(r: Round)
    requires r.Valid()
    ensures r.Opened().Some?
    ensures
      var st, j := r.Opened().value, r.servers[r.leader].index;
      && j < r.Size()
      && st.commitments == Empty<ChallengeCommitment>(r.Size())[j := Some(r.Commit(r.leader))]
      && st.openings == Empty<Scalar>(r.Size())[j := Some(r.openings[r.leader])]
      && st.server == Some(r.servers[r.leader]) && st.request == Some(r.request)
  {
    hide TreeOver, Suite.Valid, CommitmentSigned, Mul;
    RoundIndex(r, r.leader);
  }

  /** The replies are for different slots, and none for the leader's. */
  lemma RepliesDiffer(r: Round, order: seq<int>)
    requires r.Valid() && r.Arrival(order)
    ensures forall k :: 0 <= k < |order| ==> r.servers[order[k]].index != r.servers[r.leader].index
    ensures forall k :: 0 <= k < |order| ==> r.servers[order[k]].index < r.Size() == |r.request.context.Y|
    ensures forall i, j :: 0 <= i < j < |order| ==> r.servers[order[i]].index != r.servers[order[j]].index
  {
    hide Round.Valid;
    RoundSizes(r);
    forall k | 0 <= k < |order|
      ensures r.servers[order[k]].index != r.servers[r.leader].index
      ensures r.servers[order[k]].index < r.Size() == |r.request.context.Y|
    {
      assert order[k] != r.leader;
      RoundIndex(r, order[k]);
      IndexesDiffer(r, order[k], r.leader);
    }
    forall i, j | 0 <= i < j < |order|
      ensures r.servers[order[i]].index != r.servers[order[j]].index
    {
      IndexesDiffer(r, order[i], order[j]);
    }
  }

  /** The leader ends up with every server's commitment in that server's slot, whatever the order in
      which the replies arrive. */
  lemma HonestCommitsCollect(r: Round, order: seq<int>)
    requires r.Valid() && r.Arrival(order)
    ensures r.Opened().Some?
    ensures
      var c := Collect(r.setting.suite, r.request.context.Y, r.Opened().value.commitments, r.CommitReplies(order));
      && c.Some? && |c.value| == r.Size()
      && forall i :: 0 <= i < r.Size() ==> r.servers[i].index < |c.value| && c.value[r.servers[i].index] == Some(r.Commit(i))
  {
    hide Round.Valid, Round.Opened, CommitmentSigned;
    OpenedSlots(r);
    RepliesDiffer(r, order);
    RoundSizes(r);
    var slots := r.Opened().value.commitments;
    var replies := r.CommitReplies(order);
    CollectsInAnyOrder(r.setting.suite, r.request.context.Y, slots, replies);
    var c := Collect(r.setting.suite, r.request.context.Y, slots, replies).value;
    forall i | 0 <= i < r.Size()
      ensures r.servers[i].index < |c| && c[r.servers[i].index] == Some(r.Commit(i))
    {
      EverybodyReplies(r, order, i);
      if i != r.leader {
        var k :| 0 <= k < |order| && order[k] == i;
        assert replies[k] == r.Commit(i);
      } else {
        assert r.servers[i].index !in SlotsOf(replies);
      }
    }
  }

  lemma HonestOpeningsCollect(r: Round, order: seq<int>)
    requires r.Valid() && r.Arrival(order)
    ensures r.Opened().Some?
    ensures
      var o := CollectOpenings(r.Opened().value.openings, r.OpeningReplies(order));
      && o.Some? && |o.value| == r.Size()
      && forall i :: 0 <= i < r.Size() ==> r.servers[i].index < |o.value| && o.value[r.servers[i].index] == Some(r.openings[i])
  {
    hide Round.Valid, Round.Opened, CommitmentSigned;
    OpenedSlots(r);
    RepliesDiffer(r, order);
    RoundSizes(r);
    var slots := r.Opened().value.openings;
    var replies := r.OpeningReplies(order);
    CollectsOpeningsInAnyOrder(slots, replies);
    var o := CollectOpenings(slots, replies).value;
    forall i | 0 <= i < r.Size()
      ensures r.servers[i].index < |o| && o[r.servers[i].index] == Some(r.openings[i])
    {
      EverybodyReplies(r, order, i);
      if i != r.leader {
        var k :| 0 <= k < |order| && order[k] == i;
        assert replies[k] == (r.servers[i].index, r.openings[i]);
      } else {
        assert r.servers[i].index !in Firsts(replies);
      }
    }
  }

  // ----- Around the ring -----

  /** A check on its way to a node, or the result at the node that finalized it. */
  datatype Flight = Lost | InFlight(to: TreeNode, check: CheckState) | Arrived(at: TreeNode, challenge: Challenge)

  /** Where the check is after the leader signed it first and k deliveries. */
  ghost function FlightAfter(r: Round, commits: seq<ChallengeCommitment>, openings: seq<Scalar>, k: nat): Flight
    requires 0 < r.setting.suite.q && r.leader < r.Size() == |r.setting.keys| && k < |r.nonces|
  {
    if k == 0 then
      var check := FirstCheck(r.setting.suite, r.request, commits, openings, r.servers[r.leader], r.nonces[0]);
      if check.None? then Lost else InFlight(NextOf(r.setting, r.leader), check.value)
    else
      var before := FlightAfter(r, commits, openings, k - 1);
      if before.InFlight? && before.to.key in r.setting.keys then
        var i := RingPosition(r.setting, before.to);
        match Finalizing(r.setting.suite, r.request, before.check, r.servers[i], r.nonces[k])
        case Stopped => Lost
        case Pass(check) => InFlight(NextOf(r.setting, i), check)
        case Result(challenge) => Arrived(before.to, challenge)
      else Lost
  }

  /** The check signed by the first k servers of the ring. */
  function CheckAfter(r: Round, commits: seq<ChallengeCommitment>, openings: seq<Scalar>, k: nat): CheckState
    requires 0 < r.setting.suite.q && r.leader < r.Size() && k <= r.Size() < |r.nonces|
  {
    RoundTrip(r.setting.suite, r.request.context, CheckState(Sum(r.setting.suite.q, openings), [], commits, openings),
      r.request.pkCommits, r.Ring()[..k], r.nonces[..k])
  }

  ghost predicate Agreed(r: Round, commits: seq<ChallengeCommitment>, openings: seq<Scalar>) {
    && 0 < r.setting.suite.q && CommitmentsAccepted(r.setting.suite, r.request.context.Y, commits)
    && OpeningsAccepted(r.setting.suite, r.request.context, commits, openings)
  }

  lemma CheckAfterNext(r: Round, commits: seq<ChallengeCommitment>, openings: seq<Scalar>, k: nat)
    requires r.Valid() && k < r.Size()
    ensures
      CheckAfter(r, commits, openings, k + 1) == Updated(r.setting.suite, r.request.context, CheckAfter(r, commits, openings, k),
        r.request.pkCommits, r.servers[Hops(r.leader, k, r.Size())], r.nonces[k])
  {
    hide TreeOver, Suite.Valid, OwnKeys, Updated, Sum, Hops;
    var ring := r.Ring();
    assert ring[..k + 1][..k] == ring[..k] && r.nonces[..k + 1][..k] == r.nonces[..k];
    assert ring[..k + 1][k] == ring[k];
  }

  lemma CheckAfterIsAccepted(r: Round, commits: seq<ChallengeCommitment>, openings: seq<Scalar>, k: nat)
    requires r.Valid() && Agreed(r, commits, openings) && k <= r.Size()
    ensures
      var check := CheckAfter(r, commits, openings, k);
      && CheckAccepted(r.setting.suite, r.request.context, check, r.request.pkCommits) && |check.sigs| == k
      && check.cs == Sum(r.setting.suite.q, openings)
  {
    hide TreeOver;
    var suite, context, ring := r.setting.suite, r.request.context, r.Ring()[..k];
    RingFromPermutes(r.servers, r.leader);
    assert Indexes(ring) == Indexes(r.Ring())[..k];
    var initial := CheckState(Sum(suite.q, openings), [], commits, openings);
    RoundTripSigners(suite, context, initial, r.request.pkCommits, ring, r.nonces[..k]);
    assert |Signers(CheckAfter(r, commits, openings, k).sigs)| == k;
  }

  lemma FirstFlight(r: Round, commits: seq<ChallengeCommitment>, openings: seq<Scalar>)
    requires r.Valid() && Agreed(r, commits, openings)
    ensures FlightAfter(r, commits, openings, 0) ==
      InFlight(NodeOf(r.setting.keys[Successor(r.leader, r.Size())], r.setting.nodes),
        Updated(r.setting.suite, r.request.context, CheckAfter(r, commits, openings, 0), r.request.pkCommits,
          r.servers[r.leader], r.nonces[0]))
  {
    hide TreeOver, Suite.Valid, OwnKeys, Updated, Sum, Hops, CommitmentsAccepted, Opens, NodeOf;
  }

  lemma Delivery(r: Round, commits: seq<ChallengeCommitment>, openings: seq<Scalar>, k: nat)
    requires r.Valid() && Agreed(r, commits, openings) && 0 < k <= r.Size()
    requires FlightAfter(r, commits, openings, k - 1) ==
      InFlight(NodeOf(r.setting.keys[Hops(r.leader, k, r.Size())], r.setting.nodes), CheckAfter(r, commits, openings, k))
    requires CheckAccepted(r.setting.suite, r.request.context, CheckAfter(r, commits, openings, k), r.request.pkCommits)
    requires |CheckAfter(r, commits, openings, k).sigs| == k
    requires CheckAfter(r, commits, openings, k).cs == Sum(r.setting.suite.q, openings)
    ensures
      var i, check := Hops(r.leader, k, r.Size()), CheckAfter(r, commits, openings, k);
      FlightAfter(r, commits, openings, k) ==
        if k < r.Size()
        then InFlight(NodeOf(r.setting.keys[Successor(i, r.Size())], r.setting.nodes),
          Updated(r.setting.suite, r.request.context, check, r.request.pkCommits, r.servers[i], r.nonces[k]))
        else Arrived(NodeOf(r.setting.keys[i], r.setting.nodes), Challenge(Sum(r.setting.suite.q, openings), check.sigs))
  {
    hide CheckAfter, CheckAccepted, Agreed, OwnKeys, Hops, Suite.Valid, Successor;
    var i := Hops(r.leader, k, r.Size());
    var t := NodeOf(r.setting.keys[i], r.setting.nodes);
    assert t.key == r.setting.keys[i];
    assert RingPosition(r.setting, t) == i;
  }

  /** For every leader: after k deliveries, k < m, the check is on its way to the node k + 1 hops after
      the leader and carries k + 1 signatures; the test on the number of signatures is true at delivery
      m and not before, and delivery m is to the leader. */
  lemma {:induction false} CheckGoesAround(r: Round, commits: seq<ChallengeCommitment>, openings: seq<Scalar>, k: nat)
    requires r.Valid() && Agreed(r, commits, openings) && k <= r.Size()
    ensures 0 < r.setting.suite.q && r.leader < r.Size() == |r.setting.keys| && r.Size() < |r.nonces|
    ensures
      var m := r.Size();
      FlightAfter(r, commits, openings, k) ==
        if k < m
        then InFlight(NodeOf(r.setting.keys[Hops(r.leader, k + 1, m)], r.setting.nodes), CheckAfter(r, commits, openings, k + 1))
        else Arrived(NodeOf(r.setting.keys[r.leader], r.setting.nodes),
          Challenge(Sum(r.setting.suite.q, openings), CheckAfter(r, commits, openings, m).sigs))
  {
    hide *;
    RoundSizes(r);
    var m := r.Size();
    RingIsOneCycle(r.leader, m);
    HopStep(r.leader, k, m);
    CheckAfterIsAccepted(r, commits, openings, k);
    if k == 0 {
      CheckAfterNext(r, commits, openings, 0);
      FirstFlight(r, commits, openings);
    } else {
      CheckGoesAround(r, commits, openings, k - 1);
      if k < m {
        CheckAfterNext(r, commits, openings, k);
      }
      Delivery(r, commits, openings, k);
    }
  }

  // ----- The whole protocol -----

  /** The leader's slots after it stored the replies. */
  function Commitments(r: Round, order: seq<int>): Option<Slots<ChallengeCommitment>>
    requires r.Valid() && InRange(order, r.Size()) && r.Opened().Some?
  {
    Collect(r.setting.suite, r.request.context.Y, r.Opened().value.commitments, r.CommitReplies(order))
  }

  function Openings(r: Round, order: seq<int>): Option<Slots<Scalar>>
    requires r.Valid() && InRange(order, r.Size()) && r.Opened().Some?
  {
    CollectOpenings(r.Opened().value.openings, r.OpeningReplies(order))
  }

  /** Honest commitments and openings fit each other. */
  lemma HonestAgree(r: Round, commits: seq<ChallengeCommitment>, openings: seq<Scalar>)
    requires r.Valid() && |commits| == |openings| == r.Size()
    requires forall i :: 0 <= i < r.Size() ==>
      r.servers[i].index < r.Size() && commits[r.servers[i].index] == r.Commit(i) && openings[r.servers[i].index] == r.openings[i]
    ensures Agreed(r, commits, openings)
  {
    hide TreeOver, Suite.Valid, OwnKeys, CommitmentSigned, CheckOpening, NewChallengeCommitment;
    RoundSizes(r);
    forall j | 0 <= j < r.Size()
      ensures commits[j].index == j && CommitmentSigned(r.setting.suite, r.request.context.Y[j], commits[j])
      ensures CheckOpening(r.setting.suite, commits[j].commit, openings[j])
    {
      PermutationCovers(Indexes(r.servers), r.Size(), j);
      var i :| 0 <= i < r.Size() && Indexes(r.servers)[i] == j;
      assert commits[j] == r.Commit(i);
    }
  }

  lemma SlotsAreComplete<T>(r: Round, slots: Slots<T>)
    requires r.Valid() && |slots| == r.Size()
    requires forall i :: 0 <= i < r.Size() ==> r.servers[i].index < |slots| && slots[r.servers[i].index].Some?
    ensures Complete(slots)
  {
    forall j | 0 <= j < |slots|
      ensures slots[j].Some?
    {
      PermutationCovers(Indexes(r.servers), r.Size(), j);
      var i :| 0 <= i < r.Size() && Indexes(r.servers)[i] == j;
    }
  }

  /** Challenge generation among honest nodes, for every leader and every order in which the
      commitments and the openings arrive: all slots fill up, slot j with what server j sent, and the
      check returns to the leader after m hops, which makes the sum of all openings, signed once by
      every server, the result. */
  lemma ChallengeGenerationSucceeds(r: Round, order: seq<int>, order': seq<int>)
    requires r.Valid() && r.Arrival(order) && r.Arrival(order')
    ensures r.Opened().Some? && r.leader < r.Size() == |r.setting.keys| && r.Size() < |r.nonces| && 0 < r.setting.suite.q
    ensures
      var commits, openings := Commitments(r, order), Openings(r, order');
      && commits.Some? && Complete(commits.value) && openings.Some? && Complete(openings.value)
      && |openings.value| == r.Size()
      && (forall i :: 0 <= i < r.Size() ==>
        r.servers[i].index < r.Size() && openings.value[r.servers[i].index] == Some(r.openings[i]))
      && var flight := FlightAfter(r, Values(commits.value), Values(openings.value), r.Size());
        && flight.Arrived? && flight.at == NodeOf(r.setting.keys[r.leader], r.setting.nodes)
        && flight.challenge.cs == Sum(r.setting.suite.q, Values(openings.value))
        && SignedOnceByAll(r.setting.suite, r.request.context, flight.challenge, r.request.pkCommits)
  {
    hide Round.Valid, Round.Opened, Sum, Agreed, FlightAfter, CheckAfter, SignedOnceByAll, CheckAccepted;
    RoundSizes(r);
    HonestCommitsCollect(r, order);
    HonestOpeningsCollect(r, order');
    var commits, openings := Commitments(r, order).value, Openings(r, order').value;
    SlotsAreComplete(r, commits);
    SlotsAreComplete(r, openings);
    HonestAgree(r, Values(commits), Values(openings));
    CheckGoesAround(r, Values(commits), Values(openings), r.Size());
    CheckAfterIsAccepted(r, Values(commits), Values(openings), r.Size());
    FinalizedIsSignedByAll(r.setting.suite, r.request.context, CheckAfter(r, Values(commits), Values(openings), r.Size()), r.request.pkCommits);
  }
}

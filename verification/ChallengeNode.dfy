/** One node of the challenge generation protocol: its state and its handlers. */
module ChallengeNode {
  import opened Zq
  import opened Suites
  import opened Permutations
  import opened Challenges
  import opened Rings
  import opened SlotBuffers

  // ----- Commitments from the other nodes -----

  /** Slot i holds nothing or a commitment that names server i and carries its signature. */
  predicate SlotsVerified(suite: Suite, keys: seq<Point>, slots: Slots<ChallengeCommitment>) {
    |slots| == |keys| &&
    forall i :: 0 <= i < |slots| && slots[i].Some? ==> slots[i].value.index == i && CommitmentSigned(suite, keys[i], slots[i].value)
  }

  /** The commitment slots after the leader went through the replies: each must be signed by the
      server it names and go into that server's empty slot. */
  function Collect(suite: Suite, keys: seq<Point>, slots: Slots<ChallengeCommitment>, replies: seq<ChallengeCommitment>)
    : (r: Option<Slots<ChallengeCommitment>>)
  {
    if replies == [] then Some(slots)
    else
      var n := |replies| - 1;
      var before := Collect(suite, keys, slots, replies[..n]);
      if before.None? || !(0 <= replies[n].index < |keys|) || !CommitmentSigned(suite, keys[replies[n].index], replies[n])
      then None
      else Save(before.value, replies[n].index, replies[n])
  }

  /** Collected slots are verified, and every reply filled one more of them. */
  lemma {:induction false} CollectFills(
    suite: Suite, keys: seq<Point>, slots: Slots<ChallengeCommitment>, replies: seq<ChallengeCommitment>)
    requires SlotsVerified(suite, keys, slots)
    ensures
      var r := Collect(suite, keys, slots, replies);
      r.Some? ==> SlotsVerified(suite, keys, r.value) && Filled(r.value) == Filled(slots) + |replies|
  {
    if replies != [] {
      var n := |replies| - 1;
      CollectFills(suite, keys, slots, replies[..n]);
      var before := Collect(suite, keys, slots, replies[..n]);
      if Collect(suite, keys, slots, replies).Some? {
        FilledAfterSave(before.value, replies[n].index, replies[n]);
      }
    }
  }

  // ----- Openings from the other nodes -----

  function CollectOpenings(slots: Slots<Scalar>, replies: seq<(int, Scalar)>): (r: Option<Slots<Scalar>>) {
    if replies == [] then Some(slots)
    else
      var n := |replies| - 1;
      var before := CollectOpenings(slots, replies[..n]);
      if before.None? then None else Save(before.value, replies[n].0, replies[n].1)
  }

  lemma {:induction false} CollectOpeningsFills(slots: Slots<Scalar>, replies: seq<(int, Scalar)>)
    ensures
      var r := CollectOpenings(slots, replies);
      r.Some? ==> |r.value| == |slots| && Filled(r.value) == Filled(slots) + |replies|
  {
    if replies != [] {
      var n := |replies| - 1;
      CollectOpeningsFills(slots, replies[..n]);
      if CollectOpenings(slots, replies).Some? {
        FilledAfterSave(CollectOpenings(slots, replies[..n]).value, replies[n].0, replies[n].1);
      }
    }
  }

  // ----- The node -----

  datatype Request = Request(context: Context, pkCommits: seq<Point>)

  /** A leader's commitment as announced to a child. */
  datatype Announce = Announce(leaderCommit: ChallengeCommitment, leaderIndex: int, request: Request)

  datatype NodeState = NodeState(
    commitments: Slots<ChallengeCommitment>, openings: Slots<Scalar>, server: Option<Identity>, request: Option<Request>)

  /** A leader before and after it started. */
  function LeaderSetup(n: nat, request: Request, server: Identity): NodeState {
    NodeState(Empty(n), Empty(n), Some(server), Some(request))
  }

  function ChildSetup(): NodeState {
    NodeState(Empty(1), Empty(1), None, None)
  }

  /** The leader commits to an opening of its own. */
  function Started(suite: Suite, st: NodeState, children: nat, opening: Scalar, nonce: Scalar): (r: Option<NodeState>)
    requires suite.Valid() && st.server.Some? && st.request.Some?
  {
    if children != |st.request.value.context.Y| - 1 then None
    else
      var own := NewChallengeCommitment(suite, st.server.value, opening, nonce).value;
      var openings := Save(st.openings, st.server.value.index, own.1);
      var commitments := Save(st.commitments, st.server.value.index, own.0);
      if openings.None? || commitments.None? then None
      else Some(st.(commitments := commitments.value, openings := openings.value))
  }

  /** A leader that starts has a slot for every server of the context, and one reply of every child fills
      those that are still empty. */
  lemma StartedExpectsAll(suite: Suite, request: Request, server: Identity, children: nat, opening: Scalar, nonce: Scalar)
    requires suite.Valid()
    ensures
      var st := Started(suite, LeaderSetup(children + 1, request, server), children, opening, nonce);
      st.Some? ==>
        && |st.value.commitments| == |st.value.openings| == |request.context.Y|
        && Filled(st.value.commitments) + children == |st.value.commitments|
        && Filled(st.value.openings) + children == |st.value.openings|
  {
    hide Suite.Valid, NewChallengeCommitment, Filled, Mul;
    var n, before := children + 1, LeaderSetup(children + 1, request, server);
    if Started(suite, before, children, opening, nonce).Some? {
      var own := NewChallengeCommitment(suite, server, opening, nonce).value;
      EmptyIsUnfilled<ChallengeCommitment>(n);
      EmptyIsUnfilled<Scalar>(n);
      FilledAfterSave(before.commitments, server.index, own.0);
      FilledAfterSave(before.openings, server.index, own.1);
    }
  }

  /** A child's state after it answered the leader's announcement with its own commitment. */
  function Announced(suite: Suite, st: NodeState, msg: Announce, accepted: Option<Identity>, opening: Scalar, nonce: Scalar)
    : (r: Option<(NodeState, ChallengeCommitment)>)
    requires suite.Valid() && 0 <= msg.leaderIndex < |msg.request.context.Y|
  {
    if accepted.None? then None
    else if !CommitmentSigned(suite, msg.request.context.Y[msg.leaderIndex], msg.leaderCommit) then None
    else
      var own := NewChallengeCommitment(suite, accepted.value, opening, nonce).value;
      var commitments := Save(st.commitments, 0, msg.leaderCommit);
      var openings := Save(st.openings, 0, own.1);
      if commitments.None? || openings.None? then None
      else Some((NodeState(commitments.value, openings.value, accepted, Some(msg.request)), own.0))
  }

  /** The check that the leader puts on the ring: complete openings that open the commitments. */
  function FirstCheck(
    suite: Suite, request: Request, commits: seq<ChallengeCommitment>, openings: seq<Scalar>, server: Identity, nonce: Scalar)
    : (r: Option<CheckState>)
    requires 0 < suite.q
  {
    var initial := CheckState(Sum(suite.q, openings), [], commits, openings);
    if |commits| == 0 || !CheckAccepted(suite, request.context, initial, request.pkCommits) then None
    else Some(Updated(suite, request.context, initial, request.pkCommits, server, nonce))
  }

  datatype Outcome = Stopped | Pass(check: CheckState) | Result(challenge: Challenge)

  function Finalizing(suite: Suite, request: Request, check: CheckState, server: Identity, nonce: Scalar): Outcome
    requires 0 < suite.q
  {
    if !CheckAccepted(suite, request.context, check, request.pkCommits) then Stopped
    else
      var after := Updated(suite, request.context, check, request.pkCommits, server, nonce);
      if |check.sigs| != |request.context.Y| then Pass(after) else Result(Challenge(after.cs, after.sigs))
  }

  /** What a node publishes is signed once by every server and is the sum of the openings of the signed
      commitments; what it passes on is accepted by the next node, unless it has signed twice. */
  lemma FinalizingIsChecked(suite: Suite, request: Request, check: CheckState, server: Identity, nonce: Scalar)
    requires suite.Valid() && server.index < |request.context.Y|
    requires request.context.Y[server.index] == server.PublicKey(suite.q)
    ensures
      var outcome := Finalizing(suite, request, check, server, nonce);
      && (outcome.Result? ==>
        SignedOnceByAll(suite, request.context, outcome.challenge, request.pkCommits)
        && CommitmentsAccepted(suite, request.context.Y, check.commits)
        && OpeningsAccepted(suite, request.context, check.commits, check.openings)
        && outcome.challenge.cs == Sum(suite.q, check.openings))
      && (outcome.Pass? && server.index !in Signers(check.sigs) ==>
        CheckAccepted(suite, request.context, outcome.check, request.pkCommits) && |outcome.check.sigs| == |check.sigs| + 1)
  {
    hide SignedOnceByAll, Sum;
    if CheckAccepted(suite, request.context, check, request.pkCommits) {
      if |check.sigs| == |request.context.Y| {
        FinalizedIsSignedByAll(suite, request.context, check, request.pkCommits);
      } else if server.index !in Signers(check.sigs) {
        UpdatedIsAccepted(suite, request.context, check, request.pkCommits, server, nonce);
      }
    }
  }

  lemma {:induction false} CollectFailsEarly(
    suite: Suite, keys: seq<Point>, slots: Slots<ChallengeCommitment>, replies: seq<ChallengeCommitment>, k: nat)
    requires k <= |replies| && Collect(suite, keys, slots, replies[..k]).None?
    ensures Collect(suite, keys, slots, replies).None?
    decreases |replies| - k
  {
    if k == |replies| {
      assert replies[..k] == replies;
    } else {
      assert replies[..k + 1][..k] == replies[..k];
      CollectFailsEarly(suite, keys, slots, replies, k + 1);
    }
  }

  lemma {:induction false} CollectOpeningsFailsEarly(slots: Slots<Scalar>, replies: seq<(int, Scalar)>, k: nat)
    requires k <= |replies| && CollectOpenings(slots, replies[..k]).None?
    ensures CollectOpenings(slots, replies).None?
    decreases |replies| - k
  {
    if k == |replies| {
      assert replies[..k] == replies;
    } else {
      assert replies[..k + 1][..k] == replies[..k];
      CollectOpeningsFailsEarly(slots, replies, k + 1);
    }
  }

  class Protocol {
    const suite: Suite
    var commitments: Slots<ChallengeCommitment>
    var openings: Slots<Scalar>
    var server: Option<Identity>
    var request: Option<Request>
    var result: Option<Challenge>
    var done: bool

    function State(): NodeState
      reads this
    {
      NodeState(commitments, openings, server, request)
    }

    constructor (suite: Suite, st: NodeState)
      ensures this.suite == suite && State() == st && result.None? && !done
    {
      this.suite := suite;
      commitments, openings, server, request := st.commitments, st.openings, st.server, st.request;
      result, done := None, false;
    }

    /** Writes a commitment into its slot; a refused write is a panic. */
    method SaveCommitment(index: int, c: ChallengeCommitment) returns (ok: bool)
      modifies this`commitments
      ensures ok == Save(old(commitments), index, c).Some?
      ensures commitments == if ok then Save(old(commitments), index, c).value else old(commitments)
    {
      ok := 0 <= index < |commitments| && commitments[index].None?;
      if ok {
        commitments := commitments[index := Some(c)];
      }
    }

    method SaveOpening(index: int, opening: Scalar) returns (ok: bool)
      modifies this`openings
      ensures ok == Save(old(openings), index, opening).Some?
      ensures openings == if ok then Save(old(openings), index, opening).value else old(openings)
    {
      ok := 0 <= index < |openings| && openings[index].None?;
      if ok {
        openings := openings[index := Some(opening)];
      }
    }

    /** Commits, remembers the opening, and announces the commitment to all children. */
    method Start(children: nat, opening: Scalar, nonce: Scalar) returns (sent: Option<Announce>)
      requires suite.Valid() && server.Some? && request.Some?
      modifies this
      ensures sent.Some? <==> Started(suite, old(State()), children, opening, nonce).Some?
      ensures sent.Some? ==>
        && State() == Started(suite, old(State()), children, opening, nonce).value
        && sent.value == Announce(
            NewChallengeCommitment(suite, server.value, opening, nonce).value.0, server.value.index, request.value)
    {
      if children != |request.value.context.Y| - 1 {
        done := true;
        return None;
      }
      var created := NewChallengeCommitment(suite, server.value, opening, nonce).value;
      var stored := SaveOpening(server.value.index, created.1);
      if !stored {
        return None;
      }
      var saved := SaveCommitment(server.value.index, created.0);
      if !saved {
        return None;
      }
      return Some(Announce(created.0, server.value.index, request.value));
    }

    /** A child checks the request and the leader's commitment and replies with its own. */
    method HandleAnnounce(msg: Announce, accepted: Option<Identity>, opening: Scalar, nonce: Scalar)
      returns (reply: Option<ChallengeCommitment>)
      requires suite.Valid() && 0 <= msg.leaderIndex < |msg.request.context.Y|
      modifies this
      ensures reply.Some? <==> Announced(suite, old(State()), msg, accepted, opening, nonce).Some?
      ensures reply.Some? ==>
        (State(), reply.value) == Announced(suite, old(State()), msg, accepted, opening, nonce).value
    {
      if accepted.None? {
        done := true;
        return None;
      }
      request := Some(msg.request);
      server := accepted;
      if !CommitmentSigned(suite, msg.request.context.Y[msg.leaderIndex], msg.leaderCommit) {
        done := true;
        return None;
      }
      var saved := SaveCommitment(0, msg.leaderCommit);
      if !saved {
        return None;
      }
      var created := NewChallengeCommitment(suite, server.value, opening, nonce).value;
      var stored := SaveOpening(0, created.1);
      if !stored {
        return None;
      }
      return Some(created.0);
    }

    /** The leader verifies and stores all commitments, and only then reveals its opening. */
    method HandleAnnounceReply(replies: seq<ChallengeCommitment>) returns (open: Option<Scalar>)
      requires suite.Valid() && server.Some? && request.Some?
      requires forall i :: 0 <= i < |replies| ==> 0 <= replies[i].index < |request.value.context.Y|
      modifies this
      ensures server == old(server) && request == old(request) && openings == old(openings)
      ensures
        var collected := Collect(suite, request.value.context.Y, old(commitments), replies);
        && (collected.Some? ==> commitments == collected.value)
        && (open.Some? <==> collected.Some? && server.value.index < |openings| && openings[server.value.index].Some?)
        && (open.Some? ==> open == openings[server.value.index])
    {
      var keys := request.value.context.Y;
      for i := 0 to |replies|
        invariant server == old(server) && request == old(request) && openings == old(openings)
        invariant Collect(suite, keys, old(commitments), replies[..i]) == Some(commitments)
      {
        assert replies[..i + 1][..i] == replies[..i];
        if !CommitmentSigned(suite, keys[replies[i].index], replies[i]) {
          CollectFailsEarly(suite, keys, old(commitments), replies, i + 1);
          done := true;
          return None;
        }
        var saved := SaveCommitment(replies[i].index, replies[i]);
        if !saved {
          CollectFailsEarly(suite, keys, old(commitments), replies, i + 1);
          return None;
        }
      }
      assert replies[..|replies|] == replies;
      if server.value.index >= |openings| {
        return None;
      }
      return openings[server.value.index];
    }

    /** A child reveals its opening in exchange for a correct opening of the leader's commitment. */
    method HandleOpen(leaderOpening: Scalar) returns (reply: Option<(int, Scalar)>)
      requires suite.Valid() && server.Some? && |commitments| == |openings| == 1
      modifies this`done
      ensures reply.Some? <==>
        commitments[0].Some? && openings[0].Some? && CheckOpening(suite, commitments[0].value.commit, leaderOpening)
      ensures reply.Some? ==> reply.value == (server.value.index, openings[0].value)
    {
      if commitments[0].None? {
        return None;
      }
      if !CheckOpening(suite, commitments[0].value.commit, leaderOpening) {
        done := true;
        return None;
      }
      if openings[0].None? {
        return None;
      }
      return Some((server.value.index, openings[0].value));
    }

    /** The leader stores all openings, computes the challenge and signs it first. */
    method HandleOpenReply(replies: seq<(int, Scalar)>, nonce: Scalar) returns (check: Option<CheckState>)
      requires suite.Valid() && server.Some? && request.Some?
      requires |commitments| == |openings| <= |request.value.context.Y|
      requires Complete(commitments) && Filled(openings) + |replies| == |openings|
      modifies this
      ensures server == old(server) && request == old(request) && commitments == old(commitments)
      ensures check.Some? <==>
        var collected := CollectOpenings(old(openings), replies);
        collected.Some? && Complete(collected.value)
          && FirstCheck(suite, request.value, Values(old(commitments)), Values(collected.value), server.value, nonce).Some?
      ensures check.Some? ==>
        && Complete(openings) && CollectOpenings(old(openings), replies) == Some(openings)
        && check == FirstCheck(suite, request.value, Values(commitments), Values(openings), server.value, nonce)
    {
      for i := 0 to |replies|
        invariant server == old(server) && request == old(request) && commitments == old(commitments)
        invariant CollectOpenings(old(openings), replies[..i]) == Some(openings)
      {
        assert replies[..i + 1][..i] == replies[..i];
        var saved := SaveOpening(replies[i].0, replies[i].1);
        if !saved {
          CollectOpeningsFailsEarly(old(openings), replies, i + 1);
          return None;
        }
      }
      assert replies[..|replies|] == replies;
      CollectOpeningsFills(old(openings), replies);
      forall i | 0 <= i < |openings|
        ensures openings[i].Some?
      {
        AllFilled(openings, i);
      }
      var initial := InitializeChallenge(suite, request.value.context, Values(commitments), Values(openings));
      if initial.Err? {
        done := true;
        return None;
      }
      var c := new ChallengeCheck(initial.value);
      var error := c.CheckUpdateChallenge(suite, request.value.context, request.value.pkCommits, server.value, nonce);
      if error.Some? {
        done := true;
        return None;
      }
      return Some(c.State());
    }

    /** A node checks and signs the challenge; when everybody has signed, the leader finalizes it. */
    method HandleFinalize(check: CheckState, nonce: Scalar) returns (forward: Option<CheckState>)
      requires suite.Valid() && server.Some? && request.Some?
      requires InRange(Signers(check.sigs), |request.value.context.Y|) && |check.commits| <= |request.value.context.Y|
      modifies this
      ensures done && State() == old(State())
      ensures
        var outcome := Finalizing(suite, request.value, check, server.value, nonce);
        && forward == (if outcome.Pass? then Some(outcome.check) else None)
        && result == (if outcome.Result? then Some(outcome.challenge) else old(result))
    {
      done := true;
      var weAreNotLeader := |check.sigs| != |request.value.context.Y|;
      var c := new ChallengeCheck(check);
      var error := c.CheckUpdateChallenge(suite, request.value.context, request.value.pkCommits, server.value, nonce);
      if error.Some? {
        return None;
      }
      if weAreNotLeader {
        return Some(c.State());
      }
      var final := FinalizeChallenge(request.value.context, c.State());
      if final.Ok? {
        result := Some(final.value);
      }
      return None;
    }
  }
}

/** The challenge generation protocol as a whole: a leader, its children, and messages in flight.

    The leader follows the protocol. Children in `honest` follow it as well; all others may send the
    leader whatever they like, whenever they like. */
module ChallengeSystem {
  import opened Zq
  import opened Suites
  import opened Permutations
  import opened Challenges
  import opened SlotBuffers
  import opened ChallengeNode

  datatype Message =
    | ToChild(to: nat, announce: Announce)
    | AnnounceReply(from: nat, commit: ChallengeCommitment)
    | Open(to: nat, leaderOpening: Scalar)
    | OpenReply(from: nat, index: int, opening: Scalar)

  datatype Phase = Idle | Committing | Opening | Checking(check: CheckState) | Failed

  datatype ChildPhase = Waiting | Committed | Revealed | Halted

  datatype Child = Child(phase: ChildPhase, state: NodeState)

  datatype System = System(phase: Phase, leader: NodeState, children: seq<Child>, net: multiset<Message>)

  datatype Config = Config(suite: Suite, request: Request, leader: Identity, children: seq<Identity>, honest: set<nat>)

  ghost predicate ValidConfig(c: Config) {
    && 0 < c.suite.q && c.suite.Valid() && |c.request.context.Y| == |c.children| + 1
    && c.leader.index < |c.request.context.Y|
    && c.request.context.Y[c.leader.index] == c.leader.PublicKey(c.suite.q)
  }

  ghost predicate Init(c: Config, s: System) {
    && s.phase == Idle && s.net == multiset{}
    && s.leader == LeaderSetup(|c.children| + 1, c.request, c.leader)
    && s.children == seq(|c.children|, _ => Child(Waiting, ChildSetup()))
  }

  // ----- Steps -----

  datatype Action =
    | Start(opening: Scalar, nonce: Scalar)
    | HandleAnnounce(i: nat, announce: Announce, accepts: bool, opening: Scalar, nonce: Scalar)
    | HandleAnnounceReply(replies: seq<(nat, ChallengeCommitment)>)
    | HandleOpen(i: nat, leaderOpening: Scalar)
    | HandleOpenReply(opens: seq<(nat, (int, Scalar))>, nonce: Scalar)
    | Inject(message: Message)

  /** One reply of every child, in the order of arrival. */
  function AnnounceReplies(replies: seq<(nat, ChallengeCommitment)>): (r: seq<Message>)
    ensures |r| == |replies| && forall k :: 0 <= k < |r| ==> r[k] == AnnounceReply(replies[k].0, replies[k].1)
  {
    seq(|replies|, k requires 0 <= k < |replies| => AnnounceReply(replies[k].0, replies[k].1))
  }

  function OpenReplies(opens: seq<(nat, (int, Scalar))>): (r: seq<Message>)
    ensures |r| == |opens| && forall k :: 0 <= k < |r| ==> r[k] == OpenReply(opens[k].0, opens[k].1.0, opens[k].1.1)
  {
    seq(|opens|, k requires 0 <= k < |opens| => OpenReply(opens[k].0, opens[k].1.0, opens[k].1.1))
  }

  function AnnounceToAll(n: nat, a: Announce): (r: seq<Message>)
    ensures forall m :: m in r ==> m.ToChild?
  {
    seq(n, i requires 0 <= i < n => ToChild(i, a))
  }

  function OpenToAll(n: nat, o: Scalar): (r: seq<Message>)
    ensures forall m :: m in r ==> m.Open?
  {
    seq(n, i requires 0 <= i < n => Open(i, o))
  }

  /** What a child outside `honest` may put on the network. */
  predicate Injectable(c: Config, m: Message) {
    match m
    case AnnounceReply(from, commit) => from !in c.honest
    case OpenReply(from, _, opening) => from !in c.honest && opening < c.suite.q
    case _ => false
  }

  ghost predicate StartStep(c: Config, s: System, opening: Scalar, nonce: Scalar, s': System)
    requires ValidConfig(c)
  {
    && s.phase == Idle && opening < c.suite.q && s.leader.server == Some(c.leader) && s.leader.request == Some(c.request)
    && var next := Started(c.suite, s.leader, |c.children|, opening, nonce);
      if next.None? then s' == s.(phase := Failed)
      else
        var own := NewChallengeCommitment(c.suite, c.leader, opening, nonce).value.0;
        s' == s.(phase := Committing, leader := next.value,
          net := s.net + multiset(AnnounceToAll(|c.children|, Announce(own, c.leader.index, c.request))))
  }

  ghost predicate AnnounceStep(
    c: Config, s: System, i: nat, announce: Announce, accepts: bool, opening: Scalar, nonce: Scalar, s': System)
    requires ValidConfig(c)
  {
    && i < |s.children| == |c.children| && i in c.honest && s.children[i].phase == Waiting && opening < c.suite.q
    && ToChild(i, announce) in s.net && 0 <= announce.leaderIndex < |announce.request.context.Y|
    && var next := Announced(c.suite, s.children[i].state, announce, if accepts then Some(c.children[i]) else None, opening, nonce);
      var net := s.net - multiset{ToChild(i, announce)};
      if next.None? then
        s' == s.(children := s.children[i := s.children[i].(phase := Halted)], net := net)
      else
        s' == s.(children := s.children[i := Child(Committed, next.value.0)],
          net := net + multiset{AnnounceReply(i, next.value.1)})
  }

  ghost predicate AnnounceReplyStep(c: Config, s: System, replies: seq<(nat, ChallengeCommitment)>, s': System)
    requires ValidConfig(c)
  {
    && s.phase == Committing && IsPermutation(Firsts(replies), |c.children|)
    && multiset(AnnounceReplies(replies)) <= s.net
    && var next := Collect(c.suite, c.request.context.Y, s.leader.commitments, Seconds(replies));
      var net := s.net - multiset(AnnounceReplies(replies));
      if next.None? || c.leader.index >= |s.leader.openings| || s.leader.openings[c.leader.index].None? then
        s' == s.(phase := Failed, net := net)
      else
        s' == s.(phase := Opening, leader := s.leader.(commitments := next.value),
          net := net + multiset(OpenToAll(|c.children|, s.leader.openings[c.leader.index].value)))
  }

  ghost predicate OpenStep(c: Config, s: System, i: nat, leaderOpening: Scalar, s': System)
    requires ValidConfig(c)
  {
    && i < |s.children| == |c.children| && i in c.honest && s.children[i].phase == Committed
    && Open(i, leaderOpening) in s.net
    && var st := s.children[i].state;
      var net := s.net - multiset{Open(i, leaderOpening)};
      if |st.commitments| != 1 || |st.openings| != 1 || st.commitments[0].None? || st.openings[0].None?
        || !CheckOpening(c.suite, st.commitments[0].value.commit, leaderOpening)
      then
        s' == s.(children := s.children[i := Child(Halted, st)], net := net)
      else
        && st.openings[0].value < c.suite.q
        && s' == s.(children := s.children[i := Child(Revealed, st)],
          net := net + multiset{OpenReply(i, c.children[i].index, st.openings[0].value)})
  }

  ghost predicate OpenReplyStep(c: Config, s: System, opens: seq<(nat, (int, Scalar))>, nonce: Scalar, s': System)
    requires ValidConfig(c)
  {
    && s.phase == Opening && IsPermutation(Firsts(opens), |c.children|)
    && multiset(OpenReplies(opens)) <= s.net
    && var next := CollectOpenings(s.leader.openings, Seconds(opens));
      var net := s.net - multiset(OpenReplies(opens));
      if next.None? || !Complete(next.value) || !Complete(s.leader.commitments) then s' == s.(phase := Failed, net := net)
      else
        var check := FirstCheck(c.suite, c.request, Values(s.leader.commitments), Values(next.value), c.leader, nonce);
        if check.None? then s' == s.(phase := Failed, net := net)
        else s' == s.(phase := Checking(check.value), leader := s.leader.(openings := next.value), net := net)
  }

  ghost predicate InjectStep(c: Config, s: System, message: Message, s': System) {
    Injectable(c, message) && s' == s.(net := s.net + multiset{message})
  }

  ghost predicate Step(c: Config, s: System, a: Action, s': System)
    requires ValidConfig(c)
  {
    match a
    case Start(opening, nonce) => StartStep(c, s, opening, nonce, s')
    case HandleAnnounce(i, announce, accepts, opening, nonce) => AnnounceStep(c, s, i, announce, accepts, opening, nonce, s')
    case HandleAnnounceReply(replies) => AnnounceReplyStep(c, s, replies, s')
    case HandleOpen(i, leaderOpening) => OpenStep(c, s, i, leaderOpening, s')
    case HandleOpenReply(opens, nonce) => OpenReplyStep(c, s, opens, nonce, s')
    case Inject(message) => InjectStep(c, s, message, s')
  }

  // ----- What every step keeps -----

  /** Every slot of the leader holds a commitment signed by the server it belongs to. */
  ghost predicate CommitmentsFixed(c: Config, s: System) {
    SlotsVerified(c.suite, c.request.context.Y, s.leader.commitments) && Complete(s.leader.commitments)
  }

  /** The leader's opening, or that of an honest child, is on the network or was read from it. */
  ghost predicate OpeningRevealed(c: Config, s: System) {
    || (exists m :: m in s.net && m.Open?)
    || (exists m :: m in s.net && m.OpenReply? && m.from in c.honest)
    || (exists i :: 0 <= i < |s.children| && s.children[i].phase == Revealed)
  }

  ghost predicate OpeningsBelow(c: Config, s: System) {
    && (forall m :: m in s.net && m.OpenReply? ==> m.opening < c.suite.q)
    && (forall i :: 0 <= i < |s.leader.openings| && s.leader.openings[i].Some? ==> s.leader.openings[i].value < c.suite.q)
  }

  ghost predicate LeaderInv(c: Config, s: System)
    requires 0 < c.suite.q
  {
    match s.phase
    case Idle => s.leader == LeaderSetup(|c.children| + 1, c.request, c.leader)
    case Committing =>
      && SlotsVerified(c.suite, c.request.context.Y, s.leader.commitments)
      && Filled(s.leader.commitments) == 1 && Filled(s.leader.openings) == 1
      && |s.leader.openings| == |c.children| + 1
    case Opening => CommitmentsFixed(c, s)
    case Checking(check) =>
      && CommitmentsFixed(c, s) && Complete(s.leader.openings)
      && check.commits == Values(s.leader.commitments) && check.openings == Values(s.leader.openings)
      && check.cs == Sum(c.suite.q, check.openings)
      && OpeningsAccepted(c.suite, c.request.context, check.commits, check.openings)
    case Failed => true
  }

  ghost predicate Inv(c: Config, s: System)
    requires 0 < c.suite.q
  {
    && |s.children| == |c.children| && OpeningsBelow(c, s) && LeaderInv(c, s)
    && (s.phase in {Idle, Committing} ==> !OpeningRevealed(c, s))
    && (OpeningRevealed(c, s) ==> CommitmentsFixed(c, s))
  }

  lemma InitInv(c: Config, s: System)
    requires ValidConfig(c) && Init(c, s)
    ensures Inv(c, s)
  {
  }

  lemma StartInv(c: Config, s: System, opening: Scalar, nonce: Scalar, s': System)
    requires ValidConfig(c) && Inv(c, s) && StartStep(c, s, opening, nonce, s')
    ensures Inv(c, s')
  {
    hide Announced, Collect, CollectOpenings, FirstCheck, Mul, Suite.Valid, NewChallengeCommitment, CommitmentSigned, Filled;
    var n, j := |c.children| + 1, c.leader.index;
    EmptyIsUnfilled<ChallengeCommitment>(n);
    EmptyIsUnfilled<Scalar>(n);
    if s'.phase == Committing {
      var own := NewChallengeCommitment(c.suite, c.leader, opening, nonce).value;
      FilledAfterSave(s.leader.commitments, j, own.0);
      FilledAfterSave(s.leader.openings, j, own.1);
    }
  }

  lemma HandleAnnounceInv(
    c: Config, s: System, i: nat, announce: Announce, accepts: bool, opening: Scalar, nonce: Scalar, s': System)
    requires ValidConfig(c) && Inv(c, s) && AnnounceStep(c, s, i, announce, accepts, opening, nonce, s')
    ensures Inv(c, s')
  {
    hide Announced, Suite.Valid, Mul;
    assert forall m :: m in s'.net && (m.Open? || m.OpenReply?) ==> m in s.net;
    assert OpeningRevealed(c, s') ==> OpeningRevealed(c, s);
  }

  /** A step that adds no opening and reveals no child's opening keeps everything hidden. */
  lemma NothingRevealed(c: Config, s: System, s': System)
    requires s'.net <= s.net && s'.children == s.children
    ensures OpeningRevealed(c, s') ==> OpeningRevealed(c, s)
  {
    assert forall m :: m in s'.net ==> m in s.net;
  }

  /** When the leader goes on, all its slots hold verified commitments. */
  lemma RepliesComplete(c: Config, s: System, replies: seq<(nat, ChallengeCommitment)>, s': System)
    requires ValidConfig(c) && Inv(c, s) && AnnounceReplyStep(c, s, replies, s') && s'.phase == Opening
    ensures CommitmentsFixed(c, s')
  {
    hide Suite.Valid, OpeningRevealed, OpeningsBelow, Mul, Collect, CommitmentSigned, Filled;
    CollectFills(c.suite, c.request.context.Y, s.leader.commitments, Seconds(replies));
    forall i | 0 <= i < |s'.leader.commitments|
      ensures s'.leader.commitments[i].Some?
    {
      AllFilled(s'.leader.commitments, i);
    }
  }

  lemma HandleAnnounceReplyInv(c: Config, s: System, replies: seq<(nat, ChallengeCommitment)>, s': System)
    requires ValidConfig(c) && Inv(c, s) && AnnounceReplyStep(c, s, replies, s')
    ensures Inv(c, s')
  {
    hide Suite.Valid, OpeningRevealed, Mul, Collect, SlotsVerified, Filled, CommitmentsFixed;
    if s'.phase == Opening {
      RepliesComplete(c, s, replies, s');
    } else {
      NothingRevealed(c, s, s');
    }
  }

  lemma HandleOpenInv(c: Config, s: System, i: nat, leaderOpening: Scalar, s': System)
    requires ValidConfig(c) && Inv(c, s) && OpenStep(c, s, i, leaderOpening, s')
    ensures Inv(c, s')
  {
    assert Open(i, leaderOpening).Open?;
    assert OpeningRevealed(c, s);
  }

  lemma {:induction false} CollectedBelow(q: nat, slots: Slots<Scalar>, replies: seq<(int, Scalar)>)
    requires forall i :: 0 <= i < |slots| && slots[i].Some? ==> slots[i].value < q
    requires forall k :: 0 <= k < |replies| ==> replies[k].1 < q
    ensures
      var r := CollectOpenings(slots, replies);
      r.Some? ==> forall i :: 0 <= i < |r.value| && r.value[i].Some? ==> r.value[i].value < q
  {
    if replies != [] {
      CollectedBelow(q, slots, replies[..|replies| - 1]);
    }
  }

  /** The openings that the leader collects are scalars, as those on the network are. */
  lemma OpenRepliesBelow(c: Config, s: System, opens: seq<(nat, (int, Scalar))>, nonce: Scalar, s': System)
    requires ValidConfig(c) && OpeningsBelow(c, s) && OpenReplyStep(c, s, opens, nonce, s')
    ensures OpeningsBelow(c, s')
  {
    hide Suite.Valid, CollectOpenings, FirstCheck;
    assert forall m :: m in s'.net ==> m in s.net;
    if s'.phase.Checking? {
      forall k | 0 <= k < |opens|
        ensures opens[k].1.1 < c.suite.q
      {
        assert OpenReplies(opens)[k] in multiset(OpenReplies(opens));
      }
      CollectedBelow(c.suite.q, s.leader.openings, Seconds(opens));
    }
  }

  lemma FirstCheckHolds(
    suite: Suite, request: Request, commits: seq<ChallengeCommitment>, openings: seq<Scalar>, server: Identity, nonce: Scalar)
    requires 0 < suite.q && FirstCheck(suite, request, commits, openings, server, nonce).Some?
    ensures
      var check := FirstCheck(suite, request, commits, openings, server, nonce).value;
      && check.commits == commits && check.openings == openings && check.cs == Sum(suite.q, openings)
      && OpeningsAccepted(suite, request.context, commits, openings)
  {
  }

  lemma HandleOpenReplyInv(c: Config, s: System, opens: seq<(nat, (int, Scalar))>, nonce: Scalar, s': System)
    requires ValidConfig(c) && Inv(c, s) && OpenReplyStep(c, s, opens, nonce, s')
    ensures Inv(c, s')
  {
    hide Suite.Valid, OpeningRevealed, OpeningsBelow, SlotsVerified, CollectOpenings, FirstCheck, Mul, Filled, OpeningsAccepted;
    OpenRepliesBelow(c, s, opens, nonce, s');
    if s'.phase.Checking? {
      FirstCheckHolds(c.suite, c.request, Values(s.leader.commitments), Values(s'.leader.openings), c.leader, nonce);
    }
    assert CommitmentsFixed(c, s) && CommitmentsFixed(c, s');
  }

  lemma InjectInv(c: Config, s: System, message: Message, s': System)
    requires ValidConfig(c) && Inv(c, s) && InjectStep(c, s, message, s')
    ensures Inv(c, s')
  {
    assert forall m :: m in s'.net ==> m in s.net || m == message;
    assert OpeningRevealed(c, s') ==> OpeningRevealed(c, s);
  }

  lemma StepInv(c: Config, s: System, a: Action, s': System)
    requires ValidConfig(c) && Inv(c, s) && Step(c, s, a, s')
    ensures Inv(c, s')
  {
    hide Inv, StartStep, AnnounceStep, AnnounceReplyStep, OpenStep, OpenReplyStep, InjectStep;
    match a
    case Start(opening, nonce) => StartInv(c, s, opening, nonce, s');
    case HandleAnnounce(i, announce, accepts, opening, nonce) => HandleAnnounceInv(c, s, i, announce, accepts, opening, nonce, s');
    case HandleAnnounceReply(replies) => HandleAnnounceReplyInv(c, s, replies, s');
    case HandleOpen(i, leaderOpening) => HandleOpenInv(c, s, i, leaderOpening, s');
    case HandleOpenReply(opens, nonce) => HandleOpenReplyInv(c, s, opens, nonce, s');
    case Inject(message) => InjectInv(c, s, message, s');
  }

  // ----- Runs -----

  /** A finite run: states and the actions between them. */
  datatype Run = Run(states: seq<System>, actions: seq<Action>)

  ghost predicate IsRun(c: Config, r: Run)
    requires ValidConfig(c)
  {
    && |r.states| == |r.actions| + 1
    && forall k :: 0 <= k < |r.actions| ==> Step(c, r.states[k], r.actions[k], r.states[k + 1])
  }

  lemma {:induction false} RunInv(c: Config, r: Run, k: nat)
    requires ValidConfig(c) && IsRun(c, r) && Inv(c, r.states[0]) && k < |r.states|
    ensures Inv(c, r.states[k])
  {
    if k > 0 {
      RunInv(c, r, k - 1);
      StepInv(c, r.states[k - 1], r.actions[k - 1], r.states[k]);
    }
  }

  /** In every run, with whatever dishonest children do: as long as some slot lacks a verified
      commitment, neither the leader's opening nor that of an honest child has been revealed. */
  lemma NoOpeningBeforeAllCommitments(c: Config, r: Run, k: nat)
    requires ValidConfig(c) && IsRun(c, r) && Init(c, r.states[0]) && k < |r.states|
    ensures OpeningRevealed(c, r.states[k]) ==> CommitmentsFixed(c, r.states[k])
  {
    InitInv(c, r.states[0]);
    RunInv(c, r, k);
  }

  /** The child keeps a commitment that is signed under a key of the context it was told. */
  ghost predicate HoldsCommitment(suite: Suite, st: NodeState) {
    && st.request.Some? && |st.commitments| == 1 && st.commitments[0].Some?
    && var keys := st.request.value.context.Y;
      exists j :: 0 <= j < |keys| && CommitmentSigned(suite, keys[j], st.commitments[0].value)
  }

  /** A child that answered an announcement has checked its signature. */
  lemma AnnouncedHolds(
    c: Config, st: NodeState, announce: Announce, accepted: Option<Identity>, opening: Scalar, nonce: Scalar)
    requires c.suite.Valid() && 0 <= announce.leaderIndex < |announce.request.context.Y| && |st.commitments| == 1
    requires Announced(c.suite, st, announce, accepted, opening, nonce).Some?
    ensures HoldsCommitment(c.suite, Announced(c.suite, st, announce, accepted, opening, nonce).value.0)
  {
    var after := Announced(c.suite, st, announce, accepted, opening, nonce).value.0;
    assert CommitmentSigned(c.suite, after.request.value.context.Y[announce.leaderIndex], after.commitments[0].value);
  }

  /** What one step means for a child. */
  ghost predicate ChildKept(c: Config, before: Child, after: Child) {
    && (before.phase == Waiting ==> |before.state.commitments| == 1)
    && (before.phase in {Committed, Revealed} ==> HoldsCommitment(c.suite, before.state))
    ==>
    && (after.phase == Waiting ==> |after.state.commitments| == 1)
    && (after.phase in {Committed, Revealed} ==> HoldsCommitment(c.suite, after.state))
  }

  /** A child only reveals its opening in exchange for an opening of the commitment that it holds. */
  lemma StepOfChild(c: Config, s: System, a: Action, s': System, i: nat)
    requires ValidConfig(c) && Step(c, s, a, s') && i < |s.children| == |c.children|
    ensures |s'.children| == |s.children| && ChildKept(c, s.children[i], s'.children[i])
    ensures s'.children[i].phase == Revealed && s.children[i].phase != Revealed ==>
      && s.children[i].phase == Committed && a.HandleOpen? && a.i == i && s'.children[i].state == s.children[i].state
      && |s.children[i].state.commitments| == 1 && s.children[i].state.commitments[0].Some?
      && CheckOpening(c.suite, s.children[i].state.commitments[0].value.commit, a.leaderOpening)
    ensures s.children[i].phase == Revealed ==> s'.children[i] == s.children[i]
  {
    hide Started, Announced, Collect, CollectOpenings, FirstCheck, HoldsCommitment, Suite.Valid, Mul;
    if a.HandleAnnounce? && a.i == i && s.children[i].phase == Waiting && |s.children[i].state.commitments| == 1 {
      var accepted := if a.accepts then Some(c.children[i]) else None;
      if Announced(c.suite, s.children[i].state, a.announce, accepted, a.opening, a.nonce).Some? {
        AnnouncedHolds(c, s.children[i].state, a.announce, accepted, a.opening, a.nonce);
      }
    }
  }

  lemma {:induction false} ChildHolds(c: Config, r: Run, k: nat, i: nat)
    requires ValidConfig(c) && IsRun(c, r) && Init(c, r.states[0]) && k < |r.states| && i < |c.children|
    ensures |r.states[k].children| == |c.children|
    ensures r.states[k].children[i].phase == Waiting ==> |r.states[k].children[i].state.commitments| == 1
    ensures r.states[k].children[i].phase in {Committed, Revealed} ==> HoldsCommitment(c.suite, r.states[k].children[i].state)
  {
    hide Step, HoldsCommitment;
    if k > 0 {
      ChildHolds(c, r, k - 1, i);
      StepOfChild(c, r.states[k - 1], r.actions[k - 1], r.states[k], i);
    }
  }

  /** No child is tricked into revealing its opening: when it has, it holds a signed commitment of the leader
      and was sent, earlier in the run, an opening of exactly that commitment. */
  lemma {:induction false} RevealedAfterOpening(c: Config, r: Run, k: nat, i: nat)
    returns (j: nat)
    requires ValidConfig(c) && IsRun(c, r) && Init(c, r.states[0]) && k < |r.states| && i < |c.children|
    requires |r.states[k].children| == |c.children| && r.states[k].children[i].phase == Revealed
    ensures j < k && r.actions[j].HandleOpen? && r.actions[j].i == i
    ensures
      var st := r.states[k].children[i].state;
      HoldsCommitment(c.suite, st) && CheckOpening(c.suite, st.commitments[0].value.commit, r.actions[j].leaderOpening)
  {
    hide Step, HoldsCommitment;
    ChildHolds(c, r, k, i);
    if k > 0 {
      ChildHolds(c, r, k - 1, i);
      StepOfChild(c, r.states[k - 1], r.actions[k - 1], r.states[k], i);
      if r.states[k - 1].children[i].phase == Revealed {
        j := RevealedAfterOpening(c, r, k - 1, i);
      } else {
        j := k - 1;
      }
    } else {
      assert false;
    }
  }

  /** Once the leader reveals its opening, its commitments never change. */
  lemma {:induction false} CommitmentsStay(c: Config, r: Run, k: nat)
    requires ValidConfig(c) && IsRun(c, r) && Inv(c, r.states[0]) && r.states[0].phase == Opening && k < |r.states|
    ensures r.states[k].leader.commitments == r.states[0].leader.commitments
    ensures !r.states[k].phase.Idle? && !r.states[k].phase.Committing?
  {
    hide Inv, Started, Announced, Collect, CollectOpenings, FirstCheck;
    if k > 0 {
      CommitmentsStay(c, r, k - 1);
      assert Step(c, r.states[k - 1], r.actions[k - 1], r.states[k]);
    }
  }

  /** The challenge is fixed before any opening is revealed: from the moment the leader reveals its
      opening, all runs that get to a challenge, whatever their messages and interleavings, get to
      the same challenge. Dishonest children can stop the protocol, but not steer it. */
  lemma ChallengeIsFixed(c: Config, r: Run, r': Run)
    requires ValidConfig(c) && IsRun(c, r) && IsRun(c, r')
    requires Inv(c, r.states[0]) && r.states[0] == r'.states[0] && r.states[0].phase == Opening
    requires r.states[|r.actions|].phase.Checking? && r'.states[|r'.actions|].phase.Checking?
    ensures r.states[|r.actions|].phase.check.cs == r'.states[|r'.actions|].phase.check.cs
    ensures r.states[|r.actions|].phase.check.openings == r'.states[|r'.actions|].phase.check.openings
  {
    var s, s' := r.states[|r.actions|], r'.states[|r'.actions|];
    RunInv(c, r, |r.actions|);
    RunInv(c, r', |r'.actions|);
    CommitmentsStay(c, r, |r.actions|);
    CommitmentsStay(c, r', |r'.actions|);
    CommitmentsFixChallenge(c.suite, s.phase.check.commits, s.phase.check.openings, s'.phase.check.openings);
  }
}

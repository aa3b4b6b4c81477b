/** What the final tag stands for when not everybody is honest: neither clients nor servers can make up a tag. */
module Soundness {
  import opened Zq
  import opened Suites
  import opened Permutations
  import opened Challenges
  import opened ClientProofs
  import opened ClientSide
  import opened ServerProofs
  import opened ServerSide
  import opened ServerRuns

  /** The context holds the commitments to these round secrets. */
  ghost predicate Committed(q: nat, c: Context, rs: seq<Scalar>)
    requires 0 < q
  {
    |rs| == |c.R| == |c.Y| > 0 && forall j :: 0 <= j < |rs| ==> c.R[j] == Mul(q, rs[j], BASE)
  }

  /** The last tag is the one that the servers' round secrets give to some client of the context. */
  ghost predicate TagOfSomeClient(q: nat, c: Context, rs: seq<Scalar>, tag: Point)
    requires 2 <= q
  {
    exists k :: 0 <= k < |c.H| && k < |c.X| && tag == Mul(q, Product(q, rs), c.H[k])
  }

  function LogIndexes(log: Log): (r: seq<int>)
    ensures |r| == |log| && forall i :: 0 <= i < |r| ==> r[i] == log[i].index
  {
    seq(|log|, i requires 0 <= i < |log| => log[i].index)
  }

  // ----- Accepted logs -----

  /** Scalars that give the same multiple of the base give the same multiples. */
  lemma SameMultiples(q: nat, r: Scalar, r': Scalar, p: Point)
    requires 0 < q && Mul(q, r, BASE) == Mul(q, r', BASE)
    ensures Mul(q, r, p) == Mul(q, r', p)
  {
    hide Mul;
    MulIsMod(q, r, BASE);
    MulIsMod(q, r', BASE);
    MulIsMod(q, r, p);
    MulIsMod(q, r', p);
    assert r * BASE == r && r' * BASE == r';
    ModMul(q, r, p);
    ModMul(q, r', p);
  }

  /** The secret behind a step's commitment is the round secret, whatever witness was extracted. */
  lemma StepOfCommitted(q: nat, st: Statement, r': Scalar, s': Scalar, r: Scalar)
    requires 0 < q && StepRelation(q, st, r', s') && st.R == Mul(q, r, BASE)
    ensures SoundStep(q, st, r)
  {
    hide Mul;
    SameMultiples(q, r, r', st.tPrev);
    ReduceScalar(q, s', st.sPrev);
    ReduceScalar(q, s', st.t);
    assert StepRelation(q, st, r, Reduce(q, s'));
  }

  ghost predicate RewoundTo(suite: Suite, st: Statement, p: ServerProof, hash': bytes -> nat, p': ServerProof)
    requires 0 < suite.q && p.r2.Some?
  {
    && VerifyServerProof(suite.(hash := hash'), st, p')
    && var t := Recompute(suite.q, st, p.c, p.r1, p.r2.value);
      t == Recompute(suite.q, st, p'.c, p'.r1, p'.r2.value)
      && suite.HashToScalar(ServerInput(suite, st, t)) != suite.(hash := hash').HashToScalar(ServerInput(suite, st, t))
  }

  /** The prover of entry i answers under another hash function too, which gives its commitments another
      challenge. This is what rewinding a successful prover yields. */
  ghost predicate Rewound(suite: Suite, c: Context, m: AuthenticationMessage, log: Log, i: nat)
    requires 0 < suite.q && i < |log| && Shaped(c, m) && 0 <= log[i].index < |c.Y| && log[i].proof.r2.Some?
  {
    exists hash': bytes -> nat, p': ServerProof ::
      RewoundTo(suite, StatementOf(c, m, TagBefore(m, log, i), log[i].tag, log[i].index), log[i].proof, hash', p')
  }

  /** All points that the statements of a log are about. */
  ghost predicate PointsBelow(q: nat, c: Context, m: AuthenticationMessage, log: Log) {
    AllBelow(q, c.R) && AllBelow(q, c.H) && AllBelow(q, m.initial.sCommits) && m.initial.t0 < q && AllBelow(q, Tags(log))
  }

  lemma StatementIsBelow(q: nat, c: Context, m: AuthenticationMessage, log: Log, i: nat)
    requires i < |log| && Shaped(c, m) && 0 <= log[i].index < |c.Y| && PointsBelow(q, c, m, log)
    ensures StatementBelow(q, StatementOf(c, m, TagBefore(m, log, i), log[i].tag, log[i].index))
  {
    assert Tags(log)[i] == log[i].tag && (i > 0 ==> Tags(log)[i - 1] == log[i - 1].tag);
  }

  /** An accepted entry whose prover can be rewound is a step by the server's round secret. */
  lemma AcceptedStep(suite: Suite, c: Context, m: AuthenticationMessage, log: Log, rs: seq<Scalar>, i: nat)
    requires suite.Valid() && LogAccepted(suite, c, m, log) && i < |log| && Committed(suite.q, c, rs)
    requires 0 <= log[i].index < |c.Y| && log[i].proof.r2.Some? && Rewound(suite, c, m, log, i)
    requires PointsBelow(suite.q, c, m, log)
    ensures SoundStep(suite.q, StatementOf(c, m, TagBefore(m, log, i), log[i].tag, log[i].index), rs[log[i].index])
  {
    hide Mul, VerifyServerProof, SoundStep, StepRelation, PointsBelow, SignaturesAcceptedUpTo, Recompute, ServerInput;
    var st := StatementOf(c, m, TagBefore(m, log, i), log[i].tag, log[i].index);
    ProofsAcceptedAt(suite, c, m, log, |log|, i);
    StatementIsBelow(suite.q, c, m, log, i);
    var hash', p' :| RewoundTo(suite, st, log[i].proof, hash', p');
    var r, s := AcceptedTwiceYieldsSecrets(suite, hash', st, log[i].proof, p');
    assert StepRelation(suite.q, st, r, s) && st.R == c.R[log[i].index];
    StepOfCommitted(suite.q, st, r, s, rs[log[i].index]);
  }

  /** What an accepted log of all servers stands for. If its request is accepted by a sound proof library, every
      server is in it once with a proof of its computation, whose prover can be rewound, and the chain of
      commitments does not end in null, then its last tag is the one that the committed round secrets give to
      some client of the context, whoever sent the request and whoever made up the log. */
  lemma AcceptedLogTag(suite: Suite, m: AuthenticationMessage, log: Log, rs: seq<Scalar>)
    requires suite.Valid() && PkSound(suite) && RequestAccepted(suite, m)
    requires LogAccepted(suite, m.context, m, log) && Committed(suite.q, m.context, rs)
    requires IsPermutation(LogIndexes(log), |m.context.Y|)
    requires forall i :: 0 <= i < |log| ==> log[i].proof.r2.Some? && Rewound(suite, m.context, m, log, i)
    requires PointsBelow(suite.q, m.context, m, log) && m.initial.sCommits[|m.context.Y| + 1] != NULL
    ensures TagOfSomeClient(suite.q, m.context, rs, log[|log| - 1].tag)
  {
    hide Mul, LogAccepted, PkSound, Rewound, SoundStep, RequestAccepted, PKClient, Product;
    var q, c, js, tags := suite.q, m.context, LogIndexes(log), Tags(log);
    AcceptedRequestMeans(suite, m);
    forall i | 0 <= i < |js|
      ensures SoundStep(q, StatementOf(c, m, PreviousTag(m, tags, i), tags[i], js[i]), rs[js[i]])
    {
      assert js[i] == log[i].index && tags[i] == log[i].tag && PreviousTag(m, tags, i) == TagBefore(m, log, i);
      AcceptedStep(suite, c, m, log, rs, i);
    }
    VerifiedTranscriptTag(q, c, m, js, tags, rs);
  }

  // ----- Honest servers and any client -----

  /** An honest server that finds the client well-behaved makes a step by its round secret. */
  lemma ContentStep(suite: Suite, m: AuthenticationMessage, ring: seq<Identity>, coins: seq<Coins>, i: nat)
    requires suite.Valid() && HonestRing(suite, m.context, ring) && Runnable(suite, m, ring, coins)
    requires Run(suite, m, ring, coins).Some? && i < |ring| && Content(suite, m, ring[i]) && m.initial.t0 < suite.q
    ensures
      var tags := Tags(Run(suite, m, ring, coins).value);
      && tags[i] < suite.q
      && SoundStep(suite.q, StatementOf(m.context, m, PreviousTag(m, tags, i), tags[i], ring[i].index), ring[i].roundSecret)
  {
    hide Mul, NextProof, StepAccepted, Content, NextTag, EntryBytes, StepRelation;
    var log := Run(suite, m, ring, coins).value;
    assert HonestServer(suite, m.context, ring[i]);
    RunPrefix(suite, m, ring, coins, i);
    if i > 0 {
      RunPrefix(suite, m, ring, coins, i - 1);
    }
    HonestStepRelation(suite, m, ring[i], TagBefore(m, log[..i], i));
    assert PreviousTag(m, Tags(log), i) == TagBefore(m, log[..i], i);
  }

  /** A prover that knows the secrets can be rewound: there is a hash function under which it answers the same
      commitments with another challenge. */
  lemma ProverCanBeRewound(suite: Suite, st: Statement, r: Scalar, s: Scalar, v1: Scalar, v2: Scalar)
    requires suite.Valid() && StepRelation(suite.q, st, r, s)
    ensures exists hash', p' :: RewoundTo(suite, st, GenerateServerProof(suite, st, r, s, v1, v2), hash', p')
  {
    hide Mul, ServerInput, StepRelation, VerifyServerProof, Suite.Valid;
    IsPrime(suite);
    var p := GenerateServerProof(suite, st, r, s, v1, v2);
    RecomputedIsCommitted(suite.q, st, r, s, v1, v2, p.c);
    var other := if p.c == 0 then 1 else 0;
    var hash' := (data: bytes) => other;
    var suite' := suite.(hash := hash');
    Small(suite.q, other);
    ReduceIsMod(suite.q, other);
    var p' := GenerateServerProof(suite', st, r, s, v1, v2);
    RecomputedIsCommitted(suite.q, st, r, s, v1, v2, p'.c);
    ServerProofCompleteness(suite', st, r, s, v1, v2);
    assert RewoundTo(suite, st, p, hash', p');
  }

  lemma NextIsRewound(suite: Suite, m: AuthenticationMessage, log: Log, server: Identity, coins: Coins)
    requires suite.Valid() && Shaped(m.context, m) && HonestServer(suite, m.context, server)
    requires Content(suite, m, server) && TagBefore(m, log, |log|) < suite.q
    ensures
      var e := NextEntry(suite, m, log, server, coins);
      && e.index == server.index && e.proof.r2.Some?
      && exists hash', p' ::
        RewoundTo(suite, StatementOf(m.context, m, TagBefore(m, log, |log|), e.tag, server.index), e.proof, hash', p')
  {
    hide Mul, NextTag, EntryBytes, LogBytes, StepRelation, RewoundTo, GenerateServerProof, ServerSecret, Suite.Valid;
    var tPrev := TagBefore(m, log, |log|);
    HonestStepRelation(suite, m, server, tPrev);
    var st := StatementOf(m.context, m, tPrev, NextTag(suite, m, server, tPrev), server.index);
    ProverCanBeRewound(suite, st, server.roundSecret, ServerSecret(suite, m, server), coins.v1, coins.v2);
  }

  /** What is asked of the provers of an accepted log is true of honest servers. */
  lemma HonestIsRewound(suite: Suite, m: AuthenticationMessage, ring: seq<Identity>, coins: seq<Coins>, i: nat)
    requires suite.Valid() && HonestRing(suite, m.context, ring) && Runnable(suite, m, ring, coins)
    requires Run(suite, m, ring, coins).Some? && i < |ring| && Content(suite, m, ring[i]) && m.initial.t0 < suite.q
    ensures
      var log := Run(suite, m, ring, coins).value;
      && log[i].index == ring[i].index && log[i].proof.r2.Some?
      && Rewound(suite, m.context, m, log, i)
  {
    hide Mul, StepAccepted, Content, NextTag, NextProof, EntryBytes, LogBytes, RewoundTo, HonestServer, Suite.Valid, Run;
    var log := Run(suite, m, ring, coins).value;
    assert HonestServer(suite, m.context, ring[i]);
    RunPrefix(suite, m, ring, coins, i);
    if i > 0 {
      RunPrefix(suite, m, ring, coins, i - 1);
    }
    NextIsRewound(suite, m, log[..i], ring[i], coins[i]);
    assert TagBefore(m, log, i) == TagBefore(m, log[..i], i);
  }

  /** A client that all servers find well-behaved has a chain that does not end in null. */
  lemma ContentChain(suite: Suite, m: AuthenticationMessage, ring: seq<Identity>)
    requires suite.Valid() && Shaped(m.context, m) && m.initial.sCommits[1] == BASE
    requires IsPermutation(Indexes(ring), |m.context.Y|)
    requires forall i :: 0 <= i < |ring| ==> Content(suite, m, ring[i])
    ensures m.initial.sCommits[|m.context.Y| + 1] != NULL
  {
    hide Mul, ServerSecret;
    var q, n := suite.q, |m.context.Y|;
    var ss := seq(n, j requires 0 <= j < n => ServerSecret(suite, m, ring[PositionOf(Indexes(ring), n, j)]));
    forall j | 0 <= j < n
      ensures 0 < ss[j] < q && ChainHolds(q, m, ss, j)
    {
      assert Content(suite, m, ring[PositionOf(Indexes(ring), n, j)]);
    }
    ChainEnds(q, m.context, m, ss, n);
    assert ss[..n] == ss;
    ProductNonZero(q, ss);
    MulOne(q, Product(q, ss));
  }

  lemma HonestPointsBelow(suite: Suite, m: AuthenticationMessage, ring: seq<Identity>, coins: seq<Coins>, z: Scalar, h: Point)
    requires suite.Valid() && HonestRing(suite, m.context, ring) && Runnable(suite, m, ring, coins)
    requires IsPermutation(Indexes(ring), |m.context.Y|) && AllBelow(suite.q, m.context.H)
    requires HonestClient(suite, m, z, h) && Run(suite, m, ring, coins).Some?
    requires forall i :: 0 <= i < |ring| ==> Content(suite, m, ring[i])
    ensures PointsBelow(suite.q, m.context, m, Run(suite, m, ring, coins).value)
  {
    hide Mul, Content, SoundStep, Run;
    var q, c, log := suite.q, m.context, Run(suite, m, ring, coins).value;
    forall i | 0 <= i < |log|
      ensures Tags(log)[i] < q
    {
      ContentStep(suite, m, ring, coins, i);
    }
    forall j | 0 <= j < |c.R|
      ensures c.R[j] < q
    {
      assert HonestServer(suite, c, ring[PositionOf(Indexes(ring), |c.Y|, j)]);
    }
    forall k | 0 <= k < |m.initial.sCommits|
      ensures m.initial.sCommits[k] < q
    {
      assert k > 0 ==> m.initial.sCommits[k] == ChainPoint(q, SharedSecrets(suite, z, c.Y), k);
    }
  }

  /** Honest logs are among those that the theorem about accepted logs is about. */
  lemma HonestLogIsCovered(
    suite: Suite, m: AuthenticationMessage, ring: seq<Identity>, coins: seq<Coins>, rs: seq<Scalar>, z: Scalar, h: Point)
    requires suite.Valid() && RequestAccepted(suite, m) && h < suite.q && AllBelow(suite.q, m.context.H)
    requires HonestRing(suite, m.context, ring) && Runnable(suite, m, ring, coins)
    requires |m.context.Y| > 0 && IsPermutation(Indexes(ring), |m.context.Y|)
    requires |rs| == |m.context.Y| && forall i :: 0 <= i < |ring| ==> rs[ring[i].index] == ring[i].roundSecret
    requires HonestClient(suite, m, z, h)
    ensures Run(suite, m, ring, coins).Some?
    ensures
      var log := Run(suite, m, ring, coins).value;
      && LogAccepted(suite, m.context, m, log) && Committed(suite.q, m.context, rs)
      && IsPermutation(LogIndexes(log), |m.context.Y|)
      && (forall i :: 0 <= i < |log| ==> log[i].proof.r2.Some? && Rewound(suite, m.context, m, log, i))
      && PointsBelow(suite.q, m.context, m, log) && m.initial.sCommits[|m.context.Y| + 1] != NULL
  {
    hide Mul, LogAccepted, RequestAccepted, HonestClient, Run, Content, Rewound, PointsBelow, Product, Suite.Valid;
    HonestRunTag(suite, m, ring, coins, rs, z, h);
    HonestEnds(suite, m, z, h);
    forall i | 0 <= i < |ring|
      ensures Content(suite, m, ring[i])
    {
      assert HonestServer(suite, m.context, ring[i]);
      HonestClientContents(suite, m, z, h, ring[i]);
    }
    HonestPointsBelow(suite, m, ring, coins, z, h);
    ContentChain(suite, m, ring);
    var log := Run(suite, m, ring, coins).value;
    forall i | 0 <= i < |log|
      ensures log[i].index == ring[i].index && log[i].proof.r2.Some? && Rewound(suite, m.context, m, log, i)
    {
      HonestIsRewound(suite, m, ring, coins, i);
    }
    assert LogIndexes(log) == Indexes(ring);
    forall j | 0 <= j < |rs|
      ensures m.context.R[j] == Mul(suite.q, rs[j], BASE)
    {
      assert HonestServer(suite, m.context, ring[PositionOf(Indexes(ring), |m.context.Y|, j)]);
    }
  }

  lemma ContentRunIsVerified(suite: Suite, m: AuthenticationMessage, ring: seq<Identity>, coins: seq<Coins>, rs: seq<Scalar>)
    requires suite.Valid() && HonestRing(suite, m.context, ring) && Runnable(suite, m, ring, coins) && ring != []
    requires IsPermutation(Indexes(ring), |m.context.Y|)
    requires |rs| == |m.context.Y| && forall i :: 0 <= i < |ring| ==> rs[ring[i].index] == ring[i].roundSecret
    requires forall i :: 0 <= i < |ring| ==> Content(suite, m, ring[i])
    requires Run(suite, m, ring, coins).Some? && m.initial.sCommits[1] == BASE && m.initial.t0 < suite.q
    ensures VerifiedTranscript(suite.q, m.context, m, Indexes(ring), Tags(Run(suite, m, ring, coins).value), rs)
  {
    hide Mul, Content, SoundStep, Run;
    var q, c, js, tags := suite.q, m.context, Indexes(ring), Tags(Run(suite, m, ring, coins).value);
    ContentChain(suite, m, ring);
    forall i | 0 <= i < |js|
      ensures tags[i] < q && SoundStep(q, StatementOf(c, m, PreviousTag(m, tags, i), tags[i], js[i]), rs[js[i]])
    {
      ContentStep(suite, m, ring, coins, i);
    }
    forall j | 0 <= j < |rs|
      ensures c.R[j] == Mul(q, rs[j], BASE)
    {
      assert HonestServer(suite, c, ring[PositionOf(js, |c.Y|, j)]);
    }
  }

  /** Neither can a dishonest client make up a tag. Whatever request it sends, when the proof library is sound,
      the servers are honest, and all of them find it well-behaved, the run gets through exactly when the
      request is accepted, and then the last tag is that of some client of the context. */
  lemma AdmittedClientTag(
    suite: Suite, m: AuthenticationMessage, ring: seq<Identity>, coins: seq<Coins>, rs: seq<Scalar>)
    requires suite.Valid() && PkSound(suite) && AllBelow(suite.q, m.context.H)
    requires HonestRing(suite, m.context, ring) && Runnable(suite, m, ring, coins) && ring != []
    requires IsPermutation(Indexes(ring), |m.context.Y|)
    requires |rs| == |m.context.Y| && forall i :: 0 <= i < |ring| ==> rs[ring[i].index] == ring[i].roundSecret
    requires forall i :: 0 <= i < |ring| ==> Content(suite, m, ring[i])
    ensures Run(suite, m, ring, coins).Some? <==> RequestAccepted(suite, m)
    ensures Run(suite, m, ring, coins).Some? ==>
      var log := Run(suite, m, ring, coins).value;
      TagOfSomeClient(suite.q, m.context, rs, log[|log| - 1].tag)
  {
    hide Run, RequestAccepted, HonestRing, Content, PkSound, VerifiedTranscript, LogAccepted, Mul, Product, Suite.Valid;
    if Run(suite, m, ring, coins).Some? {
      RunWasChecked(suite, m, ring, coins, 0);
    }
    if RequestAccepted(suite, m) {
      AcceptedRequestMeans(suite, m);
      HonestRunSucceeds(suite, m, ring, coins);
      ContentRunIsVerified(suite, m, ring, coins, rs);
      IsPrime(suite);
      VerifiedTranscriptTag(suite.q, m.context, m, Indexes(ring), Tags(Run(suite, m, ring, coins).value), rs);
    }
  }
}

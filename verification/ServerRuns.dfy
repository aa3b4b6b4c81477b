/** Whole runs of the servers' protocol: what fixes the final tag, that honest runs succeed, that
    authentications of one client are linked, and when the tag is null. */
module ServerRuns {
  import opened Zq
  import opened Suites
  import opened Encoding
  import opened Permutations
  import opened Challenges
  import opened ClientProofs
  import opened ClientSide
  import opened ServerProofs
  import opened ServerSide

  // ----- The final tag of a verified transcript -----

  function PreviousTag(m: AuthenticationMessage, tags: seq<Point>, i: nat): Point
    requires i <= |tags|
  {
    if i == 0 then m.initial.t0 else tags[i - 1]
  }

  /** Position i of a transcript: the server with index js[i] raised the tag to r/s, where r opens
      its commitment and s is its step of the client's chain. */
  ghost predicate StepAt(
    q: nat, c: Context, m: AuthenticationMessage, js: seq<int>, tags: seq<Point>, rs: seq<Scalar>, ss: seq<Scalar>, i: nat)
    requires 0 < q && Shaped(c, m) && |rs| == |ss| == |c.Y|
    requires i < |js| <= |tags| && 0 <= js[i] < |c.Y|
  {
    var j := js[i];
    StepRelation(q, StatementOf(c, m, PreviousTag(m, tags, i), tags[i], j), rs[j], ss[j])
  }

  ghost predicate AllSteps(
    q: nat, c: Context, m: AuthenticationMessage, js: seq<int>, tags: seq<Point>, rs: seq<Scalar>, ss: seq<Scalar>)
    requires 0 < q && Shaped(c, m) && |rs| == |ss| == |c.Y|
  {
    && |js| == |tags| && InRange(js, |c.Y|)
    && forall i :: 0 <= i < |js| ==> StepAt(q, c, m, js, tags, rs, ss, i)
  }

  /** After k positions, the first k round secrets on T0 balance the first k client secrets on the tag. */
  lemma {:induction false} TagBalance(
    q: nat, c: Context, m: AuthenticationMessage, js: seq<int>, tags: seq<Point>, rs: seq<Scalar>, ss: seq<Scalar>, k: nat)
    requires 2 <= q && Shaped(c, m) && |rs| == |ss| == |c.Y|
    requires AllSteps(q, c, m, js, tags, rs, ss) && k <= |js| && m.initial.t0 < q
    ensures
      Mul(q, Product(q, Select(rs, js[..k])), m.initial.t0) == Mul(q, Product(q, Select(ss, js[..k])), PreviousTag(m, tags, k))
  {
    if k > 0 {
      hide Mul;
      var i := k - 1;
      var r, s := rs[js[i]], ss[js[i]];
      var pr, ps := Product(q, Select(rs, js[..i])), Product(q, Select(ss, js[..i]));
      var before, after, t0 := PreviousTag(m, tags, i), tags[i], m.initial.t0;
      TagBalance(q, c, m, js, tags, rs, ss, i);
      assert StepAt(q, c, m, js, tags, rs, ss, i);
      assert Select(rs, js[..k]) == Select(rs, js[..i]) + [r];
      assert Select(ss, js[..k]) == Select(ss, js[..i]) + [s];
      ProductSnoc(q, Select(rs, js[..i]), r);
      ProductSnoc(q, Select(ss, js[..i]), s);
      calc {
        Mul(q, Mul(q, pr, r), t0);
      == { MulComm(q, pr, r); MulAssoc(q, r, pr, t0); }
        Mul(q, r, Mul(q, pr, t0));
      ==
        Mul(q, r, Mul(q, ps, before));
      == { MulSwap(q, r, ps, before); }
        Mul(q, ps, Mul(q, r, before));
      ==
        Mul(q, ps, Mul(q, s, after));
      == { MulAssoc(q, ps, s, after); }
        Mul(q, Mul(q, ps, s), after);
      }
    } else {
      assert Select(rs, js[..0]) == [] && Select(ss, js[..0]) == [];
    }
  }

  ghost predicate ChainHolds(q: nat, m: AuthenticationMessage, ss: seq<Scalar>, j: nat)
    requires 0 < q && j < |ss| && |m.initial.sCommits| == |ss| + 2
  {
    m.initial.sCommits[j + 2] == Mul(q, ss[j], m.initial.sCommits[j + 1])
  }

  /** The chain of commitments ends in the product of the secrets behind its steps. */
  lemma {:induction false} ChainEnds(q: nat, c: Context, m: AuthenticationMessage, ss: seq<Scalar>, k: nat)
    requires 2 <= q && Shaped(c, m) && |ss| == |c.Y| && k <= |ss|
    requires m.initial.sCommits[1] == BASE
    requires forall j :: 0 <= j < |ss| ==> ChainHolds(q, m, ss, j)
    ensures m.initial.sCommits[k + 1] == ChainPoint(q, ss, k + 1)
  {
    if k == 0 {
      ChainStarts(q, ss);
    } else {
      ChainEnds(q, c, m, ss, k - 1);
      ChainStep(q, ss, k);
      assert ChainHolds(q, m, ss, k - 1);
    }
  }

  /** A verified transcript fixes the tag. If all servers took part once, in whatever order, every
      position satisfies the relation behind its proof, and the client's T0 and last commitment, which
      is not null, have the same logarithm to h and to the base, then the last tag is the product of the round
      secrets applied to h. Nothing else of the run is left in it. */
  lemma TranscriptFixesTag(
    q: nat, c: Context, m: AuthenticationMessage, js: seq<int>, tags: seq<Point>, rs: seq<Scalar>, ss: seq<Scalar>,
    s: Scalar, h: Point)
    requires Prime(q) && Shaped(c, m) && |rs| == |ss| == |c.Y| > 0
    requires IsPermutation(js, |c.Y|) && AllSteps(q, c, m, js, tags, rs, ss)
    requires AllBelow(q, ss) && AllBelow(q, tags) && s < q && h < q
    requires m.initial.sCommits[1] == BASE && m.initial.sCommits[|c.Y| + 1] != NULL
    requires m.initial.t0 == Mul(q, s, h) && m.initial.sCommits[|c.Y| + 1] == Mul(q, s, BASE)
    ensures tags[|tags| - 1] == Mul(q, Product(q, rs), h)
  {
    hide Mul;
    var n := |c.Y|;
    forall j | 0 <= j < n
      ensures ChainHolds(q, m, ss, j)
    {
      PermutationCovers(js, n, j);
      var i :| 0 <= i < |js| && js[i] == j;
      assert StepAt(q, c, m, js, tags, rs, ss, i);
    }
    ChainEnds(q, c, m, ss, n);
    assert ss[..n] == ss;
    MulOne(q, s);
    MulOne(q, Product(q, ss));
    assert s == Product(q, ss);

    TagBalance(q, c, m, js, tags, rs, ss, n);
    assert js[..n] == js;
    SelectPermutes(rs, js);
    SelectPermutes(ss, js);
    ProductOfPermutation(q, Select(rs, js), rs);
    ProductOfPermutation(q, Select(ss, js), ss);
    var r, t := Product(q, rs), tags[n - 1];
    MulSwap(q, r, s, h);
    MulCancel(q, s, Mul(q, r, h), t);
  }

  /** What an accepted server proof stands for, given the round secret behind the commitment. */
  ghost predicate SoundStep(q: nat, st: Statement, r: Scalar)
    requires 0 < q
  {
    exists s: Scalar :: s < q && StepRelation(q, st, r, s)
  }

  ghost function StepSecret(q: nat, st: Statement, r: Scalar): (s: Scalar)
    requires 0 < q && SoundStep(q, st, r)
    ensures s < q && StepRelation(q, st, r, s)
  {
    var s: Scalar :| s < q && StepRelation(q, st, r, s);
    s
  }

  ghost function PositionOf(js: seq<int>, n: nat, j: nat): (i: nat)
    requires IsPermutation(js, n) && j < n
    ensures i < |js| && js[i] == j
  {
    PermutationCovers(js, n, j);
    var i: nat :| i < |js| && js[i] == j;
    i
  }

  ghost predicate VerifiedTranscript(
    q: nat, c: Context, m: AuthenticationMessage, js: seq<int>, tags: seq<Point>, rs: seq<Scalar>)
    requires 0 < q
  {
    && Shaped(c, m) && |rs| == |c.Y| > 0 && IsPermutation(js, |c.Y|) && |tags| == |js|
    && m.initial.sCommits[1] == BASE && m.initial.sCommits[|c.Y| + 1] != NULL && AllBelow(q, tags)
    && (forall j :: 0 <= j < |rs| ==> c.R[j] == Mul(q, rs[j], BASE))
    && (forall i :: 0 <= i < |js| ==> SoundStep(q, StatementOf(c, m, PreviousTag(m, tags, i), tags[i], js[i]), rs[js[i]]))
  }

  /** Multiplying by a scalar only depends on its residue. */
  lemma ReduceScalar(q: nat, s: Scalar, h: Point)
    requires 0 < q
    ensures Mul(q, Reduce(q, s), h) == Mul(q, s, h) && Mul(q, Reduce(q, s), BASE) == Mul(q, s, BASE)
  {
    ReduceIsMod(q, s);
    MulIsMod(q, s, h);
    MulIsMod(q, s % q, h);
    ModMul(q, s, h);
    MulIsMod(q, s, BASE);
    MulIsMod(q, s % q, BASE);
    ModMul(q, s, BASE);
  }

  /** The same for what the verified proofs say, without naming their witnesses: when the servers'
      relations and PKclient hold and the chain of commitments does not end in null, the final tag is that of one of the context's clients. */
  lemma VerifiedTranscriptTag(
    q: nat, c: Context, m: AuthenticationMessage, js: seq<int>, tags: seq<Point>, rs: seq<Scalar>)
    requires Prime(q) && VerifiedTranscript(q, c, m, js, tags, rs)
    requires AllBelow(q, c.H) && PKClient(q, c, m.initial)
    ensures exists k :: 0 <= k < |c.H| && k < |c.X| && tags[|tags| - 1] == Mul(q, Product(q, rs), c.H[k])
  {
    hide StepRelation, Mul;
    var n := |c.Y|;
    var ss := seq(n, j requires 0 <= j < n =>
      var i := PositionOf(js, n, j);
      StepSecret(q, StatementOf(c, m, PreviousTag(m, tags, i), tags[i], js[i]), rs[js[i]]));
    forall i | 0 <= i < |js|
      ensures StepAt(q, c, m, js, tags, rs, ss, i)
    {
      assert PositionOf(js, n, js[i]) == i;
    }
    var k: nat, s: Scalar, x: Scalar :| PKClientFor(q, c, m.initial, k, s, x);
    ReduceScalar(q, s, c.H[k]);
    TranscriptFixesTag(q, c, m, js, tags, rs, ss, Reduce(q, s), c.H[k]);
  }

  // ----- Runs -----

  /** The log after the servers of a ring took their turns one after the other, if all of them accept. */
  function Run(suite: Suite, m: AuthenticationMessage, ring: seq<Identity>, coins: seq<Coins>): (r: Option<Log>)
    requires 0 < suite.q && |ring| == |coins|
    requires Shaped(m.context, m) && forall i :: 0 <= i < |ring| ==> ring[i].index < |m.context.Y|
    ensures r.Some? ==> |r.value| == |ring|
  {
    if ring == [] then Some([])
    else
      var n := |ring| - 1;
      var before := Run(suite, m, ring[..n], coins[..n]);
      if before.Some? && StepAccepted(suite, m, before.value)
      then Some(before.value + [NextEntry(suite, m, before.value, ring[n], coins[n])])
      else None
  }

  predicate Runnable(suite: Suite, m: AuthenticationMessage, ring: seq<Identity>, coins: seq<Coins>) {
    && 0 < suite.q && |ring| == |coins| && Shaped(m.context, m)
    && forall i :: 0 <= i < |ring| ==> ring[i].index < |m.context.Y|
  }

  /** A run's entries name the servers of the ring. */
  lemma {:induction false} RunIndexes(suite: Suite, m: AuthenticationMessage, ring: seq<Identity>, coins: seq<Coins>)
    requires Runnable(suite, m, ring, coins) && Run(suite, m, ring, coins).Some?
    ensures forall i :: 0 <= i < |ring| ==> Run(suite, m, ring, coins).value[i].index == ring[i].index
  {
    hide StepAccepted, NextTag, NextProof, LogBytes;
    if ring != [] {
      var n := |ring| - 1;
      RunIndexes(suite, m, ring[..n], coins[..n]);
    }
  }

  /** A run passes through the runs of its prefixes: earlier entries never change. */
  lemma {:induction false} RunPrefix(suite: Suite, m: AuthenticationMessage, ring: seq<Identity>, coins: seq<Coins>, k: nat)
    requires Runnable(suite, m, ring, coins) && k <= |ring|
    requires Run(suite, m, ring, coins).Some?
    ensures Run(suite, m, ring[..k], coins[..k]) == Some(Run(suite, m, ring, coins).value[..k])
    ensures k < |ring| ==>
      var log := Run(suite, m, ring, coins).value[..k];
      StepAccepted(suite, m, log) && Run(suite, m, ring, coins).value[k] == NextEntry(suite, m, log, ring[k], coins[k])
    decreases |ring|
  {
    hide StepAccepted, NextEntry;
    var n := |ring| - 1;
    var log := Run(suite, m, ring, coins).value;
    if k == |ring| {
      assert ring[..k] == ring && coins[..k] == coins && log[..k] == log;
    } else {
      assert ring[..n][..k] == ring[..k] && coins[..n][..k] == coins[..k] && log[..n][..k] == log[..k];
      assert Run(suite, m, ring[..n], coins[..n]) == Some(log[..n]);
      RunPrefix(suite, m, ring[..n], coins[..n], k);
    }
  }

  /** Every server of a run has checked what came before it: the request with the client's proof, the number
      of calls, and all earlier signatures and proofs. */
  lemma RunWasChecked(suite: Suite, m: AuthenticationMessage, ring: seq<Identity>, coins: seq<Coins>, k: nat)
    requires Runnable(suite, m, ring, coins) && Run(suite, m, ring, coins).Some? && k < |ring|
    ensures RequestAccepted(suite, m) && k < |m.context.Y|
    ensures LogAccepted(suite, m.context, m, Run(suite, m, ring, coins).value[..k])
  {
    hide RequestAccepted, LogAccepted, NextEntry;
    RunPrefix(suite, m, ring, coins, k);
  }

  /** No server works for a client that proved nothing: when the proof library is sound, some client satisfies
      PKclient as soon as one call has succeeded. */
  lemma RunAdmitsClient(suite: Suite, m: AuthenticationMessage, ring: seq<Identity>, coins: seq<Coins>)
    requires Runnable(suite, m, ring, coins) && Run(suite, m, ring, coins).Some? && ring != []
    requires PkSound(suite)
    ensures |ring| <= |m.context.Y| && |m.context.X| >= 2 && m.initial.sCommits[1] == BASE
    ensures PKClient(suite.q, m.context, m.initial)
  {
    hide Run, PKClient, PkSound;
    RunWasChecked(suite, m, ring, coins, |ring| - 1);
    AcceptedRequestMeans(suite, m);
  }

  lemma {:induction false} LogBytesPrefix(suite: Suite, m: AuthenticationMessage, log: Log, k: nat, n: nat)
    requires n <= k <= |log|
    ensures LogBytes(suite, m, log[..k], n) == LogBytes(suite, m, log, n)
  {
    hide EntryBytes;
    if n > 0 {
      LogBytesPrefix(suite, m, log, k, n - 1);
    }
  }

  /** Agreement on what was signed: in the log of any run, entry i names the i-th server of the ring
      and carries that server's signature on exactly the bytes that every later server, and whoever
      extracts the final tag, rebuilds for it. */
  lemma SignedLogAgreement(suite: Suite, m: AuthenticationMessage, ring: seq<Identity>, coins: seq<Coins>, i: nat)
    requires Runnable(suite, m, ring, coins) && i < |ring|
    requires Run(suite, m, ring, coins).Some?
    ensures
      var log := Run(suite, m, ring, coins).value;
      && log[i].index == log[i].sig.index == ring[i].index
      && log[i].sig.sig == suite.sign(ring[i].privateKey, LogBytes(suite, m, log, i + 1), coins[i].nonce)
  {
    hide EntryBytes, NextTag, NextProof, StepAccepted;
    var log := Run(suite, m, ring, coins).value;
    RunPrefix(suite, m, ring, coins, i);
    LogBytesPrefix(suite, m, log, i, i);
  }

  // ----- Honest runs -----

  ghost predicate HonestServer(suite: Suite, c: Context, server: Identity)
    requires 0 < suite.q && |c.R| == |c.Y|
  {
    && server.index < |c.Y|
    && c.Y[server.index] == server.PublicKey(suite.q)
    && c.R[server.index] == Mul(suite.q, server.roundSecret, BASE)
  }

  /** Every server's identity matches its entries in the context. */
  ghost predicate HonestRing(suite: Suite, c: Context, ring: seq<Identity>)
    requires 0 < suite.q
  {
    && |c.R| == |c.Y|
    && forall i :: 0 <= i < |ring| ==> HonestServer(suite, c, ring[i])
  }

  /** The server found the client well-behaved and shares a non-zero secret with it. */
  ghost predicate Content(suite: Suite, m: AuthenticationMessage, server: Identity)
    requires 0 < suite.q && server.index + 2 < |m.initial.sCommits|
  {
    Behaves(suite, m, server) && ServerSecret(suite, m, server) != 0
  }

  /** An honest step satisfies the relation its proof is about. */
  lemma HonestStepRelation(suite: Suite, m: AuthenticationMessage, server: Identity, tPrev: Point)
    requires suite.Valid() && Shaped(m.context, m) && HonestServer(suite, m.context, server)
    requires Content(suite, m, server) && tPrev < suite.q
    ensures
      StepRelation(suite.q, StatementOf(m.context, m, tPrev, NextTag(suite, m, server, tPrev), server.index),
        server.roundSecret, ServerSecret(suite, m, server))
  {
    hide Mul, Inv;
    var q, r, s := suite.q, server.roundSecret, ServerSecret(suite, m, server);
    MulComm(q, r, Inv(q, s));
    MulAssoc(q, Inv(q, s), r, tPrev);
    InvCancels(q, s, Mul(q, r, tPrev));
  }

  /** The server's complaint about the client passes the check at a position of the log. */
  predicate ComplaintAccepted(suite: Suite, m: AuthenticationMessage, server: Identity, coins: Coins, i: nat)
    requires 0 < suite.q && Shaped(m.context, m) && i < |m.context.Y|
  {
    var Z := m.initial.sCommits[0];
    VerifyMisbehavingProof(suite, m.context.Y[i], GenerateMisbehavingProof(suite, Z, server, coins.v), Z)
  }

  lemma NextInRange(suite: Suite, m: AuthenticationMessage, log: Log, server: Identity, coins: Coins)
    requires 0 < suite.q && Shaped(m.context, m) && server.index < |m.context.Y|
    requires |log| < |m.context.Y| && LogInRange(m.context, log)
    ensures LogInRange(m.context, log + [NextEntry(suite, m, log, server, coins)])
  {
    hide NextTag, NextProof, LogBytes, EntryBytes;
  }

  lemma NextSignatureAccepted(suite: Suite, m: AuthenticationMessage, log: Log, server: Identity, coins: Coins)
    requires suite.Valid() && Shaped(m.context, m) && HonestServer(suite, m.context, server)
    ensures SignatureAccepted(suite, m.context, m, log + [NextEntry(suite, m, log, server, coins)], |log|)
  {
    hide NextTag, NextProof, ServerProofBytes, RequestBytes, Mul;
    var next := log + [NextEntry(suite, m, log, server, coins)];
    LogBytesPrefix(suite, m, next, |log|, |log|);
    assert next[..|log|] == log;
    assert |Itoa(server.index)| > 0;
  }

  lemma NextProofVerifies(suite: Suite, m: AuthenticationMessage, tPrev: Point, server: Identity, coins: Coins)
    requires suite.Valid() && Shaped(m.context, m) && HonestServer(suite, m.context, server)
    requires Content(suite, m, server) && tPrev < suite.q
    ensures
      var p := NextProof(suite, m, server, tPrev, coins);
      p.r2.Some? && VerifyServerProof(suite, StatementOf(m.context, m, tPrev, NextTag(suite, m, server, tPrev), server.index), p)
  {
    hide NextTag, Mul, GenerateServerProof, VerifyServerProof, StepRelation, ServerSecret, Suite.Valid;
    HonestStepRelation(suite, m, server, tPrev);
    var st := StatementOf(m.context, m, tPrev, NextTag(suite, m, server, tPrev), server.index);
    ServerProofCompleteness(suite, st, server.roundSecret, ServerSecret(suite, m, server), coins.v1, coins.v2);
  }

  lemma NextProofAccepted(suite: Suite, m: AuthenticationMessage, log: Log, server: Identity, coins: Coins)
    requires suite.Valid() && Shaped(m.context, m) && HonestServer(suite, m.context, server)
    requires LogInRange(m.context, log + [NextEntry(suite, m, log, server, coins)])
    requires Content(suite, m, server) && TagBefore(m, log, |log|) < suite.q
    ensures ProofAccepted(suite, m.context, m, log + [NextEntry(suite, m, log, server, coins)], |log|)
  {
    hide NextTag, NextProof, EntryBytes, LogBytes, Mul, VerifyServerProof, Content, HonestServer, Suite.Valid;
    NextProofVerifies(suite, m, TagBefore(m, log, |log|), server, coins);
  }

  lemma NextComplaintAccepted(suite: Suite, m: AuthenticationMessage, log: Log, server: Identity, coins: Coins)
    requires 0 < suite.q && Shaped(m.context, m) && server.index < |m.context.Y| && |log| < |m.context.Y|
    requires LogInRange(m.context, log + [NextEntry(suite, m, log, server, coins)])
    requires !Behaves(suite, m, server)
    ensures ProofAccepted(suite, m.context, m, log + [NextEntry(suite, m, log, server, coins)], |log|)
      <==> ComplaintAccepted(suite, m, server, coins, |log|)
  {
    hide NextTag, EntryBytes, LogBytes, VerifyMisbehavingProof, GenerateMisbehavingProof, Mul;
  }

  /** What was accepted in a log stays accepted when the log grows. */
  lemma {:induction false} AcceptedPrefix(suite: Suite, c: Context, m: AuthenticationMessage, log: Log, longer: Log, n: nat)
    requires 0 < suite.q && Shaped(c, m) && n <= |log| <= |longer| && longer[..|log|] == log
    requires LogInRange(c, longer) && LogInRange(c, log)
    ensures SignaturesAcceptedUpTo(suite, c, m, longer, n) == SignaturesAcceptedUpTo(suite, c, m, log, n)
    ensures ProofsAcceptedUpTo(suite, c, m, longer, n) == ProofsAcceptedUpTo(suite, c, m, log, n)
  {
    hide VerifyServerProof, VerifyMisbehavingProof, EntryBytes, RequestBytes;
    if n > 0 {
      AcceptedPrefix(suite, c, m, log, longer, n - 1);
      LogBytesPrefix(suite, m, longer, |log|, n);
      assert longer[n - 1] == log[n - 1];
      assert n >= 2 ==> longer[n - 2] == log[n - 2];
    }
  }

  /** What an honest server appends is accepted by those who come after it: always when it answers a
      well-behaved client, and exactly when its complaint passes otherwise. */
  lemma HonestEntryAcceptedIff(suite: Suite, m: AuthenticationMessage, log: Log, server: Identity, coins: Coins)
    requires suite.Valid() && Shaped(m.context, m) && HonestServer(suite, m.context, server)
    requires LogAccepted(suite, m.context, m, log) && |log| < |m.context.Y|
    requires Behaves(suite, m, server) ==> Content(suite, m, server)
    requires TagBefore(m, log, |log|) < suite.q
    ensures LogAccepted(suite, m.context, m, log + [NextEntry(suite, m, log, server, coins)])
      <==> Behaves(suite, m, server) || ComplaintAccepted(suite, m, server, coins, |log|)
  {
    hide SignatureAccepted, ProofAccepted, NextEntry, Content, Mul, SignedBy, Behaves, ComplaintAccepted;
    var c, n := m.context, |log|;
    var next := log + [NextEntry(suite, m, log, server, coins)];
    NextInRange(suite, m, log, server, coins);
    NextSignatureAccepted(suite, m, log, server, coins);
    if Behaves(suite, m, server) {
      NextProofAccepted(suite, m, log, server, coins);
    } else {
      NextComplaintAccepted(suite, m, log, server, coins);
    }
    AcceptedPrefix(suite, c, m, log, next, n);
  }

  /** Honest servers can answer or complain: their secrets are there. */
  ghost predicate CanAnswer(suite: Suite, m: AuthenticationMessage, ring: seq<Identity>)
    requires 0 < suite.q && Shaped(m.context, m)
  {
    && HonestRing(suite, m.context, ring)
    && forall i :: 0 <= i < |ring| && Behaves(suite, m, ring[i]) ==> Content(suite, m, ring[i])
  }

  /** The run gets through, and the log it leaves is accepted. */
  ghost predicate Completes(suite: Suite, m: AuthenticationMessage, ring: seq<Identity>, coins: seq<Coins>)
    requires Runnable(suite, m, ring, coins)
  {
    Run(suite, m, ring, coins).Some? && LogAccepted(suite, m.context, m, Run(suite, m, ring, coins).value)
  }

  /** Every server of the ring answers, or makes a complaint that passes at its position. */
  predicate AllPass(suite: Suite, m: AuthenticationMessage, ring: seq<Identity>, coins: seq<Coins>)
    requires 0 < suite.q && Shaped(m.context, m) && |ring| == |coins| && |ring| <= |m.context.Y|
    requires forall i :: 0 <= i < |ring| ==> ring[i].index < |m.context.Y|
  {
    forall i :: 0 <= i < |ring| ==> Behaves(suite, m, ring[i]) || ComplaintAccepted(suite, m, ring[i], coins[i], i)
  }

  lemma AllPassLast(suite: Suite, m: AuthenticationMessage, ring: seq<Identity>, coins: seq<Coins>)
    requires Runnable(suite, m, ring, coins) && 0 < |ring| <= |m.context.Y|
    ensures
      var n := |ring| - 1;
      AllPass(suite, m, ring, coins) <==>
        AllPass(suite, m, ring[..n], coins[..n])
        && (Behaves(suite, m, ring[n]) || ComplaintAccepted(suite, m, ring[n], coins[n], n))
  {
    hide Behaves, ComplaintAccepted;
  }

  /** A run gets through exactly when the run before its last server does and the last entry fits. */
  lemma CompletesLast(suite: Suite, m: AuthenticationMessage, ring: seq<Identity>, coins: seq<Coins>)
    requires Runnable(suite, m, ring, coins) && 0 < |ring| <= |m.context.Y| && RequestAccepted(suite, m)
    ensures
      var n := |ring| - 1;
      Completes(suite, m, ring, coins) <==>
        Completes(suite, m, ring[..n], coins[..n])
        && var before := Run(suite, m, ring[..n], coins[..n]).value;
          LogAccepted(suite, m.context, m, before + [NextEntry(suite, m, before, ring[n], coins[n])])
    ensures
      var n := |ring| - 1;
      Completes(suite, m, ring, coins) ==>
        var before := Run(suite, m, ring[..n], coins[..n]).value;
        Run(suite, m, ring, coins).value == before + [NextEntry(suite, m, before, ring[n], coins[n])]
  {
    hide LogAccepted, NextEntry, RequestAccepted;
  }

  lemma EmptyLogAccepted(suite: Suite, m: AuthenticationMessage)
    requires 0 < suite.q && Shaped(m.context, m)
    ensures LogAccepted(suite, m.context, m, [])
  {
  }

  lemma EmptyRunCompletes(suite: Suite, m: AuthenticationMessage, ring: seq<Identity>, coins: seq<Coins>)
    requires Runnable(suite, m, ring, coins) && ring == []
    ensures Completes(suite, m, ring, coins)
  {
    EmptyLogAccepted(suite, m);
  }

  /** From an accepted request all calls succeed and the log is accepted exactly when every complaint passes. */
  lemma {:induction false} AcceptedRunCompletesIff(suite: Suite, m: AuthenticationMessage, ring: seq<Identity>, coins: seq<Coins>)
    requires suite.Valid() && RequestAccepted(suite, m) && m.initial.t0 < suite.q
    requires Runnable(suite, m, ring, coins) && CanAnswer(suite, m, ring) && |ring| <= |m.context.Y|
    ensures Completes(suite, m, ring, coins) <==> AllPass(suite, m, ring, coins)
    ensures Completes(suite, m, ring, coins) ==>
      var log := Run(suite, m, ring, coins).value;
      TagBefore(m, log, |log|) < suite.q
  {
    hide LogAccepted, NextProof, NextTag, RequestAccepted, Content, HonestServer, Behaves, ComplaintAccepted;
    if ring == [] {
      EmptyLogAccepted(suite, m);
    } else {
      hide Run, AllPass;
      var n := |ring| - 1;
      AllPassLast(suite, m, ring, coins);
      CompletesLast(suite, m, ring, coins);
      AcceptedRunCompletesIff(suite, m, ring[..n], coins[..n]);
      if Completes(suite, m, ring[..n], coins[..n]) {
        assert HonestServer(suite, m.context, ring[n]);
        HonestEntryAcceptedIff(suite, m, Run(suite, m, ring[..n], coins[..n]).value, ring[n], coins[n]);
      }
    }
  }

  /** For every request and all honest servers, whether or not they find the client well-behaved: all calls
      succeed and the log is accepted exactly when there are no calls, or the request is accepted, there are
      no more calls than servers, and every complaint passes. */
  lemma RunCompletesIffAllPass(suite: Suite, m: AuthenticationMessage, ring: seq<Identity>, coins: seq<Coins>)
    requires suite.Valid() && m.initial.t0 < suite.q
    requires Runnable(suite, m, ring, coins) && CanAnswer(suite, m, ring)
    ensures Completes(suite, m, ring, coins) <==>
      ring == [] || (RequestAccepted(suite, m) && |ring| <= |m.context.Y| && AllPass(suite, m, ring, coins))
  {
    hide Run, LogAccepted, RequestAccepted, Content, HonestServer, AllPass;
    if ring == [] {
      EmptyRunCompletes(suite, m, ring, coins);
    } else if Completes(suite, m, ring, coins) {
      RunWasChecked(suite, m, ring, coins, |ring| - 1);
      AcceptedRunCompletesIff(suite, m, ring, coins);
    } else if RequestAccepted(suite, m) && |ring| <= |m.context.Y| {
      AcceptedRunCompletesIff(suite, m, ring, coins);
    }
  }

  /** A complaint can be checked at a position: the key there is the server's own. */
  predicate AtOwnPosition(suite: Suite, m: AuthenticationMessage, server: Identity, i: nat)
    requires 0 < suite.q
  {
    i < |m.context.Y| && m.context.Y[i] == server.PublicKey(suite.q)
  }

  /** When the runs of honest servers get through: exactly when the request is accepted, there are no more calls
      than servers, and every server that complains about the client takes its turn at the position of its own
      key, or its proof meets a collision of digests. */
  lemma RunCompletesIff(suite: Suite, m: AuthenticationMessage, ring: seq<Identity>, coins: seq<Coins>)
    requires suite.Valid() && suite.Decodable() && AllBelow(suite.q, m.context.Y) && m.initial.t0 < suite.q
    requires Runnable(suite, m, ring, coins) && CanAnswer(suite, m, ring)
    ensures Completes(suite, m, ring, coins) <==>
      ring == []
      || (RequestAccepted(suite, m) && |ring| <= |m.context.Y|
        && forall i :: 0 <= i < |ring| && !Behaves(suite, m, ring[i]) ==>
          AtOwnPosition(suite, m, ring[i], i)
          || DigestsCollide(suite, m.context.Y[i], m.initial.sCommits[0], ring[i], coins[i].v))
  {
    hide Run, LogAccepted, RequestAccepted, Content, HonestServer, Behaves, VerifyMisbehavingProof, GenerateMisbehavingProof,
      DigestsCollide, Mul;
    RunCompletesIffAllPass(suite, m, ring, coins);
    if |ring| <= |m.context.Y| {
      forall i | 0 <= i < |ring|
        ensures ComplaintAccepted(suite, m, ring[i], coins[i], i) <==>
          AtOwnPosition(suite, m, ring[i], i)
          || DigestsCollide(suite, m.context.Y[i], m.initial.sCommits[0], ring[i], coins[i].v)
      {
        MisbehavingProofAcceptedIff(suite, m.context.Y[i], m.initial.sCommits[0], ring[i], coins[i].v);
      }
    }
  }

  /** Completeness: when the request is accepted and every server of the ring finds the client
      well-behaved or takes its turn at the position of its own key, every call succeeds, and the
      resulting log passes all checks. */
  lemma HonestRunSucceeds(suite: Suite, m: AuthenticationMessage, ring: seq<Identity>, coins: seq<Coins>)
    requires suite.Valid() && RequestAccepted(suite, m) && m.initial.t0 < suite.q
    requires HonestRing(suite, m.context, ring) && Runnable(suite, m, ring, coins) && |ring| <= |m.context.Y|
    requires forall i :: 0 <= i < |ring| ==>
      Content(suite, m, ring[i]) || (!Behaves(suite, m, ring[i]) && AtOwnPosition(suite, m, ring[i], i))
    ensures Run(suite, m, ring, coins).Some?
    ensures
      var log := Run(suite, m, ring, coins).value;
      LogAccepted(suite, m.context, m, log) && TagBefore(m, log, |log|) < suite.q
  {
    hide Run, LogAccepted, RequestAccepted, HonestServer, VerifyMisbehavingProof, GenerateMisbehavingProof;
    forall i | 0 <= i < |ring|
      ensures Behaves(suite, m, ring[i]) || ComplaintAccepted(suite, m, ring[i], coins[i], i)
    {
      MisbehavingProofCompleteness(suite, m.initial.sCommits[0], ring[i], coins[i].v);
    }
    AcceptedRunCompletesIff(suite, m, ring, coins);
  }

  function Tags(log: Log): (r: seq<Point>)
    ensures |r| == |log| && forall i :: 0 <= i < |r| ==> r[i] == log[i].tag
  {
    seq(|log|, i requires 0 <= i < |log| => log[i].tag)
  }

  /** A client that built its message honestly with ephemeral key z for generator h. */
  ghost predicate HonestClient(suite: Suite, m: AuthenticationMessage, z: Scalar, h: Point)
    requires 2 <= suite.q
  {
    IsInitial(suite, z, m.context.Y, h, m.initial)
    && forall j :: 0 <= j < |m.context.Y| ==> SharedSecret(suite, z, m.context.Y[j]) != 0
  }

  lemma HonestClientContents(suite: Suite, m: AuthenticationMessage, z: Scalar, h: Point, server: Identity)
    requires suite.Valid() && Shaped(m.context, m) && HonestServer(suite, m.context, server)
    requires HonestClient(suite, m, z, h)
    ensures Content(suite, m, server)
    ensures ServerSecret(suite, m, server) == SharedSecrets(suite, z, m.context.Y)[server.index]
  {
    hide Mul;
    CommitmentTestPasses(suite, z, m.context.Y, h, m.initial, server.privateKey, server.index);
    SharedSecretAgreement(suite, server.privateKey, z);
  }

  lemma HonestStepAt(
    suite: Suite, m: AuthenticationMessage, ring: seq<Identity>, coins: seq<Coins>, rs: seq<Scalar>, z: Scalar, h: Point, i: nat)
    requires suite.Valid() && HonestRing(suite, m.context, ring) && Runnable(suite, m, ring, coins)
    requires HonestClient(suite, m, z, h) && m.initial.t0 < suite.q
    requires Run(suite, m, ring, coins).Some? && i < |ring|
    requires |rs| == |m.context.Y| && rs[ring[i].index] == ring[i].roundSecret
    ensures
      var tags := Tags(Run(suite, m, ring, coins).value);
      tags[i] < suite.q &&
      StepAt(suite.q, m.context, m, Indexes(ring), tags, rs, SharedSecrets(suite, z, m.context.Y), i)
  {
    hide Mul, NextProof, StepAccepted, Content, HonestClient, NextTag, EntryBytes;
    var log := Run(suite, m, ring, coins).value;
    var server := ring[i];
    assert HonestServer(suite, m.context, server);
    RunPrefix(suite, m, ring, coins, i);
    HonestClientContents(suite, m, z, h, server);
    if i > 0 {
      RunPrefix(suite, m, ring, coins, i - 1);
    }
    HonestStepRelation(suite, m, server, TagBefore(m, log[..i], i));
  }

  /** The ends of an honest client's commitment chain and its initial tag. */
  lemma HonestEnds(suite: Suite, m: AuthenticationMessage, z: Scalar, h: Point)
    requires suite.Valid() && RequestAccepted(suite, m) && h < suite.q && HonestClient(suite, m, z, h) && |m.context.Y| > 0
    ensures |m.initial.sCommits| == |m.context.Y| + 2
    ensures
      var ss := SharedSecrets(suite, z, m.context.Y);
      var s := Product(suite.q, ss);
      && m.initial.sCommits[|ss| + 1] == Mul(suite.q, s, BASE) && m.initial.sCommits[1] == BASE
      && m.initial.t0 == Mul(suite.q, s, h) && forall j :: 0 <= j < |ss| ==> 0 < ss[j] < suite.q
  {
    hide Mul;
    var ss := SharedSecrets(suite, z, m.context.Y);
    assert ss[..|ss|] == ss;
    ChainStarts(suite.q, ss);
  }

  /** Honest authentication: for every ephemeral key of the client, every order of the servers and
      all their random choices, the run succeeds, its log is accepted, and its last tag is the
      product of the servers' round secrets applied to the client's generator. */
  lemma HonestRunTag(
    suite: Suite, m: AuthenticationMessage, ring: seq<Identity>, coins: seq<Coins>, rs: seq<Scalar>, z: Scalar, h: Point)
    requires suite.Valid() && RequestAccepted(suite, m) && h < suite.q
    requires HonestRing(suite, m.context, ring) && Runnable(suite, m, ring, coins)
    requires |m.context.Y| > 0 && IsPermutation(Indexes(ring), |m.context.Y|)
    requires |rs| == |m.context.Y| && forall i :: 0 <= i < |ring| ==> rs[ring[i].index] == ring[i].roundSecret
    requires HonestClient(suite, m, z, h)
    ensures Run(suite, m, ring, coins).Some?
    ensures
      var log := Run(suite, m, ring, coins).value;
      LogAccepted(suite, m.context, m, log) && log[|log| - 1].tag == Mul(suite.q, Product(suite.q, rs), h)
  {
    hide LogAccepted, RequestAccepted, StepAt, Run, Mul, HonestServer, Content, HonestClient;
    var q := suite.q;
    var ss := SharedSecrets(suite, z, m.context.Y);
    var s := Product(q, ss);
    HonestEnds(suite, m, z, h);
    forall i | 0 <= i < |ring|
      ensures Content(suite, m, ring[i])
    {
      assert HonestServer(suite, m.context, ring[i]);
      HonestClientContents(suite, m, z, h, ring[i]);
    }
    assert forall i :: 0 <= i < |ring| ==> Content(suite, m, ring[i]);
    HonestRunSucceeds(suite, m, ring, coins);
    var tags := Tags(Run(suite, m, ring, coins).value);
    forall i | 0 <= i < |ring|
      ensures tags[i] < q && StepAt(q, m.context, m, Indexes(ring), tags, rs, ss, i)
    {
      HonestStepAt(suite, m, ring, coins, rs, z, h, i);
    }
    ProductNonZero(q, ss);
    MulOne(q, s);
    TranscriptFixesTag(q, m.context, m, Indexes(ring), tags, rs, ss, s, h);
  }

  /** Linkability: two authentications of one client in one context end in the same tag, however the
      ephemeral keys, the proofs, the orders of the servers and their random choices differ. */
  lemma AuthenticationsAreLinked(
    suite: Suite, rs: seq<Scalar>, h: Point,
    m: AuthenticationMessage, ring: seq<Identity>, coins: seq<Coins>, z: Scalar,
    m': AuthenticationMessage, ring': seq<Identity>, coins': seq<Coins>, z': Scalar)
    requires suite.Valid() && h < suite.q && m.context == m'.context
    requires RequestAccepted(suite, m) && RequestAccepted(suite, m')
    requires HonestRing(suite, m.context, ring) && Runnable(suite, m, ring, coins)
    requires HonestRing(suite, m.context, ring') && Runnable(suite, m', ring', coins')
    requires |m.context.Y| > 0 && |rs| == |m.context.Y|
    requires IsPermutation(Indexes(ring), |m.context.Y|) && IsPermutation(Indexes(ring'), |m.context.Y|)
    requires forall i :: 0 <= i < |ring| ==> rs[ring[i].index] == ring[i].roundSecret
    requires forall i :: 0 <= i < |ring'| ==> rs[ring'[i].index] == ring'[i].roundSecret
    requires HonestClient(suite, m, z, h) && HonestClient(suite, m', z', h)
    ensures Run(suite, m, ring, coins).Some? && Run(suite, m', ring', coins').Some?
    ensures
      var log, log' := Run(suite, m, ring, coins).value, Run(suite, m', ring', coins').value;
      log[|log| - 1].tag == log'[|log'| - 1].tag
  {
    hide Run, Mul, RequestAccepted, HonestClient, LogAccepted;
    HonestRunTag(suite, m, ring, coins, rs, z, h);
    HonestRunTag(suite, m', ring', coins', rs, z', h);
  }

  /** Different clients keep apart: equal final tags mean equal generators. */
  lemma TagsTellGeneratorsApart(q: nat, rs: seq<Scalar>, h: Point, h': Point)
    requires Prime(q) && h < q && h' < q
    requires forall i :: 0 <= i < |rs| ==> 0 < rs[i] < q
    ensures Mul(q, Product(q, rs), h) == Mul(q, Product(q, rs), h') <==> h == h'
  {
    ProductNonZero(q, rs);
    if Mul(q, Product(q, rs), h) == Mul(q, Product(q, rs), h') {
      MulCancel(q, Product(q, rs), h, h');
    }
  }

  // ----- The mark of a misbehaving client -----

  lemma NextTagNull(suite: Suite, m: AuthenticationMessage, server: Identity, tPrev: Point)
    requires suite.Valid() && server.index + 2 < |m.initial.sCommits| && tPrev < suite.q
    ensures tPrev == NULL ==> NextTag(suite, m, server, tPrev) == NULL
    ensures !Behaves(suite, m, server) ==> NextTag(suite, m, server, tPrev) == NULL
    ensures
      Behaves(suite, m, server) && tPrev != NULL && ServerSecret(suite, m, server) != 0 && 0 < server.roundSecret < suite.q
      ==> NextTag(suite, m, server, tPrev) != NULL
  {
    hide Mul;
    var q, s, r := suite.q, ServerSecret(suite, m, server), server.roundSecret;
    MulZero(q, Mul(q, r, Inv(q, s)));
    if s != 0 && 0 < r < q {
      InvIsInverse(q, s);
      MulNonZero(q, r, Inv(q, s));
      MulNonZero(q, Mul(q, r, Inv(q, s)), tPrev);
    }
  }

  /** Tag k + 1 of a run is the step of server k on tag k. */
  lemma RunTag(suite: Suite, m: AuthenticationMessage, ring: seq<Identity>, coins: seq<Coins>, k: nat)
    requires Runnable(suite, m, ring, coins) && Run(suite, m, ring, coins).Some? && k < |ring|
    ensures
      var log := Run(suite, m, ring, coins).value;
      TagBefore(m, log, k + 1) == NextTag(suite, m, ring[k], TagBefore(m, log, k))
  {
    hide NextTag, NextProof, StepAccepted, EntryBytes, RequestBytes;
    RunPrefix(suite, m, ring, coins, k);
  }

  /** In a run whose calls all succeed, the null tag is absorbing. */
  lemma {:induction false} NullTagIsAbsorbing(
    suite: Suite, m: AuthenticationMessage, ring: seq<Identity>, coins: seq<Coins>, i: nat, j: nat)
    requires suite.Valid() && Runnable(suite, m, ring, coins) && Run(suite, m, ring, coins).Some?
    requires i <= j <= |ring| && TagBefore(m, Run(suite, m, ring, coins).value, i) == NULL
    ensures TagBefore(m, Run(suite, m, ring, coins).value, j) == NULL
  {
    hide Run, NextTag, Mul;
    if i < j {
      NullTagIsAbsorbing(suite, m, ring, coins, i, j - 1);
      RunTag(suite, m, ring, coins, j - 1);
      NextTagNull(suite, m, ring[j - 1], NULL);
    }
  }

  /** All servers hold non-zero secrets: the one shared with the client and the round secret. */
  ghost predicate NonZeroSecrets(suite: Suite, m: AuthenticationMessage, ring: seq<Identity>)
    requires 0 < suite.q && |m.initial.sCommits| > 0
  {
    forall i :: 0 <= i < |ring| ==> ServerSecret(suite, m, ring[i]) != 0 && 0 < ring[i].roundSecret < suite.q
  }

  lemma {:induction false} TagIsNullIff(
    suite: Suite, m: AuthenticationMessage, ring: seq<Identity>, coins: seq<Coins>, k: nat)
    requires suite.Valid() && Runnable(suite, m, ring, coins) && Run(suite, m, ring, coins).Some?
    requires 0 < m.initial.t0 < suite.q && NonZeroSecrets(suite, m, ring) && k <= |ring|
    ensures
      var t := TagBefore(m, Run(suite, m, ring, coins).value, k);
      t < suite.q && (t == NULL <==> exists i :: 0 <= i < k && !Behaves(suite, m, ring[i]))
  {
    hide Run, NextTag, Mul, Behaves, ServerSecret;
    if k > 0 {
      TagIsNullIff(suite, m, ring, coins, k - 1);
      RunTag(suite, m, ring, coins, k - 1);
      NextTagNull(suite, m, ring[k - 1], TagBefore(m, Run(suite, m, ring, coins).value, k - 1));
    }
  }

  /** The mark of a misbehaving client: in a run whose calls all succeed, for a non-null T0 and
      non-zero secrets, the last tag is null exactly when some server caught the client at a
      commitment that does not continue the chain by their shared secret. */
  lemma NullTagMarksMisbehaviour(suite: Suite, m: AuthenticationMessage, ring: seq<Identity>, coins: seq<Coins>)
    requires suite.Valid() && Runnable(suite, m, ring, coins) && Run(suite, m, ring, coins).Some?
    requires 0 < m.initial.t0 < suite.q && NonZeroSecrets(suite, m, ring) && |ring| > 0
    ensures
      var log := Run(suite, m, ring, coins).value;
      log[|log| - 1].tag == NULL <==>
        exists i :: 0 <= i < |ring| &&
          m.initial.sCommits[ring[i].index + 2]
            != Mul(suite.q, ServerSecret(suite, m, ring[i]), m.initial.sCommits[ring[i].index + 1])
  {
    hide Run, Mul, ServerSecret;
    TagIsNullIff(suite, m, ring, coins, |ring|);
  }
}

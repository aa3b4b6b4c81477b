/** Logs that name any servers any number of times: nothing in the code counts them when a log is taken
    for finished. */
module Transcripts {
  import opened Zq
  import opened Suites
  import opened Permutations
  import opened Challenges
  import opened ClientProofs
  import opened ClientSide
  import opened ServerProofs
  import opened ServerSide
  import opened ServerRuns
  import opened LogTags

  // ----- The tag of any log -----

  /** A client's honest initial tag for h, and steps of the servers with indexes js on it. */
  ghost predicate Transcript(
    q: nat, c: Context, m: AuthenticationMessage, js: seq<int>, tags: seq<Point>, rs: seq<Scalar>, ss: seq<Scalar>, h: Point)
    requires 2 <= q
  {
    && Shaped(c, m) && |rs| == |ss| == |c.Y| && |js| > 0 && AllSteps(q, c, m, js, tags, rs, ss)
    && AllNonZero(q, rs) && AllNonZero(q, ss) && AllBelow(q, tags) && 0 < h < q
    && m.initial.sCommits[1] == BASE && m.initial.sCommits[|c.Y| + 1] == Mul(q, Product(q, ss), BASE)
    && m.initial.t0 == Mul(q, Product(q, ss), h)
  }

  ghost predicate RightTag(q: nat, tags: seq<Point>, rs: seq<Scalar>, h: Point)
    requires 2 <= q && |tags| > 0
  {
    tags[|tags| - 1] == Mul(q, Product(q, rs), h)
  }

  lemma SelectNonZero(q: nat, xs: seq<Scalar>, js: seq<int>)
    requires Prime(q) && InRange(js, |xs|) && AllNonZero(q, xs)
    ensures Product(q, Select(xs, js)) != 0
  {
    ProductNonZero(q, Select(xs, js));
  }

  /** Whichever servers are in the log, and how often: its tag is the one of all servers exactly when the
      secrets of those in the log balance. */
  lemma LogTagIff(
    q: nat, c: Context, m: AuthenticationMessage, js: seq<int>, tags: seq<Point>, rs: seq<Scalar>, ss: seq<Scalar>, h: Point)
    requires Prime(q) && Shaped(c, m) && |rs| == |ss| == |c.Y| && |js| > 0 && AllSteps(q, c, m, js, tags, rs, ss)
    requires AllNonZero(q, ss) && AllBelow(q, tags) && 0 < h < q && m.initial.t0 == Mul(q, Product(q, ss), h)
    ensures RightTag(q, tags, rs, h) <==> Balanced(q, js, rs, ss)
  {
    hide Mul, StepAt;
    TagBalance(q, c, m, js, tags, rs, ss, |js|);
    assert js[..|js|] == js;
    SelectNonZero(q, ss, js);
    var R', S', R, S, t :=
      Product(q, Select(rs, js)), Product(q, Select(ss, js)), Product(q, rs), Product(q, ss), tags[|tags| - 1];
    MulAssoc(q, R', S, h);
    MulAssoc(q, S', R, h);
    if t == Mul(q, R, h) {
      MulComm(q, Mul(q, R', S), h);
      MulComm(q, Mul(q, S', R), h);
      MulCancel(q, h, Mul(q, R', S), Mul(q, S', R));
    } else if Mul(q, R', S) == Mul(q, S', R) {
      MulCancel(q, S', t, Mul(q, R, h));
    }
  }

  // ----- What the indexes alone say -----

  /** Every transcript over m servers with these indexes has the right tag. */
  ghost predicate AlwaysRight(q: nat, js: seq<int>, m: nat)
    requires 2 <= q
  {
    forall c: Context, msg: AuthenticationMessage, tags: seq<Point>, rs: seq<Scalar>, ss: seq<Scalar>, h: Point ::
      |c.Y| == m && Transcript(q, c, msg, js, tags, rs, ss, h) ==> RightTag(q, tags, rs, h)
  }

  /** The tags of honest steps. */
  function StepTags(q: nat, t0: Point, js: seq<int>, rs: seq<Scalar>, ss: seq<Scalar>): (tags: seq<Point>)
    requires 2 <= q && |rs| == |ss| && InRange(js, |rs|)
    ensures |tags| == |js| && AllBelow(q, tags)
  {
    if js == [] then []
    else
      var n := |js| - 1;
      var before := StepTags(q, t0, js[..n], rs, ss);
      var r, s := rs[js[n]], ss[js[n]];
      before + [Mul(q, Inv(q, s), Mul(q, r, if n == 0 then t0 else before[n - 1]))]
  }

  lemma {:induction false} StepTagsStep(q: nat, t0: Point, js: seq<int>, rs: seq<Scalar>, ss: seq<Scalar>, i: nat)
    requires Prime(q) && |rs| == |ss| && InRange(js, |rs|) && AllNonZero(q, ss) && i < |js|
    ensures
      var tags := StepTags(q, t0, js, rs, ss);
      Mul(q, rs[js[i]], if i == 0 then t0 else tags[i - 1]) == Mul(q, ss[js[i]], tags[i])
  {
    hide Mul;
    var n := |js| - 1;
    if i < n {
      StepTagsStep(q, t0, js[..n], rs, ss, i);
    } else {
      var before := StepTags(q, t0, js[..n], rs, ss);
      InvCancels(q, ss[js[n]], Mul(q, rs[js[n]], if n == 0 then t0 else before[n - 1]));
    }
  }

  /** For all secrets and indexes there is a transcript with them. */
  lemma TranscriptExists(q: nat, js: seq<int>, rs: seq<Scalar>, ss: seq<Scalar>, h: Point)
    returns (c: Context, m: AuthenticationMessage, tags: seq<Point>)
    requires Prime(q) && |rs| == |ss| && InRange(js, |rs|) && |js| > 0 && 0 < h < q
    requires AllNonZero(q, rs) && AllNonZero(q, ss)
    ensures |c.Y| == |rs| && Transcript(q, c, m, js, tags, rs, ss, h)
  {
    hide Mul, StepTags;
    var n := |rs|;
    var t0 := Mul(q, Product(q, ss), h);
    c := Context([], seq(n, _ => 0), seq(n, j requires 0 <= j < n => Mul(q, rs[j], BASE)), []);
    var chain := [0] + seq(n + 1, k requires 0 <= k < n + 1 => ChainPoint(q, ss, k + 1));
    m := AuthenticationMessage(c, InitialTagAndCommitments(chain, t0), ClientProof(Challenge(0, []), [], [], []));
    tags := StepTags(q, t0, js, rs, ss);
    ChainStarts(q, ss);
    assert ss[..n] == ss;
    forall i | 0 <= i < |js|
      ensures StepAt(q, c, m, js, tags, rs, ss, i)
    {
      StepTagsStep(q, t0, js, rs, ss, i);
      ChainStep(q, ss, js[i] + 1);
    }
  }

  lemma TranscriptTagIff(
    q: nat, c: Context, m: AuthenticationMessage, js: seq<int>, tags: seq<Point>, rs: seq<Scalar>, ss: seq<Scalar>, h: Point)
    requires Prime(q) && Transcript(q, c, m, js, tags, rs, ss, h)
    ensures |tags| > 0 && |rs| == |ss| && InRange(js, |rs|)
    ensures RightTag(q, tags, rs, h) <==> Balanced(q, js, rs, ss)
  {
    hide RightTag, Balanced, StepAt;
    LogTagIff(q, c, m, js, tags, rs, ss, h);
  }

  lemma BalancedIsRight(
    q: nat, js: seq<int>, m: nat,
    c: Context, msg: AuthenticationMessage, tags: seq<Point>, rs: seq<Scalar>, ss: seq<Scalar>, h: Point)
    requires Prime(q) && InRange(js, m) && AlwaysBalanced(q, js, m)
    requires |c.Y| == m && Transcript(q, c, msg, js, tags, rs, ss, h)
    ensures |tags| > 0 && RightTag(q, tags, rs, h)
  {
    hide RightTag, Balanced, StepAt;
    TranscriptTagIff(q, c, msg, js, tags, rs, ss, h);
    assert |rs| == |ss| == m && AllNonZero(q, rs) && AllNonZero(q, ss);
  }

  /** When the indexes of a log fix its tag, whatever the secrets and the client: exactly when every
      server has one turn, up to multiples of q - 1. For logs that are not longer than the number of
      servers by the order of the group, so for every log there is, that is when they are a permutation
      of the servers, which a caller can check before it takes the log for finished. */
  lemma AlwaysRightIff(q: nat, js: seq<int>, m: nat)
    requires Prime(q) && InRange(js, m) && |js| > 0
    ensures AlwaysRight(q, js, m) <==> AllFit(q, js, m)
    ensures 2 < q && |js| < m + q - 1 ==> (AlwaysRight(q, js, m) <==> IsPermutation(js, m))
  {
    hide AllFit, Transcript, RightTag, IsPermutation, Balanced;
    AlwaysBalancedIff(q, js, m);
    if AlwaysBalanced(q, js, m) {
      forall c: Context, msg: AuthenticationMessage, tags: seq<Point>, rs: seq<Scalar>, ss: seq<Scalar>, h: Point
        | |c.Y| == m && Transcript(q, c, msg, js, tags, rs, ss, h)
        ensures |tags| > 0 && RightTag(q, tags, rs, h)
      {
        BalancedIsRight(q, js, m, c, msg, tags, rs, ss, h);
      }
    } else {
      var rs, ss :| |rs| == |ss| == m && AllNonZero(q, rs) && AllNonZero(q, ss) && !Balanced(q, js, rs, ss);
      var c, msg, tags := TranscriptExists(q, js, rs, ss, 1);
      TranscriptTagIff(q, c, msg, js, tags, rs, ss, 1);
    }
    if 2 < q && |js| < m + q - 1 {
      AlwaysBalancedIffPermutation(q, js, m);
    }
  }

  // ----- Honest servers -----

  /** Honest servers that take turns in any order, some of them more than once and some of them not at
      all, leave a log that is accepted, as long as there are no more turns than servers. Its tag is the
      one of all servers exactly when the secrets of those who took part balance. */
  lemma HonestLogTagIff(
    suite: Suite, m: AuthenticationMessage, ring: seq<Identity>, coins: seq<Coins>, rs: seq<Scalar>, z: Scalar, h: Point)
    requires suite.Valid() && RequestAccepted(suite, m) && 0 < h < suite.q
    requires HonestRing(suite, m.context, ring) && Runnable(suite, m, ring, coins)
    requires 0 < |ring| <= |m.context.Y| == |rs|
    requires forall i :: 0 <= i < |ring| ==> rs[ring[i].index] == ring[i].roundSecret
    requires HonestClient(suite, m, z, h)
    ensures Run(suite, m, ring, coins).Some? && InRange(Indexes(ring), |rs|)
    ensures
      var log := Run(suite, m, ring, coins).value;
      LogAccepted(suite, m.context, m, log) &&
      (log[|log| - 1].tag == Mul(suite.q, Product(suite.q, rs), h) <==>
        Balanced(suite.q, Indexes(ring), rs, SharedSecrets(suite, z, m.context.Y)))
  {
    hide LogAccepted, RequestAccepted, StepAt, Run, Mul, HonestServer, Content, HonestClient, Balanced;
    var q := suite.q;
    var ss := SharedSecrets(suite, z, m.context.Y);
    HonestEnds(suite, m, z, h);
    forall i | 0 <= i < |ring|
      ensures Content(suite, m, ring[i])
    {
      assert HonestServer(suite, m.context, ring[i]);
      HonestClientContents(suite, m, z, h, ring[i]);
    }
    HonestRunSucceeds(suite, m, ring, coins);
    var tags := Tags(Run(suite, m, ring, coins).value);
    forall i | 0 <= i < |ring|
      ensures tags[i] < q && StepAt(q, m.context, m, Indexes(ring), tags, rs, ss, i)
    {
      HonestStepAt(suite, m, ring, coins, rs, z, h, i);
    }
    LogTagIff(q, m.context, m, Indexes(ring), tags, rs, ss, h);
  }

  // ----- A chain that ends in null -----

  /** Why the end of the chain must not be null: a step by the secret zero is the end of it, and then
      all relations hold for any tag at all. */
  lemma NullChainFixesNothing(q: nat, r: Scalar, h: Point, t: Point)
    returns (c: Context, m: AuthenticationMessage)
    requires Prime(q) && r < q && h < q && t < q
    ensures Shaped(c, m) && |c.Y| == 1 && AllSteps(q, c, m, [0], [t], [r], [0])
    ensures m.initial.sCommits[1] == BASE && m.initial.sCommits[2] == Mul(q, 0, BASE) == NULL
    ensures m.initial.t0 == Mul(q, 0, h)
  {
    c := Context([], [0], [Mul(q, r, BASE)], []);
    m := AuthenticationMessage(c, InitialTagAndCommitments([0, BASE, NULL], NULL), ClientProof(Challenge(0, []), [], [], []));
    MulZero(q, r);
    MulZero(q, t);
    MulZero(q, h);
    assert StepAt(q, c, m, [0], [t], [r], [0], 0);
  }
}

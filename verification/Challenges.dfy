/** The collectively generated challenge: commitments, openings and the servers' signatures. */
module Challenges {
  import opened Zq
  import opened Suites
  import opened Encoding
  import opened Permutations

  // ----- Signatures on a challenge -----

  function Signers(sigs: seq<ServerSignature>): (r: seq<int>)
    ensures |r| == |sigs| && forall i :: 0 <= i < |r| ==> r[i] == sigs[i].index
  {
    seq(|sigs|, i requires 0 <= i < |sigs| => sigs[i].index)
  }

  predicate SignedBy(suite: Suite, keys: seq<Point>, data: bytes, sig: ServerSignature) {
    0 <= sig.index < |keys| && suite.SchnorrVerify(keys[sig.index], data, sig.sig)
  }

  /** No server signed twice, and every signature is one on the data by the server it names. */
  predicate SignaturesAccepted(suite: Suite, keys: seq<Point>, data: bytes, sigs: seq<ServerSignature>) {
    Distinct(Signers(sigs)) && forall i :: 0 <= i < |sigs| ==> SignedBy(suite, keys, data, sigs[i])
  }

  method VerifySignatures(suite: Suite, c: Challenge, keys: seq<Point>, commits: seq<Point>)
    returns (error: Option<Error>)
    requires InRange(Signers(c.sigs), |keys|)
    ensures error.None? <==> SignaturesAccepted(suite, keys, ChallengeBytes(suite, c.cs, commits), c.sigs)
  {
    var pointBytes := PointArrayToBytes(suite, commits);
    var signData := suite.scalarBytes(c.cs) + pointBytes;
    var encountered: map<int, ()> := map[];
    for i := 0 to |c.sigs|
      invariant forall x :: x in encountered <==> x in Signers(c.sigs)[..i]
      invariant Distinct(Signers(c.sigs)[..i])
      invariant forall j :: 0 <= j < i ==> SignedBy(suite, keys, signData, c.sigs[j])
    {
      var sig := c.sigs[i];
      assert Signers(c.sigs)[..i + 1] == Signers(c.sigs)[..i] + [sig.index];
      if sig.index in encountered {
        var j :| 0 <= j < i && Signers(c.sigs)[..i][j] == sig.index;
        assert Signers(c.sigs)[j] == Signers(c.sigs)[i];
        return Some(DuplicateSignature);
      }
      encountered := encountered[sig.index := ()];
      assert Signers(c.sigs)[i] == sig.index;
      if !suite.SchnorrVerify(keys[sig.index], signData, sig.sig) {
        return Some(BadSignature);
      }
    }
    assert Signers(c.sigs)[..|c.sigs|] == Signers(c.sigs);
    return None;
  }

  // ----- Commitments and openings -----

  datatype ChallengeCommitment = ChallengeCommitment(commit: Point, index: int, sig: bytes)

  predicate CommitmentSigned(suite: Suite, key: Point, c: ChallengeCommitment) {
    suite.SchnorrVerify(key, suite.pointBytes(c.commit), c.sig)
  }

  predicate CheckOpening(suite: Suite, commitment: Point, opening: Scalar)
    requires 0 < suite.q
  {
    commitment == Mul(suite.q, opening, BASE)
  }

  /** A fresh commitment of a server and its opening, for a given choice of randomness. */
  function NewChallengeCommitment(suite: Suite, server: Identity, opening: Scalar, nonce: Scalar)
    : (r: Result<(ChallengeCommitment, Scalar)>)
    requires suite.Valid()
    ensures r.Ok?
    ensures r.value.1 == opening && r.value.0.index == server.index
    ensures CheckOpening(suite, r.value.0.commit, opening)
    ensures CommitmentSigned(suite, server.PublicKey(suite.q), r.value.0)
  {
    var com := Mul(suite.q, opening, BASE);
    match suite.SchnorrSign(server.privateKey, suite.pointBytes(com), nonce)
    case Err(e) => Err(e)
    case Ok(sig) => Ok((ChallengeCommitment(com, server.index, sig), opening))
  }

  /** Slot i holds a commitment by server i, signed by server i. */
  predicate CommitmentsAccepted(suite: Suite, keys: seq<Point>, commits: seq<ChallengeCommitment>) {
    |commits| <= |keys| &&
    forall i :: 0 <= i < |commits| ==> commits[i].index == i && CommitmentSigned(suite, keys[i], commits[i])
  }

  method VerifyChallengeCommitmentsSignatures(suite: Suite, context: Context, commits: seq<ChallengeCommitment>)
    returns (error: Option<Error>)
    requires |commits| <= |context.Y|
    ensures error.None? <==> CommitmentsAccepted(suite, context.Y, commits)
  {
    for i := 0 to |commits|
      invariant forall j :: 0 <= j < i ==> commits[j].index == j && CommitmentSigned(suite, context.Y[j], commits[j])
    {
      if i != commits[i].index {
        return Some(BadCommitment);
      }
      if !CommitmentSigned(suite, context.Y[i], commits[i]) {
        return Some(BadCommitment);
      }
    }
    return None;
  }

  function Sum(q: nat, xs: seq<Scalar>): (r: Scalar)
    requires 0 < q
    ensures r < q
  {
    if xs == [] then 0 else Add(q, Sum(q, xs[..|xs| - 1]), xs[|xs| - 1])
  }

  /** The sum of the openings as integers. */
  function Total(xs: seq<Scalar>): nat {
    if xs == [] then 0 else Total(xs[..|xs| - 1]) + xs[|xs| - 1]
  }

  lemma {:induction false} SumIsTotal(q: nat, xs: seq<Scalar>)
    requires 0 < q
    ensures Sum(q, xs) == Total(xs) % q
  {
    if xs == [] {
      Small(q, 0);
    } else {
      var n := |xs| - 1;
      SumIsTotal(q, xs[..n]);
      AddIsMod(q, Sum(q, xs[..n]), xs[n]);
      ModAdd(q, Total(xs[..n]), xs[n]);
    }
  }

  lemma {:induction false} TotalAppend(xs: seq<Scalar>, ys: seq<Scalar>)
    ensures Total(xs + ys) == Total(xs) + Total(ys)
  {
    if ys == [] {
      assert xs + ys == xs;
    } else {
      var n := |ys| - 1;
      TotalAppend(xs, ys[..n]);
      assert (xs + ys)[..|xs| + n] == xs + ys[..n];
    }
  }

  lemma SumAppend(q: nat, xs: seq<Scalar>, ys: seq<Scalar>)
    requires 0 < q
    ensures Sum(q, xs + ys) == Add(q, Sum(q, xs), Sum(q, ys))
  {
    TotalAppend(xs, ys);
    SumIsTotal(q, xs);
    SumIsTotal(q, ys);
    SumIsTotal(q, xs + ys);
    AddIsMod(q, Sum(q, xs), Sum(q, ys));
    ModAdd(q, Total(xs), Total(ys) % q);
    ModAdd(q, Total(ys), Total(xs));
  }

  lemma TotalRemove(xs: seq<Scalar>, k: nat)
    requires k < |xs|
    ensures Total(xs) == Total(xs[..k] + xs[k + 1..]) + xs[k]
  {
    assert xs == xs[..k] + ([xs[k]] + xs[k + 1..]);
    TotalAppend(xs[..k], [xs[k]] + xs[k + 1..]);
    TotalAppend([xs[k]], xs[k + 1..]);
    TotalAppend(xs[..k], xs[k + 1..]);
    assert Total([xs[k]]) == Total([]) + xs[k];
  }

  lemma {:induction false} TotalOfPermutation(xs: seq<Scalar>, ys: seq<Scalar>)
    requires multiset(xs) == multiset(ys)
    ensures Total(xs) == Total(ys)
    decreases |xs|
  {
    if xs == [] {
      assert |multiset(ys)| == 0;
    } else {
      hide Total;
      var n := |xs| - 1;
      var k := LastElsewhere(xs, ys);
      TotalOfPermutation(xs[..n], ys[..k] + ys[k + 1..]);
      TotalRemove(ys, k);
      TotalRemove(xs, n);
      assert xs[..n] + xs[n + 1..] == xs[..n];
    }
  }

  /** The order of the summands does not matter. */
  lemma SumOfPermutation(q: nat, xs: seq<Scalar>, ys: seq<Scalar>)
    requires 0 < q && multiset(xs) == multiset(ys)
    ensures Sum(q, xs) == Sum(q, ys)
  {
    SumIsTotal(q, xs);
    SumIsTotal(q, ys);
    TotalOfPermutation(xs, ys);
  }

  lemma SumOfOne(q: nat, x: Scalar)
    requires x < q
    ensures Sum(q, [x]) == x
  {
    assert Sum(q, []) == 0;
  }

  /** Another summand shifts the sum by exactly the difference. */
  lemma SumReplaced(q: nat, xs: seq<Scalar>, i: nat, y: Scalar)
    requires 0 < q && i < |xs|
    ensures Sum(q, xs[i := y]) == Add(q, Sum(q, xs), Sub(q, y, xs[i]))
  {
    var ys, t, d := xs[i := y], Total(xs), y - xs[i];
    TotalRemove(xs, i);
    TotalRemove(ys, i);
    assert ys[..i] + ys[i + 1..] == xs[..i] + xs[i + 1..];
    assert Total(ys) == t + d;
    SumIsTotal(q, xs);
    SumIsTotal(q, ys);
    AddIsMod(q, y, xs[i]);
    AddIsMod(q, t % q, d % q);
    ModAdd(q, t, d % q);
    ModAdd(q, d, t);
  }

  /** a + (x - b) = t solved for x. */
  lemma SolvesFor(q: nat, a: nat, b: nat, x: nat, t: nat)
    requires x < q && t < q
    ensures Add(q, a, Sub(q, x, b)) == t <==> x == Add(q, b, Sub(q, t, a))
  {
    AddIsMod(q, x, b);
    AddIsMod(q, t, a);
    AddIsMod(q, a, (x - b) % q);
    AddIsMod(q, b, (t - a) % q);
    ModAdd(q, x - b, a);
    ModAdd(q, t - a, b);
    if (a + x - b) % q == t {
      ModAdd(q, a + x - b, b - a);
      Small(q, x);
    }
    if (b + t - a) % q == x {
      ModAdd(q, b + t - a, a - b);
      Small(q, t);
    }
  }

  predicate Opens(suite: Suite, commits: seq<ChallengeCommitment>, openings: seq<Scalar>)
    requires 0 < suite.q
  {
    |commits| == |openings| &&
    forall i :: 0 <= i < |commits| ==> CheckOpening(suite, commits[i].commit, openings[i])
  }

  predicate OpeningsAccepted(suite: Suite, context: Context, commits: seq<ChallengeCommitment>, openings: seq<Scalar>)
    requires 0 < suite.q
  {
    |commits| == |openings| == |context.Y| && Opens(suite, commits, openings)
  }

  /** Checks every opening and returns the master challenge, the sum of the openings. */
  method CheckOpenings(suite: Suite, context: Context, commits: seq<ChallengeCommitment>, openings: seq<Scalar>)
    returns (r: Result<Scalar>)
    requires 0 < suite.q
    ensures r.Ok? <==> OpeningsAccepted(suite, context, commits, openings)
    ensures r.Ok? ==> r.value == Sum(suite.q, openings)
  {
    if |commits| != |context.Y| {
      return Err(BadCount);
    }
    if |openings| != |context.Y| {
      return Err(BadCount);
    }
    var cs := 0;
    for i := 0 to |commits|
      invariant forall j :: 0 <= j < i ==> CheckOpening(suite, commits[j].commit, openings[j])
      invariant cs == Sum(suite.q, openings[..i])
    {
      if !CheckOpening(suite, commits[i].commit, openings[i]) {
        return Err(BadOpening);
      }
      assert openings[..i + 1][..i] == openings[..i];
      cs := Add(suite.q, cs, openings[i]);
    }
    assert openings[..|openings|] == openings;
    return Ok(cs);
  }

  /** A commitment has one opening only, so that accepted openings, and with them the master
      challenge, are determined by the commitments alone. */
  lemma CommitmentsFixChallenge(suite: Suite, c: seq<ChallengeCommitment>, o: seq<Scalar>, o': seq<Scalar>)
    requires suite.Valid() && AllBelow(suite.q, o) && AllBelow(suite.q, o')
    requires Opens(suite, c, o) && Opens(suite, c, o')
    ensures o == o' && Sum(suite.q, o) == Sum(suite.q, o')
  {
    forall i | 0 <= i < |o|
      ensures o[i] == o'[i]
    {
      MulOne(suite.q, o[i]);
      MulOne(suite.q, o'[i]);
      assert CheckOpening(suite, c[i].commit, o[i]) && CheckOpening(suite, c[i].commit, o'[i]);
    }
  }

  /** As long as one opening is missing nothing is known of the challenge: whatever the other servers have
      committed to, every value of the challenge belongs to exactly one opening of server i. */
  lemma OneOpeningDecides(
    suite: Suite, context: Context, commits: seq<ChallengeCommitment>, openings: seq<Scalar>, i: nat, target: Scalar)
    returns (y: Scalar)
    requires suite.Valid() && OpeningsAccepted(suite, context, commits, openings)
    requires i < |openings| && target < suite.q
    ensures y < suite.q
    ensures forall x: Scalar, c: ChallengeCommitment :: x < suite.q && CheckOpening(suite, c.commit, x) ==>
      && OpeningsAccepted(suite, context, commits[i := c], openings[i := x])
      && (Sum(suite.q, openings[i := x]) == target <==> x == y)
  {
    hide Mul, Sum;
    var q := suite.q;
    y := Add(q, openings[i], Sub(q, target, Sum(q, openings)));
    forall x: Scalar, c: ChallengeCommitment | x < q && CheckOpening(suite, c.commit, x)
      ensures OpeningsAccepted(suite, context, commits[i := c], openings[i := x])
      ensures Sum(q, openings[i := x]) == target <==> x == y
    {
      SumReplaced(q, openings, i, x);
      SolvesFor(q, Sum(q, openings), openings[i], x, target);
    }
  }

  // ----- The check passed around the ring -----

  datatype CheckState =
    CheckState(cs: Scalar, sigs: seq<ServerSignature>, commits: seq<ChallengeCommitment>, openings: seq<Scalar>)

  /** A check that a server accepts: signatures, commitments, openings and master challenge agree. */
  predicate CheckAccepted(suite: Suite, context: Context, st: CheckState, pkCommits: seq<Point>)
    requires 0 < suite.q
  {
    && SignaturesAccepted(suite, context.Y, ChallengeBytes(suite, st.cs, pkCommits), st.sigs)
    && CommitmentsAccepted(suite, context.Y, st.commits)
    && OpeningsAccepted(suite, context, st.commits, st.openings)
    && st.cs == Sum(suite.q, st.openings)
  }

  function OwnSignature(suite: Suite, st: CheckState, pkCommits: seq<Point>, server: Identity, nonce: Scalar)
    : ServerSignature
  {
    ServerSignature(server.index, suite.sign(server.privateKey, ChallengeBytes(suite, st.cs, pkCommits), nonce))
  }

  /** What an accepted check becomes: signed by the server unless all servers have signed. */
  function Updated(suite: Suite, context: Context, st: CheckState, pkCommits: seq<Point>, server: Identity, nonce: Scalar)
    : (r: CheckState)
  {
    if |st.sigs| == |context.Y| then st
    else st.(sigs := st.sigs + [OwnSignature(suite, st, pkCommits, server, nonce)])
  }

  class ChallengeCheck {
    var cs: Scalar
    var sigs: seq<ServerSignature>
    var commits: seq<ChallengeCommitment>
    var openings: seq<Scalar>

    function State(): CheckState
      reads this
    {
      CheckState(cs, sigs, commits, openings)
    }

    constructor (st: CheckState)
      ensures State() == st
    {
      cs, sigs, commits, openings := st.cs, st.sigs, st.commits, st.openings;
    }

    method CheckUpdateChallenge(suite: Suite, context: Context, pkCommits: seq<Point>, server: Identity, nonce: Scalar)
      returns (error: Option<Error>)
      requires suite.Valid()
      requires InRange(Signers(sigs), |context.Y|) && |commits| <= |context.Y|
      modifies this
      ensures error.None? <==> old(CheckAccepted(suite, context, State(), pkCommits))
      ensures State() == if error.None? then Updated(suite, context, old(State()), pkCommits, server, nonce) else old(State())
    {
      error := VerifySignatures(suite, Challenge(cs, sigs), context.Y, pkCommits);
      if error.Some? {
        return;
      }
      error := VerifyChallengeCommitmentsSignatures(suite, context, commits);
      if error.Some? {
        return;
      }
      var computed := CheckOpenings(suite, context, commits, openings);
      if computed.Err? {
        return Some(computed.error);
      }
      if computed.value != cs {
        return Some(ChallengeMismatch);
      }
      if |sigs| == |context.Y| {
        return None;
      }
      var pointBytes := PointArrayToBytes(suite, pkCommits);
      var sig := suite.SchnorrSign(server.privateKey, suite.scalarBytes(cs) + pointBytes, nonce);
      assert |suite.scalarBytes(cs)| == UNIT;
      if sig.Err? {
        assert false;
      }
      sigs := sigs + [ServerSignature(server.index, sig.value)];
    }
  }

  method InitializeChallenge(suite: Suite, context: Context, commits: seq<ChallengeCommitment>, openings: seq<Scalar>)
    returns (r: Result<CheckState>)
    requires 0 < suite.q
    ensures r.Ok? <==> |commits| != 0 && OpeningsAccepted(suite, context, commits, openings)
    ensures r.Ok? ==> r.value == CheckState(Sum(suite.q, openings), [], commits, openings)
  {
    if |commits| == 0 || |commits| != |openings| {
      return Err(InvalidInputs);
    }
    var cs := CheckOpenings(suite, context, commits, openings);
    if cs.Err? {
      return Err(cs.error);
    }
    return Ok(CheckState(cs.value, [], commits, openings));
  }

  function FinalizeChallenge(context: Context, st: CheckState): (r: Result<Challenge>)
    ensures r.Ok? <==> |st.sigs| == |context.Y|
    ensures r.Ok? ==> r.value == Challenge(st.cs, st.sigs)
  {
    if |st.sigs| != |context.Y| then Err(BadCount) else Ok(Challenge(st.cs, st.sigs))
  }

  // ----- What a finalized challenge carries -----

  /** Server j contributed exactly one signature, and it is a signature on the challenge. */
  ghost predicate SignedOnceBy(suite: Suite, context: Context, c: Challenge, pkCommits: seq<Point>, j: nat) {
    exists i :: 0 <= i < |c.sigs| && c.sigs[i].index == j
      && SignedBy(suite, context.Y, ChallengeBytes(suite, c.cs, pkCommits), c.sigs[i])
      && forall k :: 0 <= k < |c.sigs| && c.sigs[k].index == j ==> k == i
  }

  ghost predicate SignedOnceByAll(suite: Suite, context: Context, c: Challenge, pkCommits: seq<Point>) {
    && IsPermutation(Signers(c.sigs), |context.Y|)
    && forall j :: 0 <= j < |context.Y| ==> SignedOnceBy(suite, context, c, pkCommits, j)
  }

  /** Pigeonhole: signatures that are accepted are those of all servers, one each, exactly when there
      are as many of them as servers. Nothing but the number is left to check. */
  lemma SignedByAllIffCounted(suite: Suite, context: Context, c: Challenge, pkCommits: seq<Point>)
    requires SignaturesAccepted(suite, context.Y, ChallengeBytes(suite, c.cs, pkCommits), c.sigs)
    ensures SignedOnceByAll(suite, context, c, pkCommits) <==> |c.sigs| == |context.Y|
  {
    var m := |context.Y|;
    var signers := Signers(c.sigs);
    if |c.sigs| == m {
      forall j | 0 <= j < m
        ensures SignedOnceBy(suite, context, c, pkCommits, j)
      {
        PermutationCovers(signers, m, j);
        var i :| 0 <= i < |signers| && signers[i] == j;
        assert c.sigs[i].index == j;
        forall k | 0 <= k < |c.sigs| && c.sigs[k].index == j
          ensures k == i
        {
          assert signers[k] == signers[i];
        }
      }
    }
  }

  /** When the closing check is accepted and the challenge finalizes, every server signed the
      challenge exactly once. */
  lemma FinalizedIsSignedByAll(suite: Suite, context: Context, st: CheckState, pkCommits: seq<Point>)
    requires 0 < suite.q
    requires CheckAccepted(suite, context, st, pkCommits) && FinalizeChallenge(context, st).Ok?
    ensures SignedOnceByAll(suite, context, FinalizeChallenge(context, st).value, pkCommits)
  {
    SignedByAllIffCounted(suite, context, Challenge(st.cs, st.sigs), pkCommits);
  }

  /** A server's update keeps the check acceptable as long as it signs for the first time. */
  lemma UpdatedIsAccepted(
    suite: Suite, context: Context, st: CheckState, pkCommits: seq<Point>, server: Identity, nonce: Scalar)
    requires suite.Valid() && server.index < |context.Y|
    requires context.Y[server.index] == server.PublicKey(suite.q)
    requires CheckAccepted(suite, context, st, pkCommits)
    requires |st.sigs| == |context.Y| || server.index !in Signers(st.sigs)
    ensures CheckAccepted(suite, context, Updated(suite, context, st, pkCommits, server, nonce), pkCommits)
  {
    var after := Updated(suite, context, st, pkCommits, server, nonce);
    if |st.sigs| != |context.Y| {
      var data := ChallengeBytes(suite, st.cs, pkCommits);
      assert |suite.scalarBytes(st.cs)| == UNIT;
      assert suite.verify(Mul(suite.q, server.privateKey, BASE), data, suite.sign(server.privateKey, data, nonce));
      assert Signers(after.sigs) == Signers(st.sigs) + [server.index];
    }
  }

  /** Skipping the closing check is safe exactly when the last server to sign had not signed
      before: the update itself does not look for the server's own earlier signature. */
  lemma FinalizedWithoutClosingCheck(
    suite: Suite, context: Context, st: CheckState, pkCommits: seq<Point>, server: Identity, nonce: Scalar)
    requires suite.Valid() && server.index < |context.Y|
    requires context.Y[server.index] == server.PublicKey(suite.q)
    requires CheckAccepted(suite, context, st, pkCommits) && |st.sigs| + 1 == |context.Y|
    ensures
      var after := Updated(suite, context, st, pkCommits, server, nonce);
      FinalizeChallenge(context, after).Ok? &&
      (SignedOnceByAll(suite, context, FinalizeChallenge(context, after).value, pkCommits) <==>
        server.index !in Signers(st.sigs))
  {
    var after := Updated(suite, context, st, pkCommits, server, nonce);
    assert Signers(after.sigs) == Signers(st.sigs) + [server.index];
    if server.index !in Signers(st.sigs) {
      UpdatedIsAccepted(suite, context, st, pkCommits, server, nonce);
      FinalizedIsSignedByAll(suite, context, after, pkCommits);
    } else {
      var i :| 0 <= i < |st.sigs| && Signers(st.sigs)[i] == server.index;
      assert Signers(after.sigs)[i] == Signers(after.sigs)[|st.sigs|];
    }
  }

  // ----- What the signatures bind -----

  /** A signature on a commitment is good for no other commitment, unless it verifies for two messages. */
  lemma CommitmentIsBound(suite: Suite, key: Point, c: ChallengeCommitment, c': ChallengeCommitment)
    requires suite.Decodable() && c.commit < suite.q && c'.commit < suite.q && c.sig == c'.sig
    requires CommitmentSigned(suite, key, c) && CommitmentSigned(suite, key, c')
    ensures c.commit == c'.commit || Reused(suite, key, suite.pointBytes(c.commit), suite.pointBytes(c'.commit), c.sig)
  {
    assert suite.pointOf(suite.pointBytes(c.commit)) == c.commit && suite.pointOf(suite.pointBytes(c'.commit)) == c'.commit;
  }

  /** A server's signature on a challenge is good for no other challenge and for no other client's commitments. */
  lemma ChallengeIsBound(
    suite: Suite, keys: seq<Point>, c: Challenge, pkCommits: seq<Point>, c': Challenge, pkCommits': seq<Point>, i: nat, j: nat)
    requires suite.Valid() && suite.Decodable()
    requires c.cs < suite.q && c'.cs < suite.q && AllBelow(suite.q, pkCommits) && AllBelow(suite.q, pkCommits')
    requires SignaturesAccepted(suite, keys, ChallengeBytes(suite, c.cs, pkCommits), c.sigs) && i < |c.sigs|
    requires SignaturesAccepted(suite, keys, ChallengeBytes(suite, c'.cs, pkCommits'), c'.sigs) && j < |c'.sigs|
    requires c.sigs[i] == c'.sigs[j]
    ensures 0 <= c.sigs[i].index < |keys|
    ensures
      || (c.cs == c'.cs && pkCommits == pkCommits')
      || Reused(suite, keys[c.sigs[i].index], ChallengeBytes(suite, c.cs, pkCommits), ChallengeBytes(suite, c'.cs, pkCommits'),
        c.sigs[i].sig)
  {
    hide ChallengeBytes, Suite.Valid, Suite.Decodable;
    if ChallengeBytes(suite, c.cs, pkCommits) == ChallengeBytes(suite, c'.cs, pkCommits') {
      ChallengeBytesInjective(suite, c.cs, pkCommits, c'.cs, pkCommits');
    }
    assert SignedBy(suite, keys, ChallengeBytes(suite, c.cs, pkCommits), c.sigs[i]);
    assert SignedBy(suite, keys, ChallengeBytes(suite, c'.cs, pkCommits'), c'.sigs[j]);
  }

  /** Some server's signature on its commitment verifies for two commitments. */
  ghost predicate CommitmentReused(suite: Suite, keys: seq<Point>, commits: seq<ChallengeCommitment>, commits': seq<ChallengeCommitment>) {
    exists i :: 0 <= i < |commits| && i < |commits'| && i < |keys|
      && Reused(suite, keys[i], suite.pointBytes(commits[i].commit), suite.pointBytes(commits'[i].commit), commits[i].sig)
  }

  /** Why every server can rely on the check that it signs: two accepted checks that carry the same servers'
      signatures on commitments have the same commitments, openings and challenge. */
  lemma CheckFixesChallenge(
    suite: Suite, context: Context, st: CheckState, pkCommits: seq<Point>, st': CheckState, pkCommits': seq<Point>)
    requires suite.Valid() && suite.Decodable()
    requires CheckAccepted(suite, context, st, pkCommits) && CheckAccepted(suite, context, st', pkCommits')
    requires AllBelow(suite.q, st.openings) && AllBelow(suite.q, st'.openings)
    requires forall i :: 0 <= i < |context.Y| && i < |st.commits| && i < |st'.commits| ==> st.commits[i].sig == st'.commits[i].sig
    ensures
      || (st.commits == st'.commits && st.openings == st'.openings && st.cs == st'.cs)
      || CommitmentReused(suite, context.Y, st.commits, st'.commits)
  {
    hide Suite.Valid, Suite.Decodable, SignaturesAccepted, CommitmentSigned, Sum;
    if !CommitmentReused(suite, context.Y, st.commits, st'.commits) {
      forall i | 0 <= i < |context.Y|
        ensures st.commits[i] == st'.commits[i]
      {
        assert CheckOpening(suite, st.commits[i].commit, st.openings[i]);
        assert CheckOpening(suite, st'.commits[i].commit, st'.openings[i]);
        CommitmentIsBound(suite, context.Y[i], st.commits[i], st'.commits[i]);
      }
      assert st.commits == st'.commits;
      CommitmentsFixChallenge(suite, st.commits, st.openings, st'.openings);
    }
  }

  // ----- A whole round -----

  function Indexes(ring: seq<Identity>): (r: seq<int>)
    ensures |r| == |ring| && forall i :: 0 <= i < |r| ==> r[i] == ring[i].index
  {
    seq(|ring|, i requires 0 <= i < |ring| => ring[i].index)
  }

  lemma LastIndex(ring: seq<Identity>)
    requires ring != []
    ensures
      var n := |ring| - 1;
      Indexes(ring) == Indexes(ring[..n]) + [ring[n].index]
        && (Distinct(Indexes(ring)) ==> Distinct(Indexes(ring[..n])) && ring[n].index !in Indexes(ring[..n]))
  {
    var n := |ring| - 1;
    assert Indexes(ring[..n]) == Indexes(ring)[..n];
    assert Indexes(ring) == Indexes(ring)[..n] + [ring[n].index];
  }

  ghost predicate OwnKeys(q: nat, context: Context, ring: seq<Identity>)
    requires 0 < q
  {
    forall i :: 0 <= i < |ring| ==> ring[i].index < |context.Y| && context.Y[ring[i].index] == ring[i].PublicKey(q)
  }

  lemma OwnKeysBefore(q: nat, context: Context, ring: seq<Identity>)
    requires 0 < q && OwnKeys(q, context, ring) && ring != []
    ensures OwnKeys(q, context, ring[..|ring| - 1]) && ring[|ring| - 1].index < |context.Y|
    ensures context.Y[ring[|ring| - 1].index] == ring[|ring| - 1].PublicKey(q)
  {
  }

  /** The check after the servers of a ring have updated it one after the other. */
  function RoundTrip(
    suite: Suite, context: Context, st: CheckState, pkCommits: seq<Point>, ring: seq<Identity>, nonces: seq<Scalar>)
    : CheckState
    requires |nonces| == |ring|
  {
    if ring == [] then st
    else
      var n := |ring| - 1;
      Updated(suite, context, RoundTrip(suite, context, st, pkCommits, ring[..n], nonces[..n]), pkCommits, ring[n], nonces[n])
  }

  lemma {:induction false} RoundTripSigners(
    suite: Suite, context: Context, st: CheckState, pkCommits: seq<Point>, ring: seq<Identity>, nonces: seq<Scalar>)
    requires suite.Valid() && OwnKeys(suite.q, context, ring)
    requires |nonces| == |ring| <= |context.Y| && Distinct(Indexes(ring))
    requires st.sigs == [] && CheckAccepted(suite, context, st, pkCommits)
    ensures
      var after := RoundTrip(suite, context, st, pkCommits, ring, nonces);
      CheckAccepted(suite, context, after, pkCommits) && Signers(after.sigs) == Indexes(ring)
      && after.(sigs := []) == st
  {
    hide CheckAccepted, OwnKeys;
    if ring != [] {
      var n := |ring| - 1;
      var before := RoundTrip(suite, context, st, pkCommits, ring[..n], nonces[..n]);
      LastIndex(ring);
      OwnKeysBefore(suite.q, context, ring);
      RoundTripSigners(suite, context, st, pkCommits, ring[..n], nonces[..n]);
      assert |before.sigs| == |Signers(before.sigs)| == n;
      assert ring[n].index !in Indexes(ring[..n]);
      UpdatedIsAccepted(suite, context, before, pkCommits, ring[n], nonces[n]);
      assert Signers(Updated(suite, context, before, pkCommits, ring[n], nonces[n]).sigs) == Signers(before.sigs) + [ring[n].index];
    }
  }

  /** For every order of the m servers: after the leader initialized the check and every server
      updated it, the closing check is accepted and changes nothing, the challenge finalizes to the
      sum of the openings, and it carries one signature of every server. */
  lemma ChallengeRoundSucceeds(
    suite: Suite, context: Context, commits: seq<ChallengeCommitment>, openings: seq<Scalar>, pkCommits: seq<Point>,
    ring: seq<Identity>, nonces: seq<Scalar>, leader: Identity, nonce: Scalar)
    requires suite.Valid() && OwnKeys(suite.q, context, ring)
    requires IsPermutation(Indexes(ring), |context.Y|) && |nonces| == |ring| > 0
    requires CommitmentsAccepted(suite, context.Y, commits) && OpeningsAccepted(suite, context, commits, openings)
    ensures
      var initial := CheckState(Sum(suite.q, openings), [], commits, openings);
      var last := RoundTrip(suite, context, initial, pkCommits, ring, nonces);
      && CheckAccepted(suite, context, last, pkCommits)
      && Updated(suite, context, last, pkCommits, leader, nonce) == last
      && FinalizeChallenge(context, last) == Ok(Challenge(Sum(suite.q, openings), last.sigs))
      && SignedOnceByAll(suite, context, Challenge(Sum(suite.q, openings), last.sigs), pkCommits)
  {
    var initial := CheckState(Sum(suite.q, openings), [], commits, openings);
    RoundTripSigners(suite, context, initial, pkCommits, ring, nonces);
    var last := RoundTrip(suite, context, initial, pkCommits, ring, nonces);
    assert |last.sigs| == |Signers(last.sigs)| == |context.Y|;
    FinalizedIsSignedByAll(suite, context, last, pkCommits);
  }
}

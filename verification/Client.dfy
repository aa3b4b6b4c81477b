/** The client's first steps: shared secrets, initial linkage tag and commitment chain. */
module ClientSide {
  import opened Zq
  import opened Suites
  import opened Encoding
  import opened ClientProofs

  /** A mutable scalar, the way the group library hands scalars out by reference. */
  class ScalarRef {
    var v: Scalar

    constructor (v: Scalar)
      ensures this.v == v
    {
      this.v := v;
    }
  }

  /** The secret shared with the owner of a public key, by the holder of the private key z. */
  function SharedSecret(suite: Suite, z: Scalar, key: Point): (r: Scalar)
    requires 0 < suite.q
    ensures r < suite.q
  {
    suite.HashToScalar(suite.pointBytes(Mul(suite.q, z, key)))
  }

  /** Who shares a secret: two Diffie-Hellman values give the same one exactly when they are equal or the
      digests of their encodings collide. */
  lemma SharedSecretEqualIff(suite: Suite, z: Scalar, key: Point, z': Scalar, key': Point)
    requires suite.Valid() && suite.Decodable()
    ensures
      var p, p' := Mul(suite.q, z, key), Mul(suite.q, z', key');
      SharedSecret(suite, z, key) == SharedSecret(suite, z', key') <==>
        p == p' || Collide(suite, suite.pointBytes(p), suite.pointBytes(p'))
  {
    hide Mul;
    var p, p' := Mul(suite.q, z, key), Mul(suite.q, z', key');
    SameDigestIff(suite, suite.pointBytes(p), suite.pointBytes(p'));
    assert suite.pointOf(suite.pointBytes(p)) == p && suite.pointOf(suite.pointBytes(p')) == p';
  }

  function SharedSecrets(suite: Suite, z: Scalar, keys: seq<Point>): (r: seq<Scalar>)
    requires 0 < suite.q
    ensures |r| == |keys| && AllBelow(suite.q, r)
    ensures forall j :: 0 <= j < |keys| ==> r[j] == SharedSecret(suite, z, keys[j])
  {
    seq(|keys|, j requires 0 <= j < |keys| => SharedSecret(suite, z, keys[j]))
  }

  /** Entry k of the chain commits to the product of the first k - 1 shared secrets. */
  function ChainPoint(q: nat, s: seq<Scalar>, k: nat): Point
    requires 2 <= q && 1 <= k <= |s| + 1
  {
    Mul(q, Product(q, s[..k - 1]), BASE)
  }

  lemma ChainStarts(q: nat, s: seq<Scalar>)
    requires 2 <= q
    ensures ChainPoint(q, s, 1) == BASE
    ensures Product(q, s[..0]) == 1
  {
    MulOne(q, 1);
  }

  /** Each entry of the chain is the next shared secret times the entry before. */
  lemma ChainStep(q: nat, s: seq<Scalar>, k: nat)
    requires 2 <= q && 1 <= k <= |s|
    ensures Product(q, s[..k]) == Mul(q, Product(q, s[..k - 1]), s[k - 1])
    ensures ChainPoint(q, s, k + 1) == Mul(q, Product(q, s[..k]), BASE) == Mul(q, s[k - 1], ChainPoint(q, s, k))
  {
    var before := Product(q, s[..k - 1]);
    assert s[..k] == s[..k - 1] + [s[k - 1]];
    ProductSnoc(q, s[..k - 1], s[k - 1]);
    MulComm(q, before, s[k - 1]);
    MulAssoc(q, s[k - 1], before, BASE);
  }

  /** T0 and S = (Z, G, s1·G, s1·s2·G, .., s1·..·sm·G). */
  ghost predicate IsInitial(
    suite: Suite, z: Scalar, keys: seq<Point>, generator: Point, initial: InitialTagAndCommitments)
    requires 2 <= suite.q
  {
    var s := SharedSecrets(suite, z, keys);
    && initial.t0 == Mul(suite.q, Product(suite.q, s), generator)
    && |initial.sCommits| == |keys| + 2
    && initial.sCommits[0] == Mul(suite.q, z, BASE)
    && forall k :: 1 <= k < |keys| + 2 ==> initial.sCommits[k] == ChainPoint(suite.q, s, k)
  }

  /** Steps 1 to 3 of the client, for the ephemeral private key z. The running product of the
      commitments lives in the first shared secret, which is overwritten and finally returned. */
  method NewInitialTagAndCommitments(suite: Suite, serverKeys: seq<Point>, clientGenerator: Point, z: Scalar)
    returns (initial: InitialTagAndCommitments, s: ScalarRef)
    requires 2 <= suite.q && |serverKeys| > 0
    ensures IsInitial(suite, z, serverKeys, clientGenerator, initial)
    ensures s.v == Product(suite.q, SharedSecrets(suite, z, serverKeys))
    ensures initial.sCommits[|serverKeys| + 1] == Mul(suite.q, s.v, BASE)
    ensures initial.t0 == Mul(suite.q, s.v, clientGenerator)
  {
    hide Mul, Reduce, Product, ChainPoint;
    ghost var all := SharedSecrets(suite, z, serverKeys);
    var q := suite.q;
    var Z := Mul(q, z, BASE);

    var sharedSecrets: seq<ScalarRef> := [];
    for i := 0 to |serverKeys|
      invariant |sharedSecrets| == i
      invariant forall j :: 0 <= j < i ==> fresh(sharedSecrets[j]) && sharedSecrets[j].v == all[j]
      invariant forall j, k :: 0 <= j < k < i ==> sharedSecrets[j] != sharedSecrets[k]
    {
      var hash := suite.hash(suite.pointBytes(Mul(q, z, serverKeys[i])));
      var sharedSecret := new ScalarRef(Reduce(q, hash));
      sharedSecrets := sharedSecrets + [sharedSecret];
    }

    ChainStarts(q, all);
    var exp := new ScalarRef(1);
    for i := 0 to |sharedSecrets|
      invariant exp.v == Product(q, all[..i])
      invariant forall j :: 0 <= j < |sharedSecrets| ==> sharedSecrets[j].v == all[j] && sharedSecrets[j] != exp
    {
      ChainStep(q, all, i + 1);
      exp.v := Mul(q, exp.v, sharedSecrets[i].v);
    }
    assert all[..|sharedSecrets|] == all;
    var T0 := Mul(q, exp.v, clientGenerator);

    var S := [Z, BASE];
    exp := sharedSecrets[0];
    ChainStep(q, all, 1);
    MulOne(q, all[0]);
    for i := 1 to |sharedSecrets|
      invariant |S| == i + 1 && S[0] == Z
      invariant forall k :: 1 <= k < |S| ==> S[k] == ChainPoint(q, all, k)
      invariant exp == sharedSecrets[0] && exp.v == Product(q, all[..i])
      invariant forall j :: 1 <= j < |sharedSecrets| ==> sharedSecrets[j].v == all[j]
    {
      ChainStep(q, all, i);
      S := S + [Mul(q, exp.v, BASE)];
      ChainStep(q, all, i + 1);
      exp.v := Mul(q, exp.v, sharedSecrets[i].v);
    }
    assert all[..|sharedSecrets|] == all;
    ChainStep(q, all, |all|);
    S := S + [Mul(q, exp.v, BASE)];
    s := exp;
    initial := InitialTagAndCommitments(S, T0);
  }

  /** Client and server derive the same secret, the server from its private key and Z. */
  lemma SharedSecretAgreement(suite: Suite, y: Scalar, z: Scalar)
    requires 0 < suite.q
    ensures SharedSecret(suite, y, Mul(suite.q, z, BASE)) == SharedSecret(suite, z, Mul(suite.q, y, BASE))
  {
    MulSwap(suite.q, y, z, BASE);
  }

  /** The test a server runs on the client's commitments. */
  predicate CommitmentTest(suite: Suite, initial: InitialTagAndCommitments, index: nat, s: Scalar)
    requires 0 < suite.q && index + 2 < |initial.sCommits|
  {
    initial.sCommits[index + 2] == Mul(suite.q, s, initial.sCommits[index + 1])
  }

  /** Every server's test passes on an honest client's commitments, with the secret that the server
      derives on its own from Z. */
  lemma CommitmentTestPasses(
    suite: Suite, z: Scalar, keys: seq<Point>, generator: Point, initial: InitialTagAndCommitments, y: Scalar, index: nat)
    requires 2 <= suite.q && index < |keys| && keys[index] == Mul(suite.q, y, BASE)
    requires IsInitial(suite, z, keys, generator, initial)
    ensures CommitmentTest(suite, initial, index, SharedSecret(suite, y, initial.sCommits[0]))
  {
    SharedSecretAgreement(suite, y, z);
    ChainStep(suite.q, SharedSecrets(suite, z, keys), index + 1);
  }

  /** An honest client has what PKclient asks for. */
  lemma InitialSatisfiesPKClient(suite: Suite, z: Scalar, c: Context, i: nat, x: Scalar, initial: InitialTagAndCommitments)
    requires 2 <= suite.q && |c.Y| > 0 && i < |c.X| && i < |c.H| && c.X[i] == Mul(suite.q, x, BASE)
    requires IsInitial(suite, z, c.Y, c.H[i], initial)
    ensures PKClientFor(suite.q, c, initial, i, Product(suite.q, SharedSecrets(suite, z, c.Y)), x)
    ensures PKClient(suite.q, c, initial)
  {
    var s := SharedSecrets(suite, z, c.Y);
    var m := |c.Y|;
    assert s[..m] == s;
    assert PKClientFor(suite.q, c, initial, i, Product(suite.q, s), x);
  }
}

/** The predicate PKclient that a client proves, and when a server accepts the proof. */
module ClientProofs {
  import opened Zq
  import opened Suites
  import opened Encoding
  import opened Challenges
  import Permutations

  // ----- The predicate language of the proof library -----

  type Name = bytes

  /** Rep(P, x, B) is the claim P = x·B about named public and secret values. */
  datatype Predicate =
    | Rep(point: Name, secret: Name, base: Name)
    | And(all: seq<Predicate>)
    | Or(any: seq<Predicate>)

  ghost predicate Holds(q: nat, p: Predicate, pval: map<Name, Point>, sval: map<Name, Scalar>)
    requires 0 < q
  {
    match p
    case Rep(point, secret, base) =>
      point in pval && base in pval && secret in sval && pval[point] == Mul(q, sval[secret], pval[base])
    case And(all) => forall i :: 0 <= i < |all| ==> Holds(q, all[i], pval, sval)
    case Or(any) => exists i :: 0 <= i < |any| && Holds(q, any[i], pval, sval)
  }

  const NAME_G: Name := [71]
  const NAME_T0: Name := [84, 48]
  const NAME_SM: Name := [83, 109]
  const NAME_S: Name := [115]

  function NameH(k: nat): Name { [72] + Itoa(k) }

  function NameX(k: nat): Name { [88] + Itoa(k) }

  function Namex(k: nat): Name { [120] + Itoa(k) }

  /** The clause of client k. */
  function Clause(k: nat): Predicate {
    And([Rep(NameX(k), Namex(k), NAME_G), Rep(NAME_SM, NAME_S, NAME_G), Rep(NAME_T0, NAME_S, NameH(k))])
  }

  function Clauses(n: nat): (r: seq<Predicate>)
    ensures |r| == n && forall k :: 0 <= k < n ==> r[k] == Clause(k)
  {
    seq(n, k requires 0 <= k < n => Clause(k))
  }

  /** The public values under the names the clauses use. */
  predicate IsPublic(pval: map<Name, Point>, c: Context, initial: InitialTagAndCommitments, n: nat)
    requires n <= |c.X| && n <= |c.H| && |initial.sCommits| > 0
  {
    && NAME_G in pval && pval[NAME_G] == BASE
    && NAME_T0 in pval && pval[NAME_T0] == initial.t0
    && NAME_SM in pval && pval[NAME_SM] == initial.sCommits[|initial.sCommits| - 1]
    && (forall k :: 0 <= k < n ==> NameX(k) in pval && pval[NameX(k)] == c.X[k])
    && (forall k :: 0 <= k < n ==> NameH(k) in pval && pval[NameH(k)] == c.H[k])
  }

  /** Names of different clients, and of different kinds, never collide. */
  lemma NamesDiffer(k: nat)
    ensures forall i: nat :: i != k ==> NameX(i) != NameX(k) && NameH(i) != NameH(k)
    ensures forall i: nat :: NameX(i) != NameH(k) && NameH(i) != NameX(k)
    ensures NameX(k) !in {NAME_G, NAME_T0, NAME_SM} && NameH(k) !in {NAME_G, NAME_T0, NAME_SM}
  {
    forall i: nat | i != k
      ensures NameX(i) != NameX(k) && NameH(i) != NameH(k)
    {
      assert NameX(i)[1..] == Itoa(i) && NameX(k)[1..] == Itoa(k);
      assert NameH(i)[1..] == Itoa(i) && NameH(k)[1..] == Itoa(k);
      if Itoa(i) == Itoa(k) {
        ItoaInjective(i, k);
      }
    }
    forall i: nat
      ensures NameX(i) != NameH(k) && NameH(i) != NameX(k)
    {
      assert NameX(i)[0] == 88 && NameH(k)[0] == 72 && NameH(i)[0] == 72 && NameX(k)[0] == 88;
    }
    assert NameX(k)[0] == 88 && NameH(k)[0] == 72;
    assert NAME_G[0] == 71 && NAME_T0[0] == 84 && NAME_SM[0] == 83;
  }

  /** Builds the OR over all clients and the table of public values it refers to. */
  method NewClientProofPred(c: Context, initial: InitialTagAndCommitments)
    returns (p: Predicate, pval: map<Name, Point>)
    requires |c.X| <= |c.H| && |initial.sCommits| > 0
    ensures p == Or(Clauses(|c.X|))
    ensures IsPublic(pval, c, initial, |c.X|)
  {
    var andPreds: seq<Predicate> := [];
    pval := map[NAME_G := BASE];
    pval := pval[NAME_T0 := initial.t0];
    pval := pval[NAME_SM := initial.sCommits[|initial.sCommits| - 1]];
    for k := 0 to |c.X|
      invariant andPreds == Clauses(k)
      invariant IsPublic(pval, c, initial, k)
    {
      var linkageTagValid := Rep(NAME_T0, NAME_S, NameH(k));
      var commitmentValid := Rep(NAME_SM, NAME_S, NAME_G);
      var knowsPrivateKey := Rep(NameX(k), Namex(k), NAME_G);
      NamesDiffer(k);
      pval := pval[NameX(k) := c.X[k]];
      pval := pval[NameH(k) := c.H[k]];
      andPreds := andPreds + [And([knowsPrivateKey, commitmentValid, linkageTagValid])];
    }
    p := Or(andPreds);
  }

  // ----- What the predicate says -----

  /** Some client i knows its private key, and one scalar s both opens Sm and links T0 to h_i. */
  ghost predicate PKClientFor(q: nat, c: Context, initial: InitialTagAndCommitments, i: nat, s: Scalar, x: Scalar)
    requires 0 < q
  {
    && i < |c.X| && i < |c.H| && |initial.sCommits| > 0
    && c.X[i] == Mul(q, x, BASE)
    && initial.sCommits[|initial.sCommits| - 1] == Mul(q, s, BASE)
    && initial.t0 == Mul(q, s, c.H[i])
  }

  ghost predicate PKClient(q: nat, c: Context, initial: InitialTagAndCommitments)
    requires 0 < q
  {
    exists i: nat, s: Scalar, x: Scalar :: PKClientFor(q, c, initial, i, s, x)
  }

  lemma ClauseHolds(
    q: nat, c: Context, initial: InitialTagAndCommitments, pval: map<Name, Point>, sval: map<Name, Scalar>, k: nat)
    requires 0 < q && k < |c.X| <= |c.H| && |initial.sCommits| > 0
    requires IsPublic(pval, c, initial, |c.X|)
    ensures Holds(q, Clause(k), pval, sval) <==>
      NAME_S in sval && Namex(k) in sval && PKClientFor(q, c, initial, k, sval[NAME_S], sval[Namex(k)])
  {
    var all := Clause(k).all;
    assert Holds(q, Clause(k), pval, sval) <==>
      Holds(q, all[0], pval, sval) && Holds(q, all[1], pval, sval) && Holds(q, all[2], pval, sval);
  }

  /** The secret values a client hands to its prover. */
  function ProverSecrets(i: nat, s: Scalar, x: Scalar): (r: map<Name, Scalar>)
    ensures NAME_S in r && r[NAME_S] == s && Namex(i) in r && r[Namex(i)] == x
  {
    assert Namex(i)[0] == 120 && NAME_S[0] == 115;
    map[NAME_S := s, Namex(i) := x]
  }

  /** The predicate built from named parts means: some client of the context satisfies PKclient. */
  lemma PredicateMeansPKClient(
    q: nat, c: Context, initial: InitialTagAndCommitments, p: Predicate, pval: map<Name, Point>)
    requires 0 < q && |c.X| <= |c.H| && |initial.sCommits| > 0
    requires p == Or(Clauses(|c.X|)) && IsPublic(pval, c, initial, |c.X|)
    ensures (exists sval :: Holds(q, p, pval, sval)) <==> PKClient(q, c, initial)
  {
    if sval :| Holds(q, p, pval, sval) {
      var i :| 0 <= i < |p.any| && Holds(q, p.any[i], pval, sval);
      ClauseHolds(q, c, initial, pval, sval, i);
      assert PKClientFor(q, c, initial, i, sval[NAME_S], sval[Namex(i)]);
    }
    if PKClient(q, c, initial) {
      var i: nat, s: Scalar, x: Scalar :| PKClientFor(q, c, initial, i, s, x);
      var sval := ProverSecrets(i, s, x);
      ClauseHolds(q, c, initial, pval, sval, i);
      assert Holds(q, p.any[i], pval, sval);
      assert Holds(q, p, pval, sval);
    }
  }

  // ----- Acceptance -----

  predicate ClientProofAccepted(suite: Suite, c: Context, p: ClientProof, initial: InitialTagAndCommitments) {
    && |c.X| > 1
    && SignaturesAccepted(suite, c.Y, ChallengeBytes(suite, p.cs.cs, p.t), p.cs.sigs)
    && |p.t| == 3 * |c.X| && |p.r| == 2 * |c.X|
    && suite.pkVerdict(c, initial, p)
  }

  predicate RequestAccepted(suite: Suite, m: AuthenticationMessage) {
    WellFormedRequest(m) && ClientProofAccepted(suite, m.context, m.p0, m.initial)
  }

  /** The proof library's verifier is sound: what it accepts is true of some client. */
  ghost predicate PkSound(suite: Suite)
    requires 0 < suite.q
  {
    forall c, initial, p :: suite.pkVerdict(c, initial, p) ==> PKClient(suite.q, c, initial)
  }

  /** What an accepted request stands for: some client of at least two knows its key, and one scalar links
      its generator to T0 and the base to the end of a commitment chain that starts with the base. */
  lemma AcceptedRequestMeans(suite: Suite, m: AuthenticationMessage)
    requires 0 < suite.q && PkSound(suite) && RequestAccepted(suite, m)
    ensures |m.initial.sCommits| == |m.context.Y| + 2 && m.initial.sCommits[1] == BASE
    ensures |m.context.X| >= 2 && PKClient(suite.q, m.context, m.initial)
  {
    hide PKClientFor;
    assert suite.pkVerdict(m.context, m.initial, m.p0);
  }

  /** The verifier of a request does not count signatures: without any, whatever challenge the client
      chose is accepted with the proof. */
  lemma UnsignedChallengeAccepted(suite: Suite, m: AuthenticationMessage)
    requires WellFormedRequest(m) && |m.context.X| > 1 && m.p0.cs.sigs == []
    ensures RequestAccepted(suite, m) <==> suite.pkVerdict(m.context, m.initial, m.p0)
  {
  }

  /** When the challenge of an accepted request is one that the servers signed: exactly when it carries
      as many signatures as there are servers, which the caller would have to check. */
  lemma AcceptedChallengeSignedIff(suite: Suite, m: AuthenticationMessage)
    requires RequestAccepted(suite, m)
    ensures SignedOnceByAll(suite, m.context, m.p0.cs, m.p0.t) <==> |m.p0.cs.sigs| == |m.context.Y|
  {
    SignedByAllIffCounted(suite, m.context, m.p0.cs, m.p0.t);
  }

  method ValidateAuthenticationMessage(m: AuthenticationMessage) returns (error: Option<Error>)
    ensures error.None? <==> WellFormedRequest(m)
  {
    var i, j := |m.context.X|, |m.context.Y|;
    if |m.initial.sCommits| != j + 2 {
      return Some(MalformedRequest);
    }
    if m.initial.sCommits[1] != BASE {
      return Some(MalformedRequest);
    }
    if |m.p0.c| != i || |m.p0.r| != 2 * i || |m.p0.t| != 3 * i {
      return Some(MalformedRequest);
    }
    return None;
  }

  method VerifyAuthenticationMessage(suite: Suite, m: AuthenticationMessage) returns (error: Option<Error>)
    requires Permutations.InRange(Signers(m.p0.cs.sigs), |m.context.Y|)
    ensures error.None? <==> RequestAccepted(suite, m)
  {
    error := ValidateAuthenticationMessage(m);
    if error.Some? {
      return;
    }
    if |m.context.X| <= 1 {
      return Some(TooFewClients);
    }
    error := VerifySignatures(suite, m.p0.cs, m.context.Y, m.p0.t);
    if error.Some? {
      return;
    }
    if !suite.pkVerdict(m.context, m.initial, m.p0) {
      return Some(RejectedProof);
    }
  }
}

/** The two zero-knowledge proofs of a server: of its computation, and of a client's misbehaviour. */
module ServerProofs {
  import opened Zq
  import opened Suites
  import opened Encoding

  // ----- Proof of a server's computation -----

  /** What a server proves about: the tag before and after, the commitment R to its round secret,
      and two consecutive entries of the client's commitment chain. */
  datatype Statement = Statement(tPrev: Point, t: Point, R: Point, sPrev: Point, s: Point)

  ghost predicate StatementBelow(q: nat, st: Statement) {
    st.tPrev < q && st.t < q && st.R < q && st.sPrev < q && st.s < q
  }

  /** The server knows the round secret r behind R and the secret s behind the chain step,
      and the tag was raised to r/s. */
  ghost predicate StepRelation(q: nat, st: Statement, r: Scalar, s: Scalar)
    requires 0 < q
  {
    st.R == Mul(q, r, BASE) && st.s == Mul(q, s, st.sPrev) && Mul(q, r, st.tPrev) == Mul(q, s, st.t)
  }

  /** The bytes that are hashed: the statement with the base point, and the commitments. */
  function ServerInput(suite: Suite, st: Statement, t: (Point, Point, Point)): bytes
    requires 0 < suite.q
  {
    var enc := suite.pointBytes;
    enc(st.tPrev) + enc(st.t) + enc(st.R) + enc(Mul(suite.q, 1, BASE)) + enc(st.s) + enc(st.sPrev)
      + enc(t.0) + enc(t.1) + enc(t.2)
  }

  function ServerChallenge(suite: Suite, st: Statement, t: (Point, Point, Point)): (c: Scalar)
    requires 0 < suite.q
    ensures c < suite.q
  {
    suite.HashToScalar(ServerInput(suite, st, t))
  }

  /** The commitments that a verifier recomputes from the challenge and the responses. */
  function Recompute(q: nat, st: Statement, c: Scalar, r1: Scalar, r2: Scalar): (Point, Point, Point)
    requires 0 < q
  {
    (Sub(q, Mul(q, r1, st.tPrev), Mul(q, r2, st.t)),
     Add(q, Mul(q, r1, BASE), Mul(q, c, st.R)),
     Add(q, Mul(q, r2, st.sPrev), Mul(q, c, st.s)))
  }

  function GenerateServerProof(suite: Suite, st: Statement, r: Scalar, s: Scalar, v1: Scalar, v2: Scalar): (p: ServerProof)
    requires 0 < suite.q
    ensures p.r2.Some?
  {
    var q := suite.q;
    var t1 := Sub(q, Mul(q, v1, st.tPrev), Mul(q, v2, st.t));
    var t2 := Mul(q, v1, BASE);
    var t3 := Mul(q, v2, st.sPrev);
    var c := ServerChallenge(suite, st, (t1, t2, t3));
    var r1 := Sub(q, v1, Mul(q, c, r));
    var r2 := Sub(q, v2, Mul(q, c, s));
    ServerProof(t1, t2, t3, c, r1, Some(r2))
  }

  predicate VerifyServerProof(suite: Suite, st: Statement, p: ServerProof)
    requires 0 < suite.q
  {
    p.r2.Some? && ServerChallenge(suite, st, Recompute(suite.q, st, p.c, p.r1, p.r2.value)) == p.c
  }

  /** (v - c·x)·P + c·(x·P) = v·P */
  lemma ResponseOpens(q: nat, v: Scalar, c: Scalar, x: Scalar, p: Point)
    requires 0 < q
    ensures Add(q, Mul(q, Sub(q, v, Mul(q, c, x)), p), Mul(q, c, Mul(q, x, p))) == Mul(q, v, p)
  {
    MulSub(q, v, Mul(q, c, x), p);
    MulAssoc(q, c, x, p);
    SubThenAdd(q, Mul(q, v, p), Mul(q, c, Mul(q, x, p)));
  }

  /** With the responses of a prover that knows the secrets, a verifier recomputes its commitments. */
  lemma RecomputedIsCommitted(q: nat, st: Statement, r: Scalar, s: Scalar, v1: Scalar, v2: Scalar, c: Scalar)
    requires 0 < q && StepRelation(q, st, r, s)
    ensures
      Recompute(q, st, c, Sub(q, v1, Mul(q, c, r)), Sub(q, v2, Mul(q, c, s))) ==
        (Sub(q, Mul(q, v1, st.tPrev), Mul(q, v2, st.t)), Mul(q, v1, BASE), Mul(q, v2, st.sPrev))
  {
    var cr, cs := Mul(q, c, r), Mul(q, c, s);
    MulSub(q, v1, cr, st.tPrev);
    MulSub(q, v2, cs, st.t);
    MulAssoc(q, c, r, st.tPrev);
    MulAssoc(q, c, s, st.t);
    SubSame(q, Mul(q, v1, st.tPrev), Mul(q, v2, st.t), Mul(q, c, Mul(q, r, st.tPrev)));
    ResponseOpens(q, v1, c, r, BASE);
    ResponseOpens(q, v2, c, s, st.sPrev);
  }

  /** Whoever knows the secrets of a true statement produces an accepted proof. */
  lemma ServerProofCompleteness(suite: Suite, st: Statement, r: Scalar, s: Scalar, v1: Scalar, v2: Scalar)
    requires 0 < suite.q && StepRelation(suite.q, st, r, s)
    ensures VerifyServerProof(suite, st, GenerateServerProof(suite, st, r, s, v1, v2))
  {
    hide Mul;
    RecomputedIsCommitted(suite.q, st, r, s, v1, v2, GenerateServerProof(suite, st, r, s, v1, v2).c);
  }

  /** Two responses for the same commitment and different challenges reveal its witness. */
  lemma ExtractWitness(q: nat, P: Point, Q: Point, c: Scalar, c': Scalar, r: Scalar, r': Scalar)
    requires Prime(q) && P < q && Q < q && c < q && c' < q && c != c'
    requires Add(q, Mul(q, r, P), Mul(q, c, Q)) == Add(q, Mul(q, r', P), Mul(q, c', Q))
    ensures
      var d := Inv(q, Sub(q, c', c));
      0 < d && 0 < Sub(q, c', c) &&
      Mul(q, Sub(q, c', c), Q) == Mul(q, Sub(q, r, r'), P) &&
      Q == Mul(q, Mul(q, d, Sub(q, r, r')), P)
  {
    SumToDifference(q, Mul(q, r, P), Mul(q, c, Q), Mul(q, r', P), Mul(q, c', Q));
    MulSub(q, r, r', P);
    MulSub(q, c', c, Q);
    SubIsZero(q, c', c);
    var e := Sub(q, c', c);
    InvIsInverse(q, e);
    InvCancels(q, e, Q);
    MulAssoc(q, Inv(q, e), Sub(q, r, r'), P);
  }

  /** Special soundness: two accepted transcripts with the same recomputed commitments and
      different challenges yield the secrets of the statement. */
  lemma ServerProofSoundness(
    q: nat, st: Statement, c: Scalar, r1: Scalar, r2: Scalar, c': Scalar, r1': Scalar, r2': Scalar)
    returns (r: Scalar, s: Scalar)
    requires Prime(q) && StatementBelow(q, st)
    requires c < q && c' < q && c != c'
    requires Recompute(q, st, c, r1, r2) == Recompute(q, st, c', r1', r2')
    ensures StepRelation(q, st, r, s)
  {
    ExtractWitness(q, BASE, st.R, c, c', r1, r1');
    ExtractWitness(q, st.sPrev, st.s, c, c', r2, r2');
    var d := Inv(q, Sub(q, c', c));
    r, s := Mul(q, d, Sub(q, r1, r1')), Mul(q, d, Sub(q, r2, r2'));
    DifferenceToDifference(q, Mul(q, r1, st.tPrev), Mul(q, r2, st.t), Mul(q, r1', st.tPrev), Mul(q, r2', st.t));
    MulSub(q, r1, r1', st.tPrev);
    MulSub(q, r2, r2', st.t);
    MulAssoc(q, d, Sub(q, r1, r1'), st.tPrev);
    MulAssoc(q, d, Sub(q, r2, r2'), st.t);
  }

  /** The commitments of a statement's proof, and the statement itself, can be read off the hashed bytes. */
  lemma ServerInputInjective(
    suite: Suite, st: Statement, t: (Point, Point, Point), st': Statement, t': (Point, Point, Point))
    requires suite.Valid() && suite.Decodable() && StatementBelow(suite.q, st) && StatementBelow(suite.q, st')
    requires t.0 < suite.q && t.1 < suite.q && t.2 < suite.q && t'.0 < suite.q && t'.1 < suite.q && t'.2 < suite.q
    requires ServerInput(suite, st, t) == ServerInput(suite, st', t')
    ensures st == st' && t == t'
  {
    hide Mul;
    var base := Mul(suite.q, 1, BASE);
    ConcatOfNine(suite.pointBytes, st.tPrev, st.t, st.R, base, st.s, st.sPrev, t.0, t.1, t.2);
    ConcatOfNine(suite.pointBytes, st'.tPrev, st'.t, st'.R, base, st'.s, st'.sPrev, t'.0, t'.1, t'.2);
    var xs := [st.tPrev, st.t, st.R, base, st.s, st.sPrev, t.0, t.1, t.2];
    var ys := [st'.tPrev, st'.t, st'.R, base, st'.s, st'.sPrev, t'.0, t'.1, t'.2];
    ConcatInjective(suite.q, suite.pointBytes, suite.pointOf, xs, ys);
    assert xs[0] == ys[0] && xs[1] == ys[1] && xs[2] == ys[2] && xs[4] == ys[4] && xs[5] == ys[5];
    assert xs[6] == ys[6] && xs[7] == ys[7] && xs[8] == ys[8];
  }

  /** Two accepted proofs of one statement with the same recomputed commitments have the same challenge:
      no prover can answer twice, unless it meets another hash function. */
  lemma AcceptedChallengeIsFixed(suite: Suite, st: Statement, p: ServerProof, p': ServerProof)
    requires 0 < suite.q && VerifyServerProof(suite, st, p) && VerifyServerProof(suite, st, p')
    ensures p.r2.Some? && p'.r2.Some?
    ensures
      Recompute(suite.q, st, p.c, p.r1, p.r2.value) == Recompute(suite.q, st, p'.c, p'.r1, p'.r2.value) ==> p.c == p'.c
  {
    hide Mul;
  }

  /** Rewinding: a prover that is accepted under two hash functions, which answer its commitments
      differently, knows the secrets of the statement. */
  lemma AcceptedTwiceYieldsSecrets(
    suite: Suite, hash': bytes -> nat, st: Statement, p: ServerProof, p': ServerProof)
    returns (r: Scalar, s: Scalar)
    requires suite.Valid() && StatementBelow(suite.q, st)
    requires VerifyServerProof(suite, st, p) && VerifyServerProof(suite.(hash := hash'), st, p')
    requires Recompute(suite.q, st, p.c, p.r1, p.r2.value) == Recompute(suite.q, st, p'.c, p'.r1, p'.r2.value)
    requires
      var input := ServerInput(suite, st, Recompute(suite.q, st, p.c, p.r1, p.r2.value));
      suite.HashToScalar(input) != suite.(hash := hash').HashToScalar(input)
    ensures StepRelation(suite.q, st, r, s)
  {
    hide Mul, StatementBelow, Recompute;
    r, s := ServerProofSoundness(suite.q, st, p.c, p.r1, p.r2.value, p'.c, p'.r1, p'.r2.value);
  }

  /** Whether the challenge of one accepted proof is good for another statement or other responses: exactly
      when these lead to the same statement and commitments, or the digests of two different inputs collide. */
  lemma ChallengeReusedIff(suite: Suite, st: Statement, p: ServerProof, st': Statement, p': ServerProof)
    requires suite.Valid() && suite.Decodable() && StatementBelow(suite.q, st) && StatementBelow(suite.q, st')
    requires VerifyServerProof(suite, st, p) && p'.c == p.c && p'.r2.Some?
    ensures
      var q := suite.q;
      var t, t' := Recompute(q, st, p.c, p.r1, p.r2.value), Recompute(q, st', p'.c, p'.r1, p'.r2.value);
      VerifyServerProof(suite, st', p') <==>
        (st' == st && t' == t) || Collide(suite, ServerInput(suite, st, t), ServerInput(suite, st', t'))
  {
    hide Mul, ServerInput, Inverts;
    var q := suite.q;
    var t, t' := Recompute(q, st, p.c, p.r1, p.r2.value), Recompute(q, st', p'.c, p'.r1, p'.r2.value);
    SameDigestIff(suite, ServerInput(suite, st, t), ServerInput(suite, st', t'));
    if ServerInput(suite, st, t) == ServerInput(suite, st', t') {
      ServerInputInjective(suite, st, t, st', t');
    }
  }

  /** A proof made for a true statement is accepted for that statement and, but for collisions, for no
      other. */
  lemma ServerProofAcceptedIff(
    suite: Suite, st: Statement, st': Statement, r: Scalar, s: Scalar, v1: Scalar, v2: Scalar)
    requires suite.Valid() && suite.Decodable() && StatementBelow(suite.q, st) && StatementBelow(suite.q, st')
    requires StepRelation(suite.q, st, r, s)
    ensures
      var q, p := suite.q, GenerateServerProof(suite, st, r, s, v1, v2);
      VerifyServerProof(suite, st', p) <==>
        st' == st ||
        Collide(suite, ServerInput(suite, st, Recompute(q, st, p.c, p.r1, p.r2.value)),
          ServerInput(suite, st', Recompute(q, st', p.c, p.r1, p.r2.value)))
  {
    hide Mul, Inverts, VerifyServerProof, GenerateServerProof, StepRelation;
    var p := GenerateServerProof(suite, st, r, s, v1, v2);
    ServerProofCompleteness(suite, st, r, s, v1, v2);
    ChallengeReusedIff(suite, st, p, st', p);
  }

  /** x + y - y = x */
  lemma AddThenSub(q: nat, x: nat, y: nat)
    requires x < q
    ensures Sub(q, Add(q, x, y), y) == x
  {
    AddIsMod(q, x, y);
    AddIsMod(q, (x + y) % q, y);
    ModAdd(q, x + y, y);
    Small(q, x);
  }

  /** Zero knowledge for an honest verifier: whatever challenge and responses a simulator chooses, the
      commitments that it computes from them are those of a prover with suitable coins, which has the same
      responses to that challenge. */
  lemma SimulatedIsReal(q: nat, st: Statement, r: Scalar, s: Scalar, c: Scalar, r1: Scalar, r2: Scalar)
    returns (v1: Scalar, v2: Scalar)
    requires 0 < q && StepRelation(q, st, r, s) && r1 < q && r2 < q
    ensures Sub(q, v1, Mul(q, c, r)) == r1 && Sub(q, v2, Mul(q, c, s)) == r2
    ensures
      Recompute(q, st, c, r1, r2) ==
        (Sub(q, Mul(q, v1, st.tPrev), Mul(q, v2, st.t)), Mul(q, v1, BASE), Mul(q, v2, st.sPrev))
  {
    v1, v2 := Add(q, r1, Mul(q, c, r)), Add(q, r2, Mul(q, c, s));
    AddThenSub(q, r1, Mul(q, c, r));
    AddThenSub(q, r2, Mul(q, c, s));
    RecomputedIsCommitted(q, st, r, s, v1, v2, c);
  }

  // ----- Proof of a client's misbehaviour -----

  /** The server's key and its disclosed Diffie-Hellman value with Z have the same logarithm. */
  ghost predicate SameSecret(q: nat, key: Point, Z: Point, Zs: Point, y: Scalar)
    requires 0 < q
  {
    key == Mul(q, y, BASE) && Zs == Mul(q, y, Z)
  }

  function MisbehavingInput(suite: Suite, key: Point, Z: Point, Zs: Point, t: (Point, Point)): bytes
    requires 0 < suite.q
  {
    var enc := suite.pointBytes;
    enc(Zs) + enc(Z) + enc(key) + enc(Mul(suite.q, 1, BASE)) + enc(t.0) + enc(t.1)
  }

  function RecomputeMisbehaving(q: nat, key: Point, Z: Point, Zs: Point, c: Scalar, r: Scalar): (Point, Point)
    requires 0 < q
  {
    (Add(q, Mul(q, r, Z), Mul(q, c, Zs)), Add(q, Mul(q, r, BASE), Mul(q, c, key)))
  }

  function GenerateMisbehavingProof(suite: Suite, Z: Point, server: Identity, v: Scalar): (p: ServerProof)
    requires 0 < suite.q
    ensures p.r2.None?
  {
    var q := suite.q;
    var Zs := Mul(q, server.privateKey, Z);
    var t1, t2 := Mul(q, v, Z), Mul(q, v, BASE);
    var c := suite.HashToScalar(MisbehavingInput(suite, server.PublicKey(q), Z, Zs, (t1, t2)));
    var r := Sub(q, v, Mul(q, c, server.privateKey));
    ServerProof(t1, t2, Zs, c, r, None)
  }

  predicate VerifyMisbehavingProof(suite: Suite, key: Point, p: ServerProof, Z: Point)
    requires 0 < suite.q
  {
    && p.r2.None?
    && suite.HashToScalar(MisbehavingInput(suite, key, Z, p.t3, RecomputeMisbehaving(suite.q, key, Z, p.t3, p.c, p.r1))) == p.c
  }

  lemma MisbehavingProofCompleteness(suite: Suite, Z: Point, server: Identity, v: Scalar)
    requires 0 < suite.q
    ensures VerifyMisbehavingProof(suite, server.PublicKey(suite.q), GenerateMisbehavingProof(suite, Z, server, v), Z)
  {
    var p := GenerateMisbehavingProof(suite, Z, server, v);
    ResponseOpens(suite.q, v, p.c, server.privateKey, Z);
    ResponseOpens(suite.q, v, p.c, server.privateKey, BASE);
  }

  /** Special soundness of the misbehaviour proof: a single y explains both points. */
  lemma MisbehavingProofSoundness(
    q: nat, key: Point, Z: Point, Zs: Point, c: Scalar, r: Scalar, c': Scalar, r': Scalar)
    returns (y: Scalar)
    requires Prime(q) && key < q && Z < q && Zs < q
    requires c < q && c' < q && c != c'
    requires RecomputeMisbehaving(q, key, Z, Zs, c, r) == RecomputeMisbehaving(q, key, Z, Zs, c', r')
    ensures SameSecret(q, key, Z, Zs, y)
  {
    ExtractWitness(q, Z, Zs, c, c', r, r');
    ExtractWitness(q, BASE, key, c, c', r, r');
    y := Mul(q, Inv(q, Sub(q, c', c)), Sub(q, r, r'));
  }

  /** What the server that complains hashes, and what a verifier with some key hashes of its proof. */
  function ProvedInput(suite: Suite, Z: Point, server: Identity, v: Scalar): bytes
    requires 0 < suite.q
  {
    var q := suite.q;
    MisbehavingInput(suite, server.PublicKey(q), Z, Mul(q, server.privateKey, Z), (Mul(q, v, Z), Mul(q, v, BASE)))
  }

  function CheckedInput(suite: Suite, key: Point, Z: Point, server: Identity, v: Scalar): bytes
    requires 0 < suite.q
  {
    var p := GenerateMisbehavingProof(suite, Z, server, v);
    MisbehavingInput(suite, key, Z, p.t3, RecomputeMisbehaving(suite.q, key, Z, p.t3, p.c, p.r1))
  }

  /** Both hash different inputs to the same scalar. */
  predicate DigestsCollide(suite: Suite, key: Point, Z: Point, server: Identity, v: Scalar)
    requires 0 < suite.q
  {
    Collide(suite, ProvedInput(suite, Z, server, v), CheckedInput(suite, key, Z, server, v))
  }

  /** Key, Z, the disclosed value and the commitments can be read off the hashed bytes. */
  lemma MisbehavingInputInjective(
    suite: Suite, key: Point, Z: Point, Zs: Point, t: (Point, Point), key': Point, Z': Point, Zs': Point, t': (Point, Point))
    requires suite.Valid() && suite.Decodable()
    requires key < suite.q && Z < suite.q && Zs < suite.q && t.0 < suite.q && t.1 < suite.q
    requires key' < suite.q && Z' < suite.q && Zs' < suite.q && t'.0 < suite.q && t'.1 < suite.q
    requires MisbehavingInput(suite, key, Z, Zs, t) == MisbehavingInput(suite, key', Z', Zs', t')
    ensures key == key' && Z == Z' && Zs == Zs' && t == t'
  {
    hide Mul;
    var base := Mul(suite.q, 1, BASE);
    ConcatOfSix(suite.pointBytes, Zs, Z, key, base, t.0, t.1);
    ConcatOfSix(suite.pointBytes, Zs', Z', key', base, t'.0, t'.1);
    var xs, ys := [Zs, Z, key, base, t.0, t.1], [Zs', Z', key', base, t'.0, t'.1];
    ConcatInjective(suite.q, suite.pointBytes, suite.pointOf, xs, ys);
    assert xs[0] == ys[0] && xs[1] == ys[1] && xs[2] == ys[2] && xs[4] == ys[4] && xs[5] == ys[5];
  }

  /** Whether the challenge of one accepted proof is good for another key, client or disclosed value, or for
      another response. */
  lemma MisbehavingChallengeReusedIff(
    suite: Suite, key: Point, Z: Point, p: ServerProof, key': Point, Z': Point, p': ServerProof)
    requires suite.Valid() && suite.Decodable()
    requires key < suite.q && Z < suite.q && p.t3 < suite.q && key' < suite.q && Z' < suite.q && p'.t3 < suite.q
    requires VerifyMisbehavingProof(suite, key, p, Z) && p'.c == p.c && p'.r2.None?
    ensures
      var q := suite.q;
      var t, t' := RecomputeMisbehaving(q, key, Z, p.t3, p.c, p.r1), RecomputeMisbehaving(q, key', Z', p'.t3, p'.c, p'.r1);
      VerifyMisbehavingProof(suite, key', p', Z') <==>
        (key' == key && Z' == Z && p'.t3 == p.t3 && t' == t)
        || Collide(suite, MisbehavingInput(suite, key, Z, p.t3, t), MisbehavingInput(suite, key', Z', p'.t3, t'))
  {
    hide Mul, MisbehavingInput, Inverts;
    var q := suite.q;
    var t, t' := RecomputeMisbehaving(q, key, Z, p.t3, p.c, p.r1), RecomputeMisbehaving(q, key', Z', p'.t3, p'.c, p'.r1);
    SameDigestIff(suite, MisbehavingInput(suite, key, Z, p.t3, t), MisbehavingInput(suite, key', Z', p'.t3, t'));
    if MisbehavingInput(suite, key, Z, p.t3, t) == MisbehavingInput(suite, key', Z', p'.t3, t') {
      MisbehavingInputInjective(suite, key, Z, p.t3, t, key', Z', p'.t3, t');
    }
  }

  /** Different keys lead to different inputs, whatever Z is. */
  lemma InputsDiffer(suite: Suite, key: Point, key': Point, Z: Point, Zs: Point, t: (Point, Point), t': (Point, Point))
    requires suite.Valid() && suite.Decodable() && key < suite.q && key' < suite.q && key != key'
    ensures MisbehavingInput(suite, key, Z, Zs, t) != MisbehavingInput(suite, key', Z, Zs, t')
  {
    var a, b := MisbehavingInput(suite, key, Z, Zs, t), MisbehavingInput(suite, key', Z, Zs, t');
    assert a[2 * UNIT..3 * UNIT] == suite.pointBytes(key);
    assert b[2 * UNIT..3 * UNIT] == suite.pointBytes(key');
    assert suite.pointOf(suite.pointBytes(key)) == key && suite.pointOf(suite.pointBytes(key')) == key';
  }

  /** The callers verify a misbehaviour proof with the key at the proof's position in the message. They
      accept an honestly generated proof exactly when that key is the key of the server that made it,
      or the digests of two different inputs happen to collide. */
  lemma MisbehavingProofAcceptedIff(suite: Suite, key: Point, Z: Point, server: Identity, v: Scalar)
    requires suite.Valid() && suite.Decodable() && key < suite.q
    ensures VerifyMisbehavingProof(suite, key, GenerateMisbehavingProof(suite, Z, server, v), Z)
      <==> key == server.PublicKey(suite.q) || DigestsCollide(suite, key, Z, server, v)
  {
    var q := suite.q;
    var own := server.PublicKey(q);
    if key == own {
      MisbehavingProofCompleteness(suite, Z, server, v);
    } else {
      var p := GenerateMisbehavingProof(suite, Z, server, v);
      InputsDiffer(suite, own, key, Z, p.t3, (Mul(q, v, Z), Mul(q, v, BASE)),
        RecomputeMisbehaving(q, key, Z, p.t3, p.c, p.r1));
      SameDigestIff(suite, ProvedInput(suite, Z, server, v), CheckedInput(suite, key, Z, server, v));
    }
  }

  predicate AcceptedUnderHash(suite: Suite, h: bytes -> nat, key: Point, Z: Point, server: Identity, v: Scalar)
    requires 0 < suite.q
  {
    var other := suite.(hash := h);
    VerifyMisbehavingProof(other, key, GenerateMisbehavingProof(other, Z, server, v), Z)
  }

  /** Whatever the hash function, only the own key will do. */
  lemma MisbehavingProofAcceptedIffOwnKey(suite: Suite, key: Point, Z: Point, server: Identity, v: Scalar)
    requires suite.Valid() && suite.Decodable() && key < suite.q
    ensures
      (forall h :: AcceptedUnderHash(suite, h, key, Z, server, v)) <==> key == server.PublicKey(suite.q)
  {
    if key == server.PublicKey(suite.q) {
      forall h
        ensures AcceptedUnderHash(suite, h, key, Z, server, v)
      {
        MisbehavingProofCompleteness(suite.(hash := h), Z, server, v);
      }
    } else {
      var proved := ProvedInput(suite, Z, server, v);
      var h := (data: bytes) => if data == proved then 1 else 0;
      Small(suite.q, 1);
      Small(suite.q, 0);
      MisbehavingProofAcceptedIff(suite.(hash := h), key, Z, server, v);
      assert !AcceptedUnderHash(suite, h, key, Z, server, v);
    }
  }
}

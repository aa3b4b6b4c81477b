/** What the package asks of its cryptographic suite, and the messages exchanged under it. */
module Suites {
  import opened Zq

  type byte = b: nat | b < 256
  type bytes = seq<byte>

  datatype Option<+T> = None | Some(value: T)

  datatype Error =
    | BadContext | TooFewClients | MalformedRequest | RejectedProof
    | EmptyMessage | DuplicateSignature | BadSignature | BadServerProof | TooManyCalls
    | BadCommitment | BadOpening | BadCount | ChallengeMismatch | InvalidInputs
    | UnknownService | UnknownContext | ContextNotAccepted | ContextExists | ProtocolFailed

  datatype Result<+T> = Ok(value: T) | Err(error: Error)

  /** The size in bytes of a marshalled point or scalar. */
  const UNIT := 32

  /** A concrete suite: a group of order q, a hash, encodings and a signature scheme.
      `sign` takes the private key, the message and the random nonce of the signature.
      `pkVerdict` is the answer of the proof library's verifier for the PKclient predicate. */
  datatype Suite = Suite(
    q: nat,
    hash: bytes -> nat,
    pointBytes: Point -> bytes,
    scalarBytes: Scalar -> bytes,
    pointOf: bytes -> Point,
    scalarOf: bytes -> Scalar,
    sign: (Scalar, bytes, Scalar) -> bytes,
    verify: (Point, bytes, bytes) -> bool,
    pkVerdict: (Context, InitialTagAndCommitments, ClientProof) -> bool)
  {
    ghost predicate Valid() {
      && Prime(q)
      && (forall p: Point :: |pointBytes(p)| == UNIT)
      && (forall s: Scalar :: |scalarBytes(s)| == UNIT)
      && (forall x: Scalar, m: bytes, n: Scalar :: |sign(x, m, n)| > 0)
      && (forall x: Scalar, m: bytes, n: Scalar :: |m| > 0 ==> verify(Mul(q, x, BASE), m, sign(x, m, n)))
    }

    /** Unmarshalling inverts marshalling on group elements and on reduced scalars. */
    ghost predicate Decodable() {
      Inverts(q, pointBytes, pointOf) && Inverts(q, scalarBytes, scalarOf)
    }

    /** A digest read as a scalar. */
    function HashToScalar(data: bytes): (r: Scalar)
      requires 0 < q
      ensures r < q
    {
      Reduce(q, hash(data))
    }

    /** The input checks of the signature wrappers are part of their verdict. */
    predicate SchnorrVerify(key: Point, msg: bytes, sig: bytes) {
      |msg| > 0 && |sig| > 0 && verify(key, msg, sig)
    }

    function SchnorrSign(key: Scalar, msg: bytes, nonce: Scalar): (r: Result<bytes>)
      ensures r.Ok? <==> |msg| > 0
      ensures Valid() && r.Ok? ==> SchnorrVerify(Mul(q, key, BASE), msg, r.value)
    {
      if |msg| == 0 then Err(EmptyMessage) else Ok(sign(key, msg, nonce))
    }
  }

  /** The inputs differ, but their digests are the same scalar. */
  predicate Collide(suite: Suite, a: bytes, b: bytes)
    requires 0 < suite.q
  {
    a != b && suite.hash(a) % suite.q == suite.hash(b) % suite.q
  }

  lemma SameDigestIff(suite: Suite, a: bytes, b: bytes)
    requires 0 < suite.q
    ensures suite.HashToScalar(a) == suite.HashToScalar(b) <==> a == b || Collide(suite, a, b)
  {
    ReduceIsMod(suite.q, suite.hash(a));
    ReduceIsMod(suite.q, suite.hash(b));
  }

  /** One signature verifies for two different messages. */
  predicate Reused(suite: Suite, key: Point, a: bytes, b: bytes, sig: bytes) {
    a != b && suite.verify(key, a, sig) && suite.verify(key, b, sig)
  }

  lemma IsPrime(suite: Suite)
    requires suite.Valid()
    ensures Prime(suite.q)
  {
  }

  /** The public keys of clients (X) and servers (Y), the servers' commitments to their
      round secrets (R) and the clients' round generators (H). */
  datatype Context = Context(X: seq<Point>, Y: seq<Point>, R: seq<Point>, H: seq<Point>)

  predicate ValidContext(c: Context) {
    |c.X| == |c.H| && |c.Y| == |c.R| && |c.X| != 0 && |c.Y| != 0
  }

  datatype InitialTagAndCommitments = InitialTagAndCommitments(sCommits: seq<Point>, t0: Point)

  datatype ServerSignature = ServerSignature(index: int, sig: bytes)

  datatype Challenge = Challenge(cs: Scalar, sigs: seq<ServerSignature>)

  datatype ClientProof = ClientProof(cs: Challenge, t: seq<Point>, c: seq<Scalar>, r: seq<Scalar>)

  datatype AuthenticationMessage =
    AuthenticationMessage(context: Context, initial: InitialTagAndCommitments, p0: ClientProof)

  /** The shape an authentication message must have: S = (Z, G, S1, .., Sm) has an entry for every
      server and starts with the base point, and the proof has the sizes the clients call for. */
  predicate WellFormedRequest(m: AuthenticationMessage) {
    && |m.initial.sCommits| == |m.context.Y| + 2
    && m.initial.sCommits[1] == BASE
    && |m.p0.c| == |m.context.X|
    && |m.p0.r| == 2 * |m.context.X|
    && |m.p0.t| == 3 * |m.context.X|
  }

  /** A server's proof; a missing r2 marks the proof of a misbehaving client. */
  datatype ServerProof =
    ServerProof(t1: Point, t2: Point, t3: Point, c: Scalar, r1: Scalar, r2: Option<Scalar>)

  /** A server: its index in the context, its key pair's private part and its round secret. */
  datatype Identity = Identity(index: nat, privateKey: Scalar, roundSecret: Scalar)
  {
    function PublicKey(q: nat): (r: Point)
      requires 0 < q
    {
      Mul(q, privateKey, BASE)
    }
  }

  ghost predicate Inverts(q: nat, enc: nat -> bytes, dec: bytes -> nat) {
    forall x: nat :: x < q ==> dec(enc(x)) == x
  }

  ghost predicate AllBelow(q: nat, xs: seq<nat>) {
    forall i :: 0 <= i < |xs| ==> xs[i] < q
  }
}

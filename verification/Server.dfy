/** The servers' message and the step each server takes on it. */
module ServerSide {
  import opened Zq
  import opened Suites
  import opened Encoding
  import Permutations
  import opened Challenges
  import opened ClientProofs
  import opened ClientSide
  import opened ServerProofs

  // ----- The log of a message -----

  /** What one server adds to the message: its tag, proof, index and signature. */
  datatype Entry = Entry(tag: Point, proof: ServerProof, index: int, sig: ServerSignature)

  type Log = seq<Entry>

  function EntryBytes(suite: Suite, tag: Point, proof: ServerProof, index: int): bytes {
    suite.pointBytes(tag) + ServerProofBytes(suite, proof) + Itoa(index)
  }

  /** The bytes under the signature of server n - 1: the request and the first n entries. */
  function LogBytes(suite: Suite, m: AuthenticationMessage, log: Log, n: nat): bytes
    requires n <= |log|
  {
    if n == 0 then RequestBytes(suite, m)
    else LogBytes(suite, m, log, n - 1) + EntryBytes(suite, log[n - 1].tag, log[n - 1].proof, log[n - 1].index)
  }

  /** The tag before entry i. */
  function TagBefore(m: AuthenticationMessage, log: Log, i: nat): Point
    requires i <= |log|
  {
    if i == 0 then m.initial.t0 else log[i - 1].tag
  }

  /** Everything that is looked up by an index is there: the key of every signature, the server of every
      proof of a computation, and the key at the position of every misbehaviour proof. */
  predicate LogInRange(c: Context, log: Log) {
    forall i :: 0 <= i < |log| ==>
      && 0 <= log[i].sig.index < |c.Y|
      && if log[i].proof.r2.Some? then 0 <= log[i].index < |c.Y| else i < |c.Y|
  }

  /** The context and the commitments have an entry for every server. */
  predicate Shaped(c: Context, m: AuthenticationMessage) {
    |c.R| == |c.Y| && |m.initial.sCommits| == |c.Y| + 2
  }

  function StatementOf(c: Context, m: AuthenticationMessage, tPrev: Point, t: Point, index: int): Statement
    requires Shaped(c, m) && 0 <= index < |c.Y|
  {
    Statement(tPrev, t, c.R[index], m.initial.sCommits[index + 1], m.initial.sCommits[index + 2])
  }

  predicate SignatureAccepted(suite: Suite, c: Context, m: AuthenticationMessage, log: Log, i: nat)
    requires i < |log|
  {
    SignedBy(suite, c.Y, LogBytes(suite, m, log, i + 1), log[i].sig)
  }

  /** A misbehaviour proof is checked with the key at its position in the log. */
  predicate ProofAccepted(suite: Suite, c: Context, m: AuthenticationMessage, log: Log, i: nat)
    requires 0 < suite.q && i < |log| && Shaped(c, m) && LogInRange(c, log)
  {
    if log[i].proof.r2.None? then
      VerifyMisbehavingProof(suite, c.Y[i], log[i].proof, m.initial.sCommits[0])
    else
      VerifyServerProof(suite, StatementOf(c, m, TagBefore(m, log, i), log[i].tag, log[i].index), log[i].proof)
  }

  /** The first n signatures and the first n proofs of a log. */
  predicate SignaturesAcceptedUpTo(suite: Suite, c: Context, m: AuthenticationMessage, log: Log, n: nat)
    requires n <= |log|
  {
    n == 0 || (SignaturesAcceptedUpTo(suite, c, m, log, n - 1) && SignatureAccepted(suite, c, m, log, n - 1))
  }

  predicate ProofsAcceptedUpTo(suite: Suite, c: Context, m: AuthenticationMessage, log: Log, n: nat)
    requires 0 < suite.q && n <= |log| && Shaped(c, m) && LogInRange(c, log)
  {
    n == 0 || (ProofsAcceptedUpTo(suite, c, m, log, n - 1) && ProofAccepted(suite, c, m, log, n - 1))
  }

  predicate LogAccepted(suite: Suite, c: Context, m: AuthenticationMessage, log: Log)
    requires 0 < suite.q
  {
    && Shaped(c, m) && LogInRange(c, log)
    && SignaturesAcceptedUpTo(suite, c, m, log, |log|)
    && ProofsAcceptedUpTo(suite, c, m, log, |log|)
  }

  lemma {:induction false} SignaturesAcceptedAt(suite: Suite, c: Context, m: AuthenticationMessage, log: Log, n: nat, i: nat)
    requires i < n <= |log| && SignaturesAcceptedUpTo(suite, c, m, log, n)
    ensures SignatureAccepted(suite, c, m, log, i)
  {
    hide EntryBytes;
    if i < n - 1 {
      SignaturesAcceptedAt(suite, c, m, log, n - 1, i);
    }
  }

  lemma {:induction false} ProofsAcceptedAt(suite: Suite, c: Context, m: AuthenticationMessage, log: Log, n: nat, i: nat)
    requires 0 < suite.q && i < n <= |log| && Shaped(c, m) && LogInRange(c, log)
    requires ProofsAcceptedUpTo(suite, c, m, log, n)
    ensures ProofAccepted(suite, c, m, log, i)
  {
    if i < n - 1 {
      ProofsAcceptedAt(suite, c, m, log, n - 1, i);
    }
  }

  // ----- The step of a server -----

  /** The random choices of one step. */
  datatype Coins = Coins(v1: Scalar, v2: Scalar, v: Scalar, nonce: Scalar)

  /** The secret the server shares with the client. */
  function ServerSecret(suite: Suite, m: AuthenticationMessage, server: Identity): (s: Scalar)
    requires 0 < suite.q && |m.initial.sCommits| > 0
    ensures s < suite.q
  {
    SharedSecret(suite, server.privateKey, m.initial.sCommits[0])
  }

  /** Whether the server finds its step of the client's commitment chain in order. */
  predicate Behaves(suite: Suite, m: AuthenticationMessage, server: Identity)
    requires 0 < suite.q && server.index + 2 < |m.initial.sCommits|
  {
    CommitmentTest(suite, m.initial, server.index, ServerSecret(suite, m, server))
  }

  function NextTag(suite: Suite, m: AuthenticationMessage, server: Identity, tPrev: Point): (t: Point)
    requires 0 < suite.q && server.index + 2 < |m.initial.sCommits|
    ensures t < suite.q
  {
    if Behaves(suite, m, server) then
      Mul(suite.q, Mul(suite.q, server.roundSecret, Inv(suite.q, ServerSecret(suite, m, server))), tPrev)
    else NULL
  }

  function NextProof(suite: Suite, m: AuthenticationMessage, server: Identity, tPrev: Point, coins: Coins): ServerProof
    requires 0 < suite.q && Shaped(m.context, m) && server.index < |m.context.Y|
  {
    if Behaves(suite, m, server) then
      var st := StatementOf(m.context, m, tPrev, NextTag(suite, m, server, tPrev), server.index);
      GenerateServerProof(suite, st, server.roundSecret, ServerSecret(suite, m, server), coins.v1, coins.v2)
    else GenerateMisbehavingProof(suite, m.initial.sCommits[0], server, coins.v)
  }

  function NextEntry(suite: Suite, m: AuthenticationMessage, log: Log, server: Identity, coins: Coins): Entry
    requires 0 < suite.q && Shaped(m.context, m) && server.index < |m.context.Y|
  {
    var tPrev := TagBefore(m, log, |log|);
    var t := NextTag(suite, m, server, tPrev);
    var p := NextProof(suite, m, server, tPrev, coins);
    var data := LogBytes(suite, m, log, |log|) + EntryBytes(suite, t, p, server.index);
    Entry(t, p, server.index, ServerSignature(server.index, suite.sign(server.privateKey, data, coins.nonce)))
  }

  /** When a server takes part: the request is accepted, not all servers were there already, and
      every earlier signature and proof checks out. */
  predicate StepAccepted(suite: Suite, m: AuthenticationMessage, log: Log)
    requires 0 < suite.q
  {
    RequestAccepted(suite, m) && |log| < |m.context.Y| && LogAccepted(suite, m.context, m, log)
  }

  // ----- The message and the operations on it -----

  method AppendEntry(suite: Suite, data: bytes, tag: Point, proof: ServerProof, index: int) returns (r: bytes)
    ensures r == data + EntryBytes(suite, tag, proof, index)
  {
    r := data + suite.pointBytes(tag);
    r := r + ServerProofBytes(suite, proof);
    r := r + Itoa(index);
  }

  /** The signatures on the client's challenge name servers of the context. */
  predicate InRangeSigners(m: AuthenticationMessage) {
    Permutations.InRange(Signers(m.p0.cs.sigs), |m.context.Y|)
  }

  class ServerMessage {
    var request: AuthenticationMessage
    var tags: seq<Point>
    var proofs: seq<ServerProof>
    var indexes: seq<int>
    var sigs: seq<ServerSignature>

    predicate SameLengths()
      reads this
    {
      |indexes| == |proofs| == |tags| == |sigs|
    }

    function Contents(): (log: Log)
      requires SameLengths()
      reads this
      ensures |log| == |tags|
      ensures forall i :: 0 <= i < |log| ==> log[i] == Entry(tags[i], proofs[i], indexes[i], sigs[i])
    {
      seq(|tags|, i requires 0 <= i < |tags| reads this requires SameLengths() => Entry(tags[i], proofs[i], indexes[i], sigs[i]))
    }

    /** A message for a client's request, before any server worked on it. */
    constructor (request: AuthenticationMessage)
      ensures this.request == request
      ensures SameLengths() && Contents() == []
    {
      this.request := request;
      tags, proofs, indexes, sigs := [], [], [], [];
    }

    /** The signature of every server, over the request and everything up to its own entry. */
    method VerifyLogSignatures(suite: Suite, c: Context) returns (valid: bool, data: bytes)
      requires SameLengths() && LogInRange(c, Contents())
      ensures valid <==> SignaturesAcceptedUpTo(suite, c, request, Contents(), |tags|)
      ensures valid ==> data == LogBytes(suite, request, Contents(), |tags|)
    {
      hide EntryBytes, RequestBytes;
      ghost var log := Contents();
      data := AuthenticationMessageToBytes(suite, request);
      for i := 0 to |indexes|
        invariant data == LogBytes(suite, request, log, i)
        invariant SignaturesAcceptedUpTo(suite, c, request, log, i)
      {
        data := AppendEntry(suite, data, tags[i], proofs[i], indexes[i]);
        if !suite.SchnorrVerify(c.Y[sigs[i].index], data, sigs[i].sig) {
          if SignaturesAcceptedUpTo(suite, c, request, log, |log|) {
            SignaturesAcceptedAt(suite, c, request, log, |log|, i);
          }
          return false, data;
        }
      }
      return true, data;
    }

    /** The check of one proof. A missing r2 marks a misbehaviour proof. */
    method VerifyProofAt(suite: Suite, c: Context, i: nat) returns (valid: bool)
      requires 0 < suite.q && SameLengths() && LogInRange(c, Contents())
      requires Shaped(c, request) && i < |tags|
      ensures valid <==> ProofAccepted(suite, c, request, Contents(), i)
    {
      if proofs[i].r2.None? {
        valid := VerifyMisbehavingProof(suite, c.Y[i], proofs[i], request.initial.sCommits[0]);
      } else {
        var tPrev := if i == 0 then request.initial.t0 else tags[i - 1];
        valid := VerifyServerProof(suite, StatementOf(c, request, tPrev, tags[i], indexes[i]), proofs[i]);
      }
    }

    method VerifyLogProofs(suite: Suite, c: Context) returns (valid: bool)
      requires 0 < suite.q && SameLengths() && LogInRange(c, Contents())
      requires Shaped(c, request)
      ensures valid <==> ProofsAcceptedUpTo(suite, c, request, Contents(), |tags|)
    {
      for i := 0 to |proofs|
        invariant ProofsAcceptedUpTo(suite, c, request, Contents(), i)
      {
        valid := VerifyProofAt(suite, c, i);
        if !valid {
          if ProofsAcceptedUpTo(suite, c, request, Contents(), |tags|) {
            ProofsAcceptedAt(suite, c, request, Contents(), |tags|, i);
          }
          return;
        }
      }
      return true;
    }

    /** The server's own computation on the last tag, honest or in answer to a misbehaving client. */
    method Respond(suite: Suite, server: Identity, coins: Coins) returns (T: Point, proof: ServerProof)
      requires 0 < suite.q && SameLengths() && Shaped(request.context, request) && server.index < |request.context.Y|
      ensures T == NextTag(suite, request, server, TagBefore(request, Contents(), |tags|))
      ensures proof == NextProof(suite, request, server, TagBefore(request, Contents(), |tags|), coins)
    {
      var Z := request.initial.sCommits[0];
      var s := Reduce(suite.q, suite.hash(suite.pointBytes(Mul(suite.q, server.privateKey, Z))));
      var tPrev := if |tags| == 0 then request.initial.t0 else tags[|tags| - 1];
      if request.initial.sCommits[server.index + 2] != Mul(suite.q, s, request.initial.sCommits[server.index + 1]) {
        T := NULL;
        proof := GenerateMisbehavingProof(suite, Z, server, coins.v);
      } else {
        var inv := Inv(suite.q, s);
        var exp := Mul(suite.q, server.roundSecret, inv);
        T := Mul(suite.q, exp, tPrev);
        var st := StatementOf(request.context, request, tPrev, T, server.index);
        proof := GenerateServerProof(suite, st, server.roundSecret, s, coins.v1, coins.v2);
      }
    }

    /** Everything a server checks before its turn, and the bytes that it goes on to sign. */
    method CheckTurn(suite: Suite) returns (error: Option<Error>, data: bytes)
      requires suite.Valid() && |request.context.Y| == |request.context.R| && InRangeSigners(request)
      requires SameLengths() && |tags| < |request.context.Y| ==> LogInRange(request.context, Contents())
      ensures error.None? <==> SameLengths() && StepAccepted(suite, request, Contents())
      ensures error.None? ==> data == LogBytes(suite, request, Contents(), |tags|)
    {
      hide EntryBytes, RequestBytes, Mul, ProofAccepted, SignatureAccepted;
      data := [];
      if !SameLengths() {
        return Some(MalformedRequest), data;
      }
      error := VerifyAuthenticationMessage(suite, request);
      if error.Some? {
        return;
      }
      if |indexes| >= |request.context.Y| {
        return Some(TooManyCalls), data;
      }
      var signed, all := VerifyLogSignatures(suite, request.context);
      if !signed {
        return Some(BadSignature), data;
      }
      var proved := VerifyLogProofs(suite, request.context);
      if !proved {
        return Some(BadServerProof), data;
      }
      data := all;
    }

    /** One server's turn: check everything there is, then append tag, proof, index and signature. */
    method ServerProtocol(suite: Suite, server: Identity, coins: Coins) returns (error: Option<Error>)
      requires suite.Valid()
      requires server.index < |request.context.Y| == |request.context.R|
      requires InRangeSigners(request)
      requires SameLengths() && |tags| < |request.context.Y| ==> LogInRange(request.context, Contents())
      modifies this
      ensures request == old(request)
      ensures error.None? <==> old(SameLengths() && StepAccepted(suite, request, Contents()))
      ensures error.Some? ==> unchanged(this)
      ensures error.None? ==>
        SameLengths() && Contents() == old(Contents()) + [NextEntry(suite, request, old(Contents()), server, coins)]
    {
      hide VerifyServerProof, VerifyMisbehavingProof, NextTag, NextProof, RequestBytes, RequestAccepted, ServerProofBytes,
        SignaturesAcceptedUpTo, ProofsAcceptedUpTo, LogBytes, InRangeSigners;
      var data;
      error, data := CheckTurn(suite);
      if error.Some? {
        return;
      }
      var T, proof := Respond(suite, server, coins);
      data := AppendEntry(suite, data, T, proof, server.index);
      assert |Itoa(server.index)| > 0;
      var sig := suite.SchnorrSign(server.privateKey, data, coins.nonce);
      if sig.Err? {
        assert false;
      }
      tags := tags + [T];
      proofs := proofs + [proof];
      indexes := indexes + [server.index];
      sigs := sigs + [ServerSignature(server.index, sig.value)];
    }

    /** Checks all signatures and proofs and extracts the last tag. */
    method GetFinalLinkageTag(suite: Suite, c: Context) returns (r: Result<Point>)
      requires suite.Valid()
      requires Shaped(c, request)
      requires SameLengths() ==> LogInRange(c, Contents())
      ensures r.Ok? <==> |tags| != 0 && SameLengths() && LogAccepted(suite, c, request, Contents())
      ensures r.Ok? ==> r.value == tags[|tags| - 1]
    {
      hide EntryBytes, ProofAccepted, RequestBytes, Mul;
      if |tags| == 0 || !SameLengths() {
        return Err(InvalidInputs);
      }
      ghost var log := Contents();
      var data := AuthenticationMessageToBytes(suite, request);
      for i := 0 to |proofs|
        invariant data == LogBytes(suite, request, log, i)
        invariant SignaturesAcceptedUpTo(suite, c, request, log, i)
        invariant ProofsAcceptedUpTo(suite, c, request, log, i)
      {
        data := AppendEntry(suite, data, tags[i], proofs[i], indexes[i]);
        if !suite.SchnorrVerify(c.Y[sigs[i].index], data, sigs[i].sig) {
          if SignaturesAcceptedUpTo(suite, c, request, log, |log|) {
            SignaturesAcceptedAt(suite, c, request, log, |log|, i);
          }
          return Err(BadSignature);
        }
        var valid := VerifyProofAt(suite, c, i);
        if !valid {
          if ProofsAcceptedUpTo(suite, c, request, log, |log|) {
            ProofsAcceptedAt(suite, c, request, log, |log|, i);
          }
          return Err(BadServerProof);
        }
      }
      return Ok(tags[|tags| - 1]);
    }
  }
}

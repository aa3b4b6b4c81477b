/** One node of the context generation protocol: its state and its handlers. */
module ContextNode {
  import opened Zq
  import opened Suites
  import opened Encoding
  import opened SameElems
  import opened SlotBuffers

  /** The suite, its way to pick a point from a digest, the text form of points, and the identifier
      derived from a context's bytes. */
  datatype Env = Env(suite: Suite, pick: nat -> Point, name: Point -> string, contextId: bytes -> nat)

  ghost predicate ValidEnv(env: Env) {
    env.suite.Valid() && Naming(env.name)
  }

  // ----- Client generators -----

  /** The bytes that are hashed for client i under the servers' commitments. */
  function GeneratorInput(env: Env, i: nat, R: seq<Point>): bytes {
    Itoa(i) + PointsBytes(env.suite, R)
  }

  /** The generator of client i under the servers' commitments. */
  function Generator(env: Env, i: nat, R: seq<Point>): Point {
    env.pick(env.suite.hash(GeneratorInput(env, i, R)))
  }

  /** The inputs differ, but they lead to the same point. */
  predicate SamePick(env: Env, a: bytes, b: bytes) {
    a != b && env.pick(env.suite.hash(a)) == env.pick(env.suite.hash(b))
  }

  lemma GeneratorInputInjective(env: Env, i: nat, R: seq<Point>, j: nat, R': seq<Point>)
    requires env.suite.Valid() && env.suite.Decodable()
    requires |R| == |R'| && AllBelow(env.suite.q, R) && AllBelow(env.suite.q, R')
    ensures GeneratorInput(env, i, R) == GeneratorInput(env, j, R') <==> i == j && R == R'
  {
    hide Itoa;
    if GeneratorInput(env, i, R) == GeneratorInput(env, j, R') {
      ConcatLength(env.suite.pointBytes, R);
      ConcatLength(env.suite.pointBytes, R');
      SplitAt(Itoa(i), PointsBytes(env.suite, R), Itoa(j), PointsBytes(env.suite, R'));
      ItoaInjective(i, j);
      ConcatInjective(env.suite.q, env.suite.pointBytes, env.suite.pointOf, R, R');
    }
  }

  /** Who shares a generator: nobody but the same client under the same commitments, unless two
      different inputs lead to the same point. */
  lemma GeneratorEqualIff(env: Env, i: nat, R: seq<Point>, j: nat, R': seq<Point>)
    requires env.suite.Valid() && env.suite.Decodable()
    requires |R| == |R'| && AllBelow(env.suite.q, R) && AllBelow(env.suite.q, R')
    ensures Generator(env, i, R) == Generator(env, j, R') <==>
      (i == j && R == R') || SamePick(env, GeneratorInput(env, i, R), GeneratorInput(env, j, R'))
  {
    hide GeneratorInput;
    GeneratorInputInjective(env, i, R, j, R');
  }

  method GenerateClientGenerator(env: Env, index: int, commits: seq<Point>) returns (r: Result<Point>)
    ensures r.Ok? <==> 0 <= index && |commits| > 0
    ensures r.Ok? ==> r.value == Generator(env, index, commits)
  {
    if index < 0 {
      return Err(InvalidInputs);
    }
    if |commits| <= 0 {
      return Err(InvalidInputs);
    }
    var pointBytes := PointArrayToBytes(env.suite, commits);
    return Ok(env.pick(env.suite.hash(Itoa(index) + pointBytes)));
  }

  function Generators(env: Env, n: nat, R: seq<Point>): (r: seq<Point>)
    ensures |r| == n && forall i :: 0 <= i < n ==> r[i] == Generator(env, i, R)
  {
    seq(n, i requires 0 <= i < n => Generator(env, i, R))
  }

  method CreateGenerators(env: Env, n: nat, commits: seq<Point>) returns (H: seq<Point>)
    requires |commits| > 0
    ensures H == Generators(env, n, commits)
  {
    H := [];
    for i := 0 to n
      invariant |H| == i && forall j :: 0 <= j < i ==> H[j] == Generator(env, j, commits)
    {
      var h := GenerateClientGenerator(env, i, commits);
      H := H + [h.value];
    }
  }

  // ----- Requests, contexts and messages -----

  datatype CreateContext = CreateContext(serviceId: nat, subscribers: seq<Point>)

  /** A context as it is served: with its identifiers, the servers' signatures and their roster. */
  datatype ServedContext = ServedContext(
    id: nat, serviceId: nat, signatures: seq<bytes>, context: Context, roster: seq<Point>)

  function NewContext(env: Env, c: Context, roster: seq<Point>, serviceId: nat, signatures: seq<bytes>): Result<ServedContext> {
    if ValidContext(c) then Ok(ServedContext(env.contextId(ContextBytes(env.suite, c)), serviceId, signatures, c, roster))
    else Err(BadContext)
  }

  datatype Announce = Announce(assignedIndex: int, request: CreateContext)

  datatype AnnounceReply = AnnounceReply(from: nat, Y: Point, R: Point)

  datatype SignReply = SignReply(from: nat, signature: bytes)

  // ----- The leader's slots -----

  /** The index of a tree node; a node that is not in the map reads as index 0. */
  function IndexFor(indexOf: map<nat, nat>, id: nat): nat {
    if id in indexOf then indexOf[id] else 0
  }

  function Senders(msgs: seq<AnnounceReply>): (r: seq<nat>)
    ensures |r| == |msgs| && forall k :: 0 <= k < |r| ==> r[k] == msgs[k].from
  {
    seq(|msgs|, k requires 0 <= k < |msgs| => msgs[k].from)
  }

  function Keys(msgs: seq<AnnounceReply>): (r: seq<Point>)
    ensures |r| == |msgs| && forall k :: 0 <= k < |r| ==> r[k] == msgs[k].Y
  {
    seq(|msgs|, k requires 0 <= k < |msgs| => msgs[k].Y)
  }

  function Commitments(msgs: seq<AnnounceReply>): (r: seq<Point>)
    ensures |r| == |msgs| && forall k :: 0 <= k < |r| ==> r[k] == msgs[k].R
  {
    seq(|msgs|, k requires 0 <= k < |msgs| => msgs[k].R)
  }

  /** The slots after the values of the senders were written one after the other. */
  function Assign<T>(slots: Slots<T>, indexOf: map<nat, nat>, from: seq<nat>, values: seq<T>): (r: Slots<T>)
    requires |from| == |values| && forall k :: 0 <= k < |from| ==> IndexFor(indexOf, from[k]) < |slots|
    ensures |r| == |slots|
  {
    if from == [] then slots
    else
      var n := |from| - 1;
      Assign(slots, indexOf, from[..n], values[..n])[IndexFor(indexOf, from[n]) := Some(values[n])]
  }

  /** Writes from senders with different indexes commute: each value ends up in its sender's slot. */
  lemma {:induction false} AssignByIndex<T>(slots: Slots<T>, indexOf: map<nat, nat>, from: seq<nat>, values: seq<T>)
    requires |from| == |values| && forall k :: 0 <= k < |from| ==> IndexFor(indexOf, from[k]) < |slots|
    requires forall j, k :: 0 <= j < k < |from| ==> IndexFor(indexOf, from[j]) != IndexFor(indexOf, from[k])
    ensures
      var r := Assign(slots, indexOf, from, values);
      && (forall k :: 0 <= k < |from| ==> r[IndexFor(indexOf, from[k])] == Some(values[k]))
      && (forall i :: 0 <= i < |slots| && (forall k :: 0 <= k < |from| ==> IndexFor(indexOf, from[k]) != i) ==> r[i] == slots[i])
  {
    if from != [] {
      var n := |from| - 1;
      AssignByIndex(slots, indexOf, from[..n], values[..n]);
    }
  }

  // ----- Checks -----

  /** What a server checks before it signs a context. */
  predicate SignAccepted(env: Env, c: Context, server: Identity, request: CreateContext)
    requires 0 < env.suite.q
  {
    && server.index < |c.R| && server.index < |c.Y|
    && c.R[server.index] == Mul(env.suite.q, server.roundSecret, BASE)
    && c.Y[server.index] == server.PublicKey(env.suite.q)
    && (forall i :: 0 <= i < |c.H| ==> c.H[i] == Generator(env, i, c.R))
    && SameElements(request.subscribers, c.X)
  }

  /** Every server's signature on the context verifies under the key at its position. */
  predicate SignaturesVerify(env: Env, served: ServedContext) {
    && |served.context.Y| <= |served.signatures|
    && forall i :: 0 <= i < |served.context.Y| ==>
      env.suite.SchnorrVerify(served.context.Y[i], ContextBytes(env.suite, served.context), served.signatures[i])
  }

  /** The first n replies carry signatures that verify under the keys of their senders. */
  predicate RepliesVerify(env: Env, Y: seq<Point>, data: bytes, indexOf: map<nat, nat>, msgs: seq<SignReply>) {
    forall k :: 0 <= k < |msgs| ==>
      IndexFor(indexOf, msgs[k].from) < |Y| && env.suite.SchnorrVerify(Y[IndexFor(indexOf, msgs[k].from)], data, msgs[k].signature)
  }

  function SignSenders(msgs: seq<SignReply>): (r: seq<nat>)
    ensures |r| == |msgs| && forall k :: 0 <= k < |r| ==> r[k] == msgs[k].from
  {
    seq(|msgs|, k requires 0 <= k < |msgs| => msgs[k].from)
  }

  function Signatures(msgs: seq<SignReply>): (r: seq<bytes>)
    ensures |r| == |msgs| && forall k :: 0 <= k < |r| ==> r[k] == msgs[k].signature
  {
    seq(|msgs|, k requires 0 <= k < |msgs| => msgs[k].signature)
  }

  /** The replies leave no slot empty but the leader's own. */
  predicate SignaturesFill(slots: Slots<bytes>, indexOf: map<nat, nat>, msgs: seq<SignReply>) {
    && (forall k :: 0 <= k < |msgs| ==> IndexFor(indexOf, msgs[k].from) < |slots|)
    && forall i :: 0 < i < |slots| ==> Assign(slots, indexOf, SignSenders(msgs), Signatures(msgs))[i].Some?
  }

  /** The signatures of the replies, each in its sender's place, behind the leader's own. */
  function AllSignatures(slots: Slots<bytes>, indexOf: map<nat, nat>, msgs: seq<SignReply>, own: bytes): (r: seq<bytes>)
    requires |slots| > 0 && SignaturesFill(slots, indexOf, msgs)
    ensures |r| == |slots|
  {
    Values(Assign(slots, indexOf, SignSenders(msgs), Signatures(msgs))[0 := Some(own)])
  }

  lemma {:induction false} StoredVerify(
    env: Env, Y: seq<Point>, data: bytes, slots: Slots<bytes>, indexOf: map<nat, nat>, msgs: seq<SignReply>)
    requires |slots| == |Y| && RepliesVerify(env, Y, data, indexOf, msgs)
    requires forall i :: 0 <= i < |slots| ==> slots[i].None?
    ensures
      var r := Assign(slots, indexOf, SignSenders(msgs), Signatures(msgs));
      forall i :: 0 <= i < |r| && r[i].Some? ==> env.suite.SchnorrVerify(Y[i], data, r[i].value)
  {
    hide Suite.SchnorrVerify;
    if msgs != [] {
      var n := |msgs| - 1;
      StoredVerify(env, Y, data, slots, indexOf, msgs[..n]);
      assert SignSenders(msgs)[..n] == SignSenders(msgs[..n]) && Signatures(msgs)[..n] == Signatures(msgs[..n]);
    }
  }

  /** What the leader completes is served by every node: when the first key of the context is the leader's,
      every signature in it verifies under the key at its position, whoever sent it and in whatever order. */
  lemma CompletedIsSigned(
    env: Env, c: Context, indexOf: map<nat, nat>, msgs: seq<SignReply>, own: Scalar, nonce: Scalar, served: ServedContext)
    requires env.suite.Valid() && |c.Y| > 0 && c.Y[0] == Mul(env.suite.q, own, BASE) && |ContextBytes(env.suite, c)| > 0
    requires RepliesVerify(env, c.Y, ContextBytes(env.suite, c), indexOf, msgs)
    requires SignaturesFill(Empty<bytes>(|c.Y|), indexOf, msgs)
    requires served.context == c
    requires served.signatures ==
      AllSignatures(Empty<bytes>(|c.Y|), indexOf, msgs, env.suite.sign(own, ContextBytes(env.suite, c), nonce))
    ensures SignaturesVerify(env, served)
  {
    hide Mul, ContextBytes, RepliesVerify, Assign;
    StoredVerify(env, c.Y, ContextBytes(env.suite, c), Empty<bytes>(|c.Y|), indexOf, msgs);
    assert env.suite.SchnorrSign(own, ContextBytes(env.suite, c), nonce).Ok?;
  }

  /** Who shares an identifier: two valid contexts with the same number of clients have the same one exactly
      when they are the same, or the identifiers of different bytes collide. */
  lemma ContextIdEqualIff(
    env: Env, c: Context, d: Context, roster: seq<Point>, roster': seq<Point>, sid: nat, sid': nat,
    signatures: seq<bytes>, signatures': seq<bytes>)
    requires env.suite.Valid() && env.suite.Decodable() && ValidContext(c) && ValidContext(d) && |c.X| == |d.X|
    requires ContextBelow(env.suite.q, c) && ContextBelow(env.suite.q, d)
    ensures
      var served, served' := NewContext(env, c, roster, sid, signatures), NewContext(env, d, roster', sid', signatures');
      var a, b := ContextBytes(env.suite, c), ContextBytes(env.suite, d);
      && served.Ok? && served'.Ok?
      && (served.value.id == served'.value.id <==> c == d || (a != b && env.contextId(a) == env.contextId(b)))
  {
    hide Suite.Valid, Suite.Decodable, ContextBelow, ContextBytes;
    if ContextBytes(env.suite, c) == ContextBytes(env.suite, d) {
      ContextBytesInjectiveIff(env.suite, c, d);
    }
  }

  // ----- The node -----

  /** The context that the leader is building. */
  datatype Factory = Factory(X: seq<Point>, Y: Slots<Point>, R: Slots<Point>, H: seq<Point>, signatures: Slots<bytes>)
  {
    ghost predicate Full() {
      Complete(Y) && Complete(R)
    }

    function Built(): Context
      requires Full()
    {
      Context(X, Values(Y), Values(R), H)
    }
  }

  /** The leader's factory and indexes after it announced. */
  function Announced(env: Env, request: CreateContext, children: seq<nat>, server: Identity): (r: Factory)
    requires 0 < env.suite.q
  {
    var n := |children| + 1;
    Factory(request.subscribers, Empty<Point>(n)[0 := Some(server.PublicKey(env.suite.q))],
      Empty<Point>(n)[0 := Some(Mul(env.suite.q, server.roundSecret, BASE))], [], Empty(n))
  }

  /** Child number i gets index i + 1. */
  ghost predicate Indexed(children: seq<nat>, indexOf: map<nat, nat>) {
    && (forall id :: id in indexOf <==> id in children)
    && (forall i :: 0 <= i < |children| ==> IndexFor(indexOf, children[i]) == i + 1)
  }

  class Protocol {
    const env: Env
    const roster: seq<Point>
    var request: Option<CreateContext>
    var factory: Factory
    var indexOf: map<nat, nat>
    var server: Option<Identity>
    var result: Option<ServedContext>
    var done: bool

    /** The leader's setup for a tree of the given size. */
    constructor LeaderSetup(env: Env, roster: seq<Point>, request: CreateContext, treeSize: nat)
      requires request.serviceId != 0 && |request.subscribers| > 0
      ensures this.env == env && this.roster == roster && this.request == Some(request) && indexOf == map[] && server.None? && result.None? && !done
      ensures factory == Factory(request.subscribers, Empty(treeSize), Empty(treeSize), [], Empty(treeSize))
    {
      this.env, this.roster, this.request := env, roster, Some(request);
      factory := Factory(request.subscribers, Empty(treeSize), Empty(treeSize), [], Empty(treeSize));
      indexOf, server, result, done := map[], None, None, false;
    }

    constructor ChildSetup(env: Env, roster: seq<Point>)
      ensures this.env == env && this.roster == roster && request.None? && server.None? && result.None? && !done
    {
      this.env, this.roster, request := env, roster, None;
      factory := Factory([], [], [], [], []);
      indexOf, server, result, done := map[], None, None, false;
    }

    /** Creates the leader's own identity, with index 0, and announces an index to every child. */
    method Start(children: seq<nat>, key: Scalar, secret: Scalar) returns (sent: Option<seq<Announce>>)
      requires 0 < env.suite.q && request.Some? && |factory.Y| == |factory.R| && indexOf == map[]
      requires forall i, j :: 0 <= i < j < |children| ==> children[i] != children[j]
      modifies this
      ensures sent.Some? <==> |children| + 1 == |old(factory.Y)|
      ensures sent.Some? ==>
        && server == Some(Identity(0, key, secret)) && request == old(request) && result == old(result) && done == old(done)
        && Indexed(children, indexOf)
        && factory == old(factory).(
            Y := old(factory.Y)[0 := Some(Identity(0, key, secret).PublicKey(env.suite.q))],
            R := old(factory.R)[0 := Some(Mul(env.suite.q, secret, BASE))])
        && |sent.value| == |children|
        && forall i :: 0 <= i < |children| ==> sent.value[i] == Announce(i + 1, request.value)
      ensures sent.None? ==> done
    {
      if |children| != |factory.Y| - 1 {
        done := true;
        return None;
      }
      var own := Identity(0, key, secret);
      server := Some(own);
      factory := factory.(
        Y := factory.Y[0 := Some(own.PublicKey(env.suite.q))],
        R := factory.R[0 := Some(Mul(env.suite.q, secret, BASE))]);
      var announces: seq<Announce> := [];
      for i := 0 to |children|
        invariant request == old(request) && result == old(result) && done == old(done) && server == Some(own)
        invariant factory == old(factory).(
            Y := old(factory.Y)[0 := Some(own.PublicKey(env.suite.q))],
            R := old(factory.R)[0 := Some(Mul(env.suite.q, secret, BASE))])
        invariant Indexed(children[..i], indexOf)
        invariant |announces| == i && forall j :: 0 <= j < i ==> announces[j] == Announce(j + 1, request.value)
      {
        assert children[i] !in children[..i];
        assert children[..i + 1] == children[..i] + [children[i]];
        indexOf := indexOf[children[i] := i + 1];
        announces := announces + [Announce(i + 1, request.value)];
      }
      assert children[..|children|] == children;
      return Some(announces);
    }

    /** A child accepts the request, creates its identity and sends its key and commitment. */
    method HandleAnnounce(msg: Announce, accepted: bool, from: nat, key: Scalar, secret: Scalar) returns (reply: Option<AnnounceReply>)
      requires 0 < env.suite.q
      modifies this
      ensures reply.Some? <==> accepted && msg.assignedIndex >= 0
      ensures reply.Some? ==>
        && request == Some(msg.request) && server == Some(Identity(msg.assignedIndex, key, secret))
        && reply.value == AnnounceReply(from, server.value.PublicKey(env.suite.q), Mul(env.suite.q, secret, BASE))
      ensures done == (old(done) || reply.None?)
    {
      if !accepted {
        done := true;
        return None;
      }
      request := Some(msg.request);
      if msg.assignedIndex < 0 {
        done := true;
        return None;
      }
      server := Some(Identity(msg.assignedIndex, key, secret));
      return Some(AnnounceReply(from, server.value.PublicKey(env.suite.q), Mul(env.suite.q, secret, BASE)));
    }

    /** The leader stores keys and commitments, computes the clients' generators and asks for
        signatures on the context. */
    method HandleAnnounceReply(msgs: seq<AnnounceReply>) returns (sign: Option<Context>)
      requires |factory.Y| == |factory.R| > 0
      requires forall k :: 0 <= k < |msgs| ==> IndexFor(indexOf, msgs[k].from) < |factory.Y|
      requires Complete(Assign(factory.Y, indexOf, Senders(msgs), Keys(msgs)))
      requires Complete(Assign(factory.R, indexOf, Senders(msgs), Commitments(msgs)))
      modifies this
      ensures server == old(server) && indexOf == old(indexOf) && request == old(request) && done == old(done)
      ensures
        var Y, R := Assign(old(factory.Y), indexOf, Senders(msgs), Keys(msgs)), Assign(old(factory.R), indexOf, Senders(msgs), Commitments(msgs));
        factory == old(factory).(Y := Y, R := R, H := Generators(env, |old(factory.X)|, Values(R)))
          && sign == Some(factory.Built())
    {
      for k := 0 to |msgs|
        invariant server == old(server) && indexOf == old(indexOf) && request == old(request) && done == old(done)
        invariant factory == old(factory).(
            Y := Assign(old(factory.Y), indexOf, Senders(msgs)[..k], Keys(msgs)[..k]),
            R := Assign(old(factory.R), indexOf, Senders(msgs)[..k], Commitments(msgs)[..k]))
      {
        assert Senders(msgs)[..k + 1][..k] == Senders(msgs)[..k];
        assert Keys(msgs)[..k + 1][..k] == Keys(msgs)[..k];
        assert Commitments(msgs)[..k + 1][..k] == Commitments(msgs)[..k];
        var i := IndexFor(indexOf, msgs[k].from);
        factory := factory.(Y := factory.Y[i := Some(msgs[k].Y)], R := factory.R[i := Some(msgs[k].R)]);
      }
      assert Senders(msgs)[..|msgs|] == Senders(msgs) && Keys(msgs)[..|msgs|] == Keys(msgs);
      assert Commitments(msgs)[..|msgs|] == Commitments(msgs);
      var H := CreateGenerators(env, |factory.X|, Values(factory.R));
      factory := factory.(H := H);
      return Some(factory.Built());
    }

    /** A child recomputes what it can of the context and signs it. */
    method HandleSign(c: Context, nonce: Scalar) returns (signature: Option<bytes>)
      requires ValidEnv(env) && server.Some? && request.Some?
      requires server.value.index < |c.R| && server.value.index < |c.Y|
      modifies this`done
      ensures done == (old(done) || signature.None?)
      ensures signature.Some? <==> SignAccepted(env, c, server.value, request.value)
      ensures signature.Some? ==> signature.value == env.suite.sign(server.value.privateKey, ContextBytes(env.suite, c), nonce)
    {
      if Mul(env.suite.q, server.value.roundSecret, BASE) != c.R[server.value.index] {
        done := true;
        return None;
      } else if server.value.PublicKey(env.suite.q) != c.Y[server.value.index] {
        done := true;
        return None;
      }
      for i := 0 to |c.H|
        invariant forall j :: 0 <= j < i ==> c.H[j] == Generator(env, j, c.R)
        invariant done == old(done)
      {
        var generator := GenerateClientGenerator(env, i, c.R);
        if generator.value != c.H[i] {
          done := true;
          return None;
        }
      }
      var same := ContainsSameElems(request.value.subscribers, c.X, env.name);
      if !same {
        done := true;
        return None;
      }
      var contextBytes := AuthenticationContextToBytes(env.suite, c);
      var signed := env.suite.SchnorrSign(server.value.privateKey, contextBytes, nonce);
      assert |env.suite.pointBytes(c.R[|c.R| - 1])| == UNIT;
      if signed.Err? {
        assert false;
      }
      return Some(signed.value);
    }

    /** Verifies the signatures and stores each in its sender's slot. */
    method StoreSignatures(c: Context, data: bytes, msgs: seq<SignReply>) returns (ok: bool)
      requires |factory.signatures| == |c.Y|
      requires forall k :: 0 <= k < |msgs| ==> IndexFor(indexOf, msgs[k].from) < |c.Y|
      modifies this`factory
      ensures ok <==> RepliesVerify(env, c.Y, data, indexOf, msgs)
      ensures ok ==> factory == old(factory).(
          signatures := Assign(old(factory.signatures), indexOf, SignSenders(msgs), Signatures(msgs)))
    {
      var senders, signatures := SignSenders(msgs), Signatures(msgs);
      for k := 0 to |msgs|
        invariant forall j :: 0 <= j < k ==> env.suite.SchnorrVerify(c.Y[IndexFor(indexOf, msgs[j].from)], data, msgs[j].signature)
        invariant factory == old(factory).(signatures := factory.signatures)
        invariant factory.signatures == Assign(old(factory.signatures), indexOf, senders[..k], signatures[..k])
      {
        assert senders[..k + 1][..k] == senders[..k] && signatures[..k + 1][..k] == signatures[..k];
        var i := IndexFor(indexOf, msgs[k].from);
        if !env.suite.SchnorrVerify(c.Y[i], data, msgs[k].signature) {
          return false;
        }
        factory := factory.(signatures := factory.signatures[i := Some(msgs[k].signature)]);
      }
      assert senders[..|msgs|] == senders && signatures[..|msgs|] == signatures;
      return true;
    }

    /** The leader verifies and stores the signatures, adds its own and completes the context. */
    method HandleSignReply(msgs: seq<SignReply>, nonce: Scalar) returns (sent: Option<ServedContext>)
      requires request.Some? && server.Some?
      requires factory.Full() && |factory.signatures| == |factory.Y| > 0
      requires forall k :: 0 <= k < |msgs| ==> IndexFor(indexOf, msgs[k].from) < |factory.Y|
      requires SignaturesFill(factory.signatures, indexOf, msgs)
      modifies this
      ensures done && server == old(server) && request == old(request)
      ensures
        var c := old(factory.Built());
        var data := ContextBytes(env.suite, c);
        && (sent.Some? <==> RepliesVerify(env, c.Y, data, old(indexOf), msgs) && |data| > 0 && ValidContext(c))
        && (sent.Some? ==>
          var own := env.suite.sign(server.value.privateKey, data, nonce);
          sent == Some(ServedContext(env.contextId(data), request.value.serviceId,
            AllSignatures(old(factory.signatures), old(indexOf), msgs, own), c, roster)))
      ensures result == if sent.Some? then sent else old(result)
    {
      hide RepliesVerify, Assign, ContextBytes, Suite.SchnorrVerify;
      done := true;
      var c := factory.Built();
      var data := AuthenticationContextToBytes(env.suite, c);
      var ok := StoreSignatures(c, data, msgs);
      if !ok {
        return None;
      }
      var own := env.suite.SchnorrSign(server.value.privateKey, data, nonce);
      if own.Err? {
        return None;
      }
      factory := factory.(signatures := factory.signatures[0 := Some(own.value)]);
      var final := NewContext(env, c, roster, request.value.serviceId, Values(factory.signatures));
      if final.Err? {
        return None;
      }
      result := Some(final.value);
      return Some(final.value);
    }

    /** A child serves a context that carries a valid signature of every server in it. */
    method HandleDone(served: ServedContext) returns (serve: Option<(ServedContext, Identity)>)
      requires server.Some? && |served.context.Y| <= |served.signatures|
      modifies this`done
      ensures done
      ensures serve == if SignaturesVerify(env, served) then Some((served, server.value)) else None
    {
      done := true;
      var data := AuthenticationContextToBytes(env.suite, served.context);
      for i := 0 to |served.context.Y|
        invariant done
        invariant forall j :: 0 <= j < i ==> env.suite.SchnorrVerify(served.context.Y[j], data, served.signatures[j])
      {
        if !env.suite.SchnorrVerify(served.context.Y[i], data, served.signatures[i]) {
          return None;
        }
      }
      return Some((served, server.value));
    }
  }
}

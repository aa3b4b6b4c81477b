/** The context generation protocol as a whole: what an honest run agrees on, and what the servers'
    approval of a context fixes even when its leader is dishonest. */
module ContextRuns {
  import opened Zq
  import opened Suites
  import opened Encoding
  import opened Permutations
  import opened SameElems
  import opened SlotBuffers
  import opened ServerRuns
  import opened ContextNode

  /** An honest run: server 0 leads, the other servers are its children in tree order, `nonces` are
      those of the servers' signatures on the context, and the roster has the keys of their nodes. */
  datatype Generation = Generation(
    env: Env, request: CreateContext, servers: seq<Identity>, children: seq<nat>, nonces: seq<Scalar>, roster: seq<Point>)
  {
    ghost predicate Valid() {
      && ValidEnv(env) && |request.subscribers| > 0
      && |servers| == |children| + 1 == |nonces| == |roster|
      && (forall j :: 0 <= j < |servers| ==> servers[j].index == j)
      && (forall i, j :: 0 <= i < j < |children| ==> children[i] != children[j])
    }

    function Keys(): (r: seq<Point>)
      requires 0 < env.suite.q
      ensures |r| == |servers| && forall j :: 0 <= j < |r| ==> r[j] == servers[j].PublicKey(env.suite.q)
    {
      seq(|servers|, j requires 0 <= j < |servers| => servers[j].PublicKey(env.suite.q))
    }

    function Commits(): (r: seq<Point>)
      requires 0 < env.suite.q
      ensures |r| == |servers| && forall j :: 0 <= j < |r| ==> r[j] == Mul(env.suite.q, servers[j].roundSecret, BASE)
    {
      seq(|servers|, j requires 0 <= j < |servers| => Mul(env.suite.q, servers[j].roundSecret, BASE))
    }

    /** The context that the run agrees on. */
    function Agreed(): Context
      requires 0 < env.suite.q
    {
      Context(request.subscribers, Keys(), Commits(), Generators(env, |request.subscribers|, Commits()))
    }

    function Signature(j: nat): bytes
      requires 0 < env.suite.q && j < |servers| == |nonces|
    {
      env.suite.sign(servers[j].privateKey, ContextBytes(env.suite, Agreed()), nonces[j])
    }

    function AgreedSignatures(): (r: seq<bytes>)
      requires 0 < env.suite.q && |servers| == |nonces|
      ensures |r| == |servers| && forall j :: 0 <= j < |r| ==> r[j] == Signature(j)
    {
      seq(|servers|, j requires 0 <= j < |servers| => Signature(j))
    }

    function Served(): ServedContext
      requires 0 < env.suite.q && |servers| == |nonces|
    {
      ServedContext(env.contextId(ContextBytes(env.suite, Agreed())), request.serviceId, AgreedSignatures(), Agreed(), roster)
    }

    /** The children's replies in the order in which they arrive. */
    function Replies(order: seq<int>): (r: seq<AnnounceReply>)
      requires 0 < env.suite.q && |servers| == |children| + 1 && InRange(order, |children|)
      ensures |r| == |order|
      ensures forall k :: 0 <= k < |r| ==>
        r[k] == AnnounceReply(children[order[k]], servers[order[k] + 1].PublicKey(env.suite.q),
          Mul(env.suite.q, servers[order[k] + 1].roundSecret, BASE))
    {
      seq(|order|, k requires 0 <= k < |order| =>
        AnnounceReply(children[order[k]], servers[order[k] + 1].PublicKey(env.suite.q),
          Mul(env.suite.q, servers[order[k] + 1].roundSecret, BASE)))
    }

    function SignReplies(order: seq<int>): seq<SignReply>
      requires 0 < env.suite.q && |servers| == |children| + 1 == |nonces| && InRange(order, |children|)
    {
      RepliesWith(children, AgreedSignatures(), order)
    }
  }

  /** Signatures from children in some order; the leader's own comes first and is not sent. */
  function RepliesWith(children: seq<nat>, signatures: seq<bytes>, order: seq<int>): (r: seq<SignReply>)
    requires |signatures| == |children| + 1 && InRange(order, |children|)
    ensures |r| == |order|
    ensures forall k :: 0 <= k < |r| ==> r[k] == SignReply(children[order[k]], signatures[order[k] + 1])
  {
    seq(|order|, k requires 0 <= k < |order| => SignReply(children[order[k]], signatures[order[k] + 1]))
  }

  // ----- Storing replies by index -----

  /** One value of every child, stored in any order of arrival behind the leader's own, gives the
      values in the order of the indexes. */
  lemma StoredByIndex<T>(
    slots: Slots<T>, indexOf: map<nat, nat>, children: seq<nat>, order: seq<int>, from: seq<nat>, values: seq<T>, all: seq<T>)
    requires Indexed(children, indexOf) && IsPermutation(order, |children|) && |slots| == |all| == |children| + 1
    requires |from| == |values| == |order|
    requires forall k :: 0 <= k < |order| ==> from[k] == children[order[k]] && values[k] == all[order[k] + 1]
    ensures forall k :: 0 <= k < |from| ==> IndexFor(indexOf, from[k]) == order[k] + 1 < |slots|
    ensures
      var r := Assign(slots, indexOf, from, values);
      r[0] == slots[0] && forall i :: 0 < i < |r| ==> r[i] == Some(all[i])
  {
    AssignByIndex(slots, indexOf, from, values);
    var r := Assign(slots, indexOf, from, values);
    forall i | 0 < i < |r|
      ensures r[i] == Some(all[i])
    {
      PermutationCovers(order, |children|, i - 1);
      var k :| 0 <= k < |order| && order[k] == i - 1;
      assert IndexFor(indexOf, from[k]) == i;
    }
  }

  /** What the leader builds of the replies: all slots are filled, and the context is c. */
  ghost predicate Builds(env: Env, f: Factory, indexOf: map<nat, nat>, msgs: seq<AnnounceReply>, c: Context) {
    && |f.Y| == |f.R| && (forall k :: 0 <= k < |msgs| ==> IndexFor(indexOf, msgs[k].from) < |f.Y|)
    && var Y, R := Assign(f.Y, indexOf, Senders(msgs), Keys(msgs)), Assign(f.R, indexOf, Senders(msgs), Commitments(msgs));
      Complete(Y) && Complete(R) && c == Context(f.X, Values(Y), Values(R), Generators(env, |f.X|, Values(R)))
  }

  /** Keys or commitments of every server, stored in any order of arrival behind the leader's own. */
  lemma AgreedSlotsOf(
    g: Generation, own: Point, indexOf: map<nat, nat>, order: seq<int>, from: seq<nat>, values: seq<Point>, all: seq<Point>)
    requires g.Valid() && Indexed(g.children, indexOf) && IsPermutation(order, |g.children|)
    requires |from| == |values| == |order| && |all| == |g.servers| && own == all[0]
    requires forall k :: 0 <= k < |order| ==> from[k] == g.children[order[k]] && values[k] == all[order[k] + 1]
    ensures forall k :: 0 <= k < |from| ==> IndexFor(indexOf, from[k]) < |g.servers|
    ensures
      var slots := Assign(Empty<Point>(|g.servers|)[0 := Some(own)], indexOf, from, values);
      Complete(slots) && Values(slots) == all
  {
    hide Assign, Distinct;
    StoredByIndex(Empty<Point>(|g.servers|)[0 := Some(own)], indexOf, g.children, order, from, values, all);
  }

  lemma AgreedFactory(g: Generation, indexOf: map<nat, nat>, order: seq<int>)
    requires g.Valid() && Indexed(g.children, indexOf) && IsPermutation(order, |g.children|)
    ensures Builds(g.env, Announced(g.env, g.request, g.children, g.servers[0]), indexOf, g.Replies(order), g.Agreed())
  {
    hide Assign, Naming, Mul, Distinct, Generators, Complete, Values;
    var f, msgs := Announced(g.env, g.request, g.children, g.servers[0]), g.Replies(order);
    AgreedSlotsOf(g, g.Keys()[0], indexOf, order, Senders(msgs), Keys(msgs), g.Keys());
    AgreedSlotsOf(g, g.Commits()[0], indexOf, order, Senders(msgs), Commitments(msgs), g.Commits());
    assert forall k :: 0 <= k < |msgs| ==> Senders(msgs)[k] == msgs[k].from;
  }

  // ----- An honest run -----

  lemma AgreedIsAccepted(g: Generation, j: nat)
    requires g.Valid() && j < |g.servers|
    ensures SignAccepted(g.env, g.Agreed(), g.servers[j], g.request)
  {
  }

  lemma AgreedBytes(g: Generation)
    requires g.Valid()
    ensures ValidContext(g.Agreed()) && |ContextBytes(g.env.suite, g.Agreed())| > 0
  {
    ContextBytesLength(g.env.suite, g.Agreed());
  }

  lemma SignatureVerifies(g: Generation, j: nat)
    requires g.Valid() && j < |g.servers|
    ensures g.env.suite.SchnorrVerify(g.Keys()[j], ContextBytes(g.env.suite, g.Agreed()), g.Signature(j))
  {
    AgreedBytes(g);
    var data := ContextBytes(g.env.suite, g.Agreed());
    assert g.env.suite.SchnorrSign(g.servers[j].privateKey, data, g.nonces[j]) == Ok(g.Signature(j));
  }

  lemma AgreedSlots(g: Generation, indexOf: map<nat, nat>, order: seq<int>)
    requires g.Valid() && Indexed(g.children, indexOf) && IsPermutation(order, |g.children|)
    ensures
      var slots, msgs := Empty<bytes>(|g.servers|), g.SignReplies(order);
      && RepliesVerify(g.env, g.Keys(), ContextBytes(g.env.suite, g.Agreed()), indexOf, msgs)
      && SignaturesFill(slots, indexOf, msgs)
      && AllSignatures(slots, indexOf, msgs, g.Signature(0)) == g.AgreedSignatures()
  {
    hide Assign, Naming, Mul, Distinct, Generation.Agreed, Suite.SchnorrVerify;
    var slots, msgs := Empty<bytes>(|g.servers|), g.SignReplies(order);
    StoredByIndex(slots, indexOf, g.children, order, SignSenders(msgs), Signatures(msgs), g.AgreedSignatures());
    forall k | 0 <= k < |msgs|
      ensures IndexFor(indexOf, msgs[k].from) == order[k] + 1 < |g.servers|
      ensures g.env.suite.SchnorrVerify(g.Keys()[order[k] + 1], ContextBytes(g.env.suite, g.Agreed()), msgs[k].signature)
    {
      assert SignSenders(msgs)[k] == msgs[k].from;
      SignatureVerifies(g, order[k] + 1);
    }
  }

  /** Whatever the orders in which the children's replies arrive: the leader builds the same context,
      with the entry of server j at index j; every server accepts and signs it; it is valid; its
      signatures verify at every node; and the honest servers fit it, which is what authentication
      under the context needs of them. */
  lemma ContextGenerationAgrees(g: Generation, indexOf: map<nat, nat>, order: seq<int>, order': seq<int>)
    requires g.Valid() && Indexed(g.children, indexOf)
    requires IsPermutation(order, |g.children|) && IsPermutation(order', |g.children|)
    ensures Builds(g.env, Announced(g.env, g.request, g.children, g.servers[0]), indexOf, g.Replies(order), g.Agreed())
    ensures forall j :: 0 <= j < |g.servers| ==> SignAccepted(g.env, g.Agreed(), g.servers[j], g.request)
    ensures ValidContext(g.Agreed())
    ensures
      var slots, msgs := Empty<bytes>(|g.servers|), g.SignReplies(order');
      && RepliesVerify(g.env, g.Agreed().Y, ContextBytes(g.env.suite, g.Agreed()), indexOf, msgs)
      && SignaturesFill(slots, indexOf, msgs)
      && NewContext(g.env, g.Agreed(), g.roster, g.request.serviceId, AllSignatures(slots, indexOf, msgs, g.Signature(0)))
        == Ok(g.Served())
    ensures SignaturesVerify(g.env, g.Served())
    ensures HonestRing(g.env.suite, g.Agreed(), g.servers)
  {
    hide Assign, Suite.Valid, Naming, Mul, IsPermutation, Suite.SchnorrVerify, RepliesVerify, SignaturesFill, ContextBytes;
    AgreedFactory(g, indexOf, order);
    AgreedBytes(g);
    AgreedSlots(g, indexOf, order');
    forall j | 0 <= j < |g.servers|
      ensures SignAccepted(g.env, g.Agreed(), g.servers[j], g.request)
      ensures g.env.suite.SchnorrVerify(g.Agreed().Y[j], ContextBytes(g.env.suite, g.Agreed()), g.Served().signatures[j])
    {
      AgreedIsAccepted(g, j);
      SignatureVerifies(g, j);
    }
  }

  /** The generators of an honest run tell its clients apart, and those of two runs with different
      commitments have none in common, unless two different inputs lead to the same point. */
  lemma AgreedGeneratorsEqualIff(g: Generation, g': Generation, i: nat, j: nat)
    requires g.Valid() && g'.Valid() && g.env == g'.env && g.env.suite.Decodable() && |g.servers| == |g'.servers|
    requires i < |g.request.subscribers| && j < |g'.request.subscribers|
    ensures g.Agreed().H[i] == g'.Agreed().H[j] <==>
      (i == j && g.Commits() == g'.Commits())
      || SamePick(g.env, GeneratorInput(g.env, i, g.Commits()), GeneratorInput(g.env, j, g'.Commits()))
  {
    hide Mul, Naming, Generator, GeneratorInput;
    GeneratorEqualIff(g.env, i, g.Commits(), j, g'.Commits());
  }

  // ----- What approval fixes -----

  /** All servers accept the context. */
  ghost predicate ApprovedByAll(env: Env, c: Context, servers: seq<Identity>, request: CreateContext)
    requires 0 < env.suite.q
  {
    && |servers| == |c.Y| == |c.R|
    && forall j :: 0 <= j < |servers| ==> servers[j].index == j && SignAccepted(env, c, servers[j], request)
  }

  /** Between contexts that all servers approve a dishonest leader has no choice: if they are valid, they
      have the same keys, commitments and, as long as the subscribers are distinct, the same subscribers up
      to their order and the same generators. */
  lemma ApprovalFixesContext(env: Env, c: Context, d: Context, servers: seq<Identity>, request: CreateContext)
    requires 0 < env.suite.q && ValidContext(c) && ValidContext(d) && Distinct(c.X) && Distinct(d.X)
    requires ApprovedByAll(env, c, servers, request) && ApprovedByAll(env, d, servers, request)
    ensures c.Y == d.Y && c.R == d.R && c.H == d.H && multiset(c.X) == multiset(d.X)
    ensures HonestRing(env.suite, c, servers)
  {
    hide Generator, Mul;
    forall j | 0 <= j < |servers|
      ensures c.Y[j] == d.Y[j] && c.R[j] == d.R[j]
    {
      assert SignAccepted(env, c, servers[j], request) && SignAccepted(env, d, servers[j], request);
    }
    assert c.Y == d.Y && c.R == d.R;
    assert SignAccepted(env, c, servers[0], request) && SignAccepted(env, d, servers[0], request);
    SameIffPermuted(request.subscribers, c.X);
    SameIffPermuted(request.subscribers, d.X);
    assert |c.X| == |d.X|;
    assert |c.H| == |d.H| && forall i :: 0 <= i < |c.H| ==> c.H[i] == Generator(env, i, c.R) == d.H[i];
  }

  // ----- What is served without approval -----

  /** A child serves what carries signatures under the keys in it, its own approval or not: a leader that
      makes up all keys can have every child serve a context that the child has not seen. */
  lemma ForgedIsServed(env: Env, child: Identity, request: CreateContext, serviceId: nat, roster: seq<Point>, nonce: Scalar)
    returns (served: ServedContext)
    requires env.suite.Valid()
    ensures ValidContext(served.context) && SignaturesVerify(env, served) && served.serviceId == serviceId
    ensures !SignAccepted(env, served.context, child, request)
  {
    var own := child.PublicKey(env.suite.q);
    var forged := Identity(0, if own == 0 then 1 else 0, 0);
    MulOne(env.suite.q, 1);
    MulZero(env.suite.q, 1);
    var c := Context([0], [forged.PublicKey(env.suite.q)], [0], [0]);
    ContextBytesLength(env.suite, c);
    var data := ContextBytes(env.suite, c);
    var sig := env.suite.SchnorrSign(forged.privateKey, data, nonce);
    served := ServedContext(env.contextId(data), serviceId, [sig.value], c, roster);
  }

  /** The servers signed no other context with these bytes than one they approve. */
  ghost predicate SignedWhenApproved(env: Env, c: Context, servers: seq<Identity>, request: CreateContext)
    requires 0 < env.suite.q
  {
    forall j, sig ::
      0 <= j < |servers| && env.suite.SchnorrVerify(servers[j].PublicKey(env.suite.q), ContextBytes(env.suite, c), sig)
      ==> SignAccepted(env, c, servers[j], request)
  }

  /** When what is served was approved: exactly when the keys in it are those of the servers, which a
      child that knows them could check. */
  lemma ServedIsApprovedIff(env: Env, served: ServedContext, servers: seq<Identity>, request: CreateContext)
    requires 0 < env.suite.q && SignaturesVerify(env, served)
    requires forall j :: 0 <= j < |servers| ==> servers[j].index == j
    requires SignedWhenApproved(env, served.context, servers, request)
    ensures ApprovedByAll(env, served.context, servers, request) <==>
      |servers| == |served.context.Y| == |served.context.R| &&
      forall j :: 0 <= j < |servers| ==> served.context.Y[j] == servers[j].PublicKey(env.suite.q)
  {
    hide Mul, ContextBytes, Suite.SchnorrVerify;
    var c := served.context;
    if |servers| == |c.Y| == |c.R| && forall j :: 0 <= j < |servers| ==> c.Y[j] == servers[j].PublicKey(env.suite.q) {
      forall j | 0 <= j < |servers|
        ensures SignAccepted(env, c, servers[j], request)
      {
        assert env.suite.SchnorrVerify(servers[j].PublicKey(env.suite.q), ContextBytes(env.suite, c), served.signatures[j]);
      }
    }
  }
}

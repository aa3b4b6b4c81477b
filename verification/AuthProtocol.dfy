/** The ring protocol that runs the servers' steps on a client's request. */
module AuthProtocol {
  import opened Zq
  import opened Suites
  import opened Permutations
  import opened Challenges
  import opened ClientProofs
  import opened ServerProofs
  import opened ServerSide
  import opened ServerRuns
  import opened Rings

  datatype Message =
    | ServerMsg(request: AuthenticationMessage, log: Log)
    | FinishedServerMsg(request: AuthenticationMessage, log: Log)

  datatype Envelope = Envelope(to: TreeNode, message: Message)

  function Others(nodes: seq<TreeNode>, own: TreeNode): (r: seq<TreeNode>)
    ensures forall t :: t in r <==> t in nodes && t != own
  {
    if nodes == [] then []
    else (if nodes[0] == own then [] else [nodes[0]]) + Others(nodes[1..], own)
  }

  /** A message to every node of the tree, in tree order with the sender last. */
  function ToAll(s: Setting, sender: TreeNode, message: Message): (r: seq<Envelope>) {
    var others := Others(s.nodes, sender);
    seq(|others|, k requires 0 <= k < |others| => Envelope(others[k], message)) + [Envelope(sender, message)]
  }

  /** What the node at position i sends after its step, or nothing if it does not accept. */
  function Forward(s: Setting, i: nat, server: Identity, m: AuthenticationMessage, log: Log, coins: Coins): (r: Option<seq<Envelope>>)
    requires 0 < s.suite.q && i < |s.keys| && server.index < |m.context.Y|
  {
    if !Shaped(m.context, m) || !StepAccepted(s.suite, m, log) then None
    else
      var next := log + [NextEntry(s.suite, m, log, server, coins)];
      if |next| == |m.context.Y| then Some(ToAll(s, NodeOf(s.keys[i], s.nodes), FinishedServerMsg(m, next)))
      else Some([Envelope(NextOf(s, i), ServerMsg(m, next))])
  }

  /** What the leader sends after its own step, always to the next node. */
  function FirstForward(s: Setting, i: nat, server: Identity, m: AuthenticationMessage, coins: Coins): (r: Option<seq<Envelope>>)
    requires 0 < s.suite.q && i < |s.keys| && server.index < |m.context.Y|
  {
    if !Shaped(m.context, m) || !StepAccepted(s.suite, m, []) then None
    else Some([Envelope(NextOf(s, i), ServerMsg(m, [NextEntry(s.suite, m, [], server, coins)]))])
  }

  lemma AcceptedIsShaped(suite: Suite, m: AuthenticationMessage, log: Log)
    requires 0 < suite.q && StepAccepted(suite, m, log)
    ensures Shaped(m.context, m)
  {
  }

  /** Copies a received message into a fresh one. */
  method NetDecode(m: AuthenticationMessage, log: Log) returns (msg: ServerMessage)
    ensures fresh(msg) && msg.request == m && msg.SameLengths() && msg.Contents() == log
  {
    msg := new ServerMessage(m);
    msg.tags := seq(|log|, i requires 0 <= i < |log| => log[i].tag);
    msg.proofs := seq(|log|, i requires 0 <= i < |log| => log[i].proof);
    msg.indexes := seq(|log|, i requires 0 <= i < |log| => log[i].index);
    msg.sigs := seq(|log|, i requires 0 <= i < |log| => log[i].sig);
  }

  /** A node of the ring. The leader is recognized by having no context validator. */
  class Node {
    const setting: Setting
    const position: nat
    const acceptContext: Option<Context -> Option<Identity>>
    var server: Option<Identity>
    var result: Option<(AuthenticationMessage, Log)>
    var done: bool

    constructor (setting: Setting, position: nat, acceptContext: Option<Context -> Option<Identity>>, server: Option<Identity>)
      ensures this.setting == setting && this.position == position && this.acceptContext == acceptContext
      ensures this.server == server && result.None? && !done
    {
      this.setting, this.position, this.acceptContext, this.server := setting, position, acceptContext, server;
      result, done := None, false;
    }

    /** The leader's first step on the request. */
    method Start(m: AuthenticationMessage, coins: Coins) returns (sent: Option<seq<Envelope>>)
      requires Usable(setting) && position < |setting.keys|
      requires server.Some? && server.value.index < |m.context.Y| == |m.context.R| && InRangeSigners(m)
      modifies this
      ensures server == old(server) && result == old(result)
      ensures sent == if |setting.nodes| != |m.context.Y| then None else FirstForward(setting, position, server.value, m, coins)
      ensures done == (old(done) || sent.None?)
    {
      hide NextEntry, StepAccepted, LogAccepted, TreeOver, NextOf;
      if |setting.nodes| - 1 != |m.context.Y| - 1 {
        done := true;
        return None;
      }
      var msg := new ServerMessage(m);
      var error := msg.ServerProtocol(setting.suite, server.value, coins);
      if error.Some? {
        done := true;
        return None;
      }
      AcceptedIsShaped(setting.suite, m, []);
      assert msg.Contents() == [NextEntry(setting.suite, m, [], server.value, coins)];
      var next := NextServer(setting, position);
      return Some([Envelope(next, ServerMsg(m, msg.Contents()))]);
    }

    /** A step in the middle or at the end of the ring. */
    method HandleServerMsg(m: AuthenticationMessage, log: Log, coins: Coins) returns (sent: Option<seq<Envelope>>)
      requires Usable(setting) && position < |setting.keys|
      requires acceptContext.Some? && InRangeSigners(m)
      requires |log| < |m.context.Y| ==> LogInRange(m.context, log)
      requires var accepted := acceptContext.value(m.context);
        accepted.Some? ==> accepted.value.index < |m.context.Y| == |m.context.R|
      modifies this
      ensures result == old(result)
      ensures
        var accepted := acceptContext.value(m.context);
        if accepted.None? then sent.None? && server == old(server)
        else server == accepted && sent == Forward(setting, position, accepted.value, m, log, coins)
      ensures done == (old(done) || sent.None?)
    {
      hide NextEntry, StepAccepted, LogAccepted, TreeOver, NextOf;
      var accepted := acceptContext.value(m.context);
      if accepted.None? {
        done := true;
        return None;
      }
      server := accepted;
      var msg := NetDecode(m, log);
      var error := msg.ServerProtocol(setting.suite, accepted.value, coins);
      if error.Some? {
        done := true;
        return None;
      }
      AcceptedIsShaped(setting.suite, m, log);
      if |msg.indexes| == |m.context.Y| {
        sent := Some(ToAll(setting, NodeOf(setting.keys[position], setting.nodes), FinishedServerMsg(m, msg.Contents())));
      } else {
        var next := NextServer(setting, position);
        sent := Some([Envelope(next, ServerMsg(m, msg.Contents()))]);
      }
    }

    /** Everybody checks the finished message; the leader makes it the result. */
    method HandleFinishedServerMsg(m: AuthenticationMessage, log: Log) returns (tag: Result<Point>)
      requires setting.suite.Valid() && Shaped(m.context, m)
      requires LogInRange(m.context, log)
      modifies this
      ensures done && server == old(server)
      ensures tag.Ok? <==> |log| > 0 && LogAccepted(setting.suite, m.context, m, log)
      ensures tag.Ok? ==> tag.value == log[|log| - 1].tag
      ensures result == if tag.Ok? && acceptContext.None? then Some((m, log)) else old(result)
    {
      hide LogAccepted;
      done := true;
      var weAreLeader := acceptContext.None?;
      var msg := NetDecode(m, log);
      tag := msg.GetFinalLinkageTag(setting.suite, m.context);
      if tag.Ok? && weAreLeader {
        result := Some((msg.request, msg.Contents()));
      }
    }
  }

  // ----- A whole authentication -----

  /** One server and one choice of coins for every position of the ring. */
  ghost predicate Sized(s: Setting, servers: seq<Identity>, coins: seq<Coins>, m: AuthenticationMessage, leader: nat) {
    && 0 < s.suite.q && |servers| == |s.keys| == |coins| && leader < |servers| && Shaped(m.context, m)
    && forall i :: 0 <= i < |servers| ==> servers[i].index < |m.context.Y|
  }

  /** What is in flight after the leader started and k server messages were delivered. */
  ghost function InFlight(s: Setting, servers: seq<Identity>, coins: seq<Coins>, m: AuthenticationMessage, leader: nat, k: nat)
    : Option<seq<Envelope>>
    requires Sized(s, servers, coins, m, leader) && k < |servers|
  {
    if k == 0 then FirstForward(s, leader, servers[leader], m, coins[0])
    else
      var before := InFlight(s, servers, coins, m, leader, k - 1);
      if before.Some? && |before.value| == 1 && before.value[0].message.ServerMsg?
        && before.value[0].message.request == m && before.value[0].to.key in s.keys
      then
        var i := RingPosition(s, before.value[0].to);
        Forward(s, i, servers[i], m, before.value[0].message.log, coins[k])
      else None
  }

  /** An authentication in which everybody is honest. */
  ghost predicate Honest(
    s: Setting, servers: seq<Identity>, coins: seq<Coins>, m: AuthenticationMessage, leader: nat, z: Scalar, h: Point)
  {
    && Usable(s) && Sized(s, servers, coins, m, leader) && 2 <= |servers| == |m.context.Y|
    && RequestAccepted(s.suite, m) && h < s.suite.q
    && HonestRing(s.suite, m.context, servers) && IsPermutation(Indexes(servers), |servers|)
    && HonestClient(s.suite, m, z, h)
  }

  /** The log after the first k servers of the ring. */
  ghost function LogAfter(s: Setting, servers: seq<Identity>, coins: seq<Coins>, m: AuthenticationMessage, leader: nat, k: nat): Option<Log>
    requires Sized(s, servers, coins, m, leader) && k <= |servers|
  {
    Run(s.suite, m, RingFrom(servers, leader)[..k], coins[..k])
  }

  lemma HonestSizes(s: Setting, servers: seq<Identity>, coins: seq<Coins>, m: AuthenticationMessage, leader: nat, z: Scalar, h: Point)
    requires Honest(s, servers, coins, m, leader, z, h)
    ensures Sized(s, servers, coins, m, leader)
    ensures |servers| == |s.keys| == |coins| == |m.context.Y| >= 2 && leader < |servers| && 0 < s.suite.q
  {
  }

  lemma LogAfterIsRun(s: Setting, servers: seq<Identity>, coins: seq<Coins>, m: AuthenticationMessage, leader: nat, k: nat)
    requires Sized(s, servers, coins, m, leader) && k <= |servers|
    ensures LogAfter(s, servers, coins, m, leader, k) == Run(s.suite, m, RingFrom(servers, leader)[..k], coins[..k])
  {
  }

  /** The round secrets in the order of the context. */
  ghost function RoundSecrets(suite: Suite, servers: seq<Identity>): (rs: seq<Scalar>)
    requires IsPermutation(Indexes(servers), |servers|)
    ensures |rs| == |servers|
  {
    seq(|servers|, j requires 0 <= j < |servers| =>
      servers[PositionOf(Indexes(servers), |servers|, j)].roundSecret)
  }

  lemma RoundSecretOf(suite: Suite, servers: seq<Identity>, i: nat)
    requires IsPermutation(Indexes(servers), |servers|) && i < |servers|
    ensures servers[i].index < |servers|
    ensures RoundSecrets(suite, servers)[servers[i].index] == servers[i].roundSecret
  {
    assert Indexes(servers)[i] == servers[i].index;
    assert PositionOf(Indexes(servers), |servers|, servers[i].index) == i;
  }

  /** The servers in ring order meet what an honest run asks for. */
  lemma HonestRotation(s: Setting, servers: seq<Identity>, coins: seq<Coins>, m: AuthenticationMessage, leader: nat, z: Scalar, h: Point)
    requires Honest(s, servers, coins, m, leader, z, h)
    ensures
      var ring, rs := RingFrom(servers, leader), RoundSecrets(s.suite, servers);
      && HonestRing(s.suite, m.context, ring) && Runnable(s.suite, m, ring, coins)
      && IsPermutation(Indexes(ring), |m.context.Y|)
      && forall i :: 0 <= i < |ring| ==> rs[ring[i].index] == ring[i].roundSecret
  {
    hide TreeOver, RequestAccepted, HonestClient, Suite.Valid, Mul;
    var ring, rs := RingFrom(servers, leader), RoundSecrets(s.suite, servers);
    RingFromPermutes(servers, leader);
    forall i | 0 <= i < |ring|
      ensures HonestServer(s.suite, m.context, ring[i]) && rs[ring[i].index] == ring[i].roundSecret
    {
      RoundSecretOf(s.suite, servers, Hops(leader, i, |servers|));
    }
  }

  lemma HonestRingRun(s: Setting, servers: seq<Identity>, coins: seq<Coins>, m: AuthenticationMessage, leader: nat, z: Scalar, h: Point)
    requires Honest(s, servers, coins, m, leader, z, h)
    ensures Runnable(s.suite, m, RingFrom(servers, leader), coins)
    ensures
      var r := Run(s.suite, m, RingFrom(servers, leader), coins);
      r.Some? && |r.value| == |servers| && LogAccepted(s.suite, m.context, m, r.value)
      && r.value[|servers| - 1].tag == Mul(s.suite.q, Product(s.suite.q, RoundSecrets(s.suite, servers)), h)
  {
    hide TreeOver, RequestAccepted, HonestClient, Run, LogAccepted, Suite.Valid, Mul, HonestRing;
    HonestRotation(s, servers, coins, m, leader, z, h);
    HonestRunTag(s.suite, m, RingFrom(servers, leader), coins, RoundSecrets(s.suite, servers), z, h);
  }

  /** An honest run goes through k servers for every k, with a log that the next one accepts. */
  lemma HonestLogAfter(
    s: Setting, servers: seq<Identity>, coins: seq<Coins>, m: AuthenticationMessage, leader: nat, z: Scalar, h: Point, k: nat)
    requires Honest(s, servers, coins, m, leader, z, h) && k <= |servers|
    ensures LogAfter(s, servers, coins, m, leader, k).Some?
    ensures k < |servers| ==>
      var log := LogAfter(s, servers, coins, m, leader, k).value;
      && StepAccepted(s.suite, m, log)
      && LogAfter(s, servers, coins, m, leader, k + 1)
        == Some(log + [NextEntry(s.suite, m, log, RingFrom(servers, leader)[k], coins[k])])
  {
    hide *;
    HonestSizes(s, servers, coins, m, leader, z, h);
    HonestRingRun(s, servers, coins, m, leader, z, h);
    var ring := RingFrom(servers, leader);
    LogAfterIsRun(s, servers, coins, m, leader, k);
    RunPrefix(s.suite, m, ring, coins, k);
    if k < |servers| {
      LogAfterIsRun(s, servers, coins, m, leader, k + 1);
      RunPrefix(s.suite, m, ring, coins, k + 1);
      var log := Run(s.suite, m, ring, coins).value;
      assert log[..k + 1] == log[..k] + [log[k]];
    }
  }

  lemma FirstDelivery(s: Setting, servers: seq<Identity>, coins: seq<Coins>, m: AuthenticationMessage, leader: nat)
    requires Sized(s, servers, coins, m, leader) && StepAccepted(s.suite, m, [])
    ensures InFlight(s, servers, coins, m, leader, 0) ==
      Some([Envelope(NodeOf(s.keys[Successor(leader, |s.keys|)], s.nodes),
        ServerMsg(m, [] + [NextEntry(s.suite, m, [], servers[leader], coins[0])]))])
  {
    hide StepAccepted, NextEntry, NodeOf;
    assert [] + [NextEntry(s.suite, m, [], servers[leader], coins[0])] == [NextEntry(s.suite, m, [], servers[leader], coins[0])];
  }

  /** One delivery of a server message to the node it was meant for. */
  lemma Delivery(
    s: Setting, servers: seq<Identity>, coins: seq<Coins>, m: AuthenticationMessage, leader: nat, z: Scalar, h: Point,
    k: nat, log: Log)
    requires Honest(s, servers, coins, m, leader, z, h) && 0 < k < |servers| && |log| == k
    requires InFlight(s, servers, coins, m, leader, k - 1)
      == Some([Envelope(NodeOf(s.keys[Hops(leader, k, |servers|)], s.nodes), ServerMsg(m, log))])
    requires StepAccepted(s.suite, m, log)
    ensures
      var i := Hops(leader, k, |servers|);
      var next := log + [NextEntry(s.suite, m, log, servers[i], coins[k])];
      InFlight(s, servers, coins, m, leader, k) ==
        if k < |servers| - 1 then Some([Envelope(NodeOf(s.keys[Successor(i, |servers|)], s.nodes), ServerMsg(m, next))])
        else Some(ToAll(s, NodeOf(s.keys[i], s.nodes), FinishedServerMsg(m, next)))
  {
    hide RequestAccepted, HonestClient, NextEntry, StepAccepted, HonestRing, ToAll, Suite.Valid, Hops, Successor;
    var i := Hops(leader, k, |servers|);
    var t := NodeOf(s.keys[i], s.nodes);
    assert t.key == s.keys[i];
    assert RingPosition(s, t) == i;
  }

  lemma LogAfterLength(s: Setting, servers: seq<Identity>, coins: seq<Coins>, m: AuthenticationMessage, leader: nat, k: nat)
    requires Sized(s, servers, coins, m, leader) && k <= |servers|
    requires LogAfter(s, servers, coins, m, leader, k).Some?
    ensures |LogAfter(s, servers, coins, m, leader, k).value| == k
    ensures k == 0 ==> LogAfter(s, servers, coins, m, leader, k) == Some([])
  {
  }

  /** The ring at work, for every leader: after k deliveries, k < m - 1, exactly one server message is
      in flight, to the node k + 1 hops after the leader, with the log of the first k + 1 servers; the
      last-server test fires at delivery m - 1 and not before, and then the finished message with the
      complete log goes to everyone. */
  lemma {:induction false} RingDelivers(
    s: Setting, servers: seq<Identity>, coins: seq<Coins>, m: AuthenticationMessage, leader: nat, z: Scalar, h: Point, k: nat)
    requires Honest(s, servers, coins, m, leader, z, h) && k < |servers|
    ensures LogAfter(s, servers, coins, m, leader, k + 1).Some?
    ensures
      var n := |servers|;
      var log := LogAfter(s, servers, coins, m, leader, k + 1).value;
      InFlight(s, servers, coins, m, leader, k) ==
        if k < n - 1 then Some([Envelope(NodeOf(s.keys[Hops(leader, k + 1, n)], s.nodes), ServerMsg(m, log))])
        else Some(ToAll(s, NodeOf(s.keys[Hops(leader, n - 1, n)], s.nodes), FinishedServerMsg(m, log)))
  {
    hide *;
    HonestSizes(s, servers, coins, m, leader, z, h);
    var n, server := |servers|, servers[Hops(leader, k, |servers|)];
    HonestLogAfter(s, servers, coins, m, leader, z, h, k);
    HonestLogAfter(s, servers, coins, m, leader, z, h, k + 1);
    LogAfterLength(s, servers, coins, m, leader, k);
    LogAfterLength(s, servers, coins, m, leader, k + 1);
    RingServer(servers, leader, k);
    var log := LogAfter(s, servers, coins, m, leader, k).value;
    if k == 0 {
      FirstDelivery(s, servers, coins, m, leader);
    } else {
      RingDelivers(s, servers, coins, m, leader, z, h, k - 1);
      Delivery(s, servers, coins, m, leader, z, h, k, log);
    }
    HopStep(leader, k, n);
  }

  function Recipients(envelopes: seq<Envelope>): (r: seq<TreeNode>)
    ensures |r| == |envelopes| && forall k :: 0 <= k < |r| ==> r[k] == envelopes[k].to
  {
    seq(|envelopes|, k requires 0 <= k < |envelopes| => envelopes[k].to)
  }

  lemma {:induction false} OthersCounted(nodes: seq<TreeNode>, own: TreeNode)
    ensures multiset(Others(nodes, own)) == multiset(nodes)[own := 0]
  {
    if nodes != [] {
      OthersCounted(nodes[1..], own);
      assert nodes == [nodes[0]] + nodes[1..];
    }
  }

  /** The sender gets the message once, every other node as often as it is in the tree, and nobody else
      gets it: exactly once each in a tree of different nodes. */
  lemma ToAllReachesAll(s: Setting, sender: TreeNode, message: Message)
    requires sender in s.nodes
    ensures forall k :: 0 <= k < |ToAll(s, sender, message)| ==> ToAll(s, sender, message)[k].message == message
    ensures multiset(Recipients(ToAll(s, sender, message))) == multiset(s.nodes)[sender := 1]
    ensures Distinct(s.nodes) ==> multiset(Recipients(ToAll(s, sender, message))) == multiset(s.nodes)
  {
    var others := Others(s.nodes, sender);
    OthersCounted(s.nodes, sender);
    assert Recipients(ToAll(s, sender, message)) == others + [sender];
    if Distinct(s.nodes) {
      DistinctOnce(s.nodes, sender);
    }
  }

  /** Authentication over the network: whoever leads, the finished message carries a log that every
      node accepts, and the tag that every node extracts from it is the product of the servers' round
      secrets applied to the client's generator. */
  lemma AuthenticationSucceeds(
    s: Setting, servers: seq<Identity>, coins: seq<Coins>, m: AuthenticationMessage, leader: nat, z: Scalar, h: Point)
    requires Honest(s, servers, coins, m, leader, z, h)
    ensures LogAfter(s, servers, coins, m, leader, |servers|).Some?
    ensures
      var log := LogAfter(s, servers, coins, m, leader, |servers|).value;
      && InFlight(s, servers, coins, m, leader, |servers| - 1)
        == Some(ToAll(s, NodeOf(s.keys[Hops(leader, |servers| - 1, |servers|)], s.nodes), FinishedServerMsg(m, log)))
      && |log| > 0 && LogAccepted(s.suite, m.context, m, log)
      && log[|log| - 1].tag == Mul(s.suite.q, Product(s.suite.q, RoundSecrets(s.suite, servers)), h)
  {
    hide *;
    HonestSizes(s, servers, coins, m, leader, z, h);
    HonestRingRun(s, servers, coins, m, leader, z, h);
    RingDelivers(s, servers, coins, m, leader, z, h, |servers| - 1);
    var n, ring := |servers|, RingFrom(servers, leader);
    LogAfterIsRun(s, servers, coins, m, leader, n);
    assert ring[..n] == ring && coins[..n] == coins;
  }
}

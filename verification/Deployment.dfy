/** From the creation of a context to authentications under it. */
module Deployment {
  import opened Zq
  import opened Suites
  import opened Permutations
  import opened Challenges
  import opened ClientProofs
  import opened ServerSide
  import opened ServerRuns
  import opened Rings
  import opened AuthProtocol
  import opened ContextNode
  import opened ContextRuns
  import opened LogTags
  import opened SameElems
  import opened Service

  /** Every server of an honest generation serves the agreed context: from the moment it stores it,
      under a fresh identifier, it validates requests under that context in every later state, and
      answers them with the identity that it created for the context. */
  lemma GeneratedContextIsServed(
    g: Generation, j: nat, before: Store, stores: seq<Store>, steps: seq<Step>, k: nat)
    requires g.Valid() && j < |g.servers| && g.request.serviceId != NIL && g.Served().id != NIL
    requires g.request.serviceId in before && Lookup(before, g.request.serviceId, g.Served().id).None?
    requires Steps(stores, steps) && k < |stores| && stores[0] == Serving(before, g.Served(), g.servers[j])
    ensures ValidContext(g.Served().context)
    ensures Accepting(stores[k], g.Served()) == Working(stores[k], g.Served()) == Some(g.servers[j])
    ensures HonestServer(g.env.suite, g.Served().context, g.servers[j])
  {
    AgreedBytes(g);
    ServedIsAccepted(stores, steps, g.Served(), g.servers[j], before, k);
    AgreedIsAccepted(g, j);
  }

  /** The servers of a generation at the positions of a roster. */
  function Roster(g: Generation, order: seq<int>): (r: seq<Identity>)
    requires InRange(order, |g.servers|)
    ensures |r| == |order| && forall i :: 0 <= i < |r| ==> r[i] == g.servers[order[i]]
  {
    Select(g.servers, order)
  }

  function Secrets(g: Generation): (r: seq<Scalar>)
    ensures |r| == |g.servers| && forall j :: 0 <= j < |r| ==> r[j] == g.servers[j].roundSecret
  {
    seq(|g.servers|, j requires 0 <= j < |g.servers| => g.servers[j].roundSecret)
  }

  lemma RosterIsHonest(g: Generation, order: seq<int>)
    requires g.Valid() && IsPermutation(order, |g.servers|)
    ensures HonestRing(g.env.suite, g.Agreed(), Roster(g, order))
    ensures Indexes(Roster(g, order)) == order
    ensures IsPermutation(Indexes(Roster(g, order)), |Roster(g, order)|)
    ensures RoundSecrets(g.env.suite, Roster(g, order)) == Secrets(g)
  {
    var servers := Roster(g, order);
    assert Indexes(servers) == order;
    forall i | 0 <= i < |servers|
      ensures HonestServer(g.env.suite, g.Agreed(), servers[i])
    {
      AgreedIsAccepted(g, order[i]);
    }
    forall j | 0 <= j < |servers|
      ensures RoundSecrets(g.env.suite, servers)[j] == g.servers[j].roundSecret
    {
      PermutationCovers(order, |servers|, j);
      var i :| 0 <= i < |order| && order[i] == j;
      RoundSecretOf(g.env.suite, servers, i);
    }
  }

  lemma RequestIsShaped(suite: Suite, m: AuthenticationMessage, c: Context)
    requires RequestAccepted(suite, m) && m.context == c && ValidContext(c)
    ensures Shaped(c, m)
  {
  }

  /** Client i of a context that was generated honestly sends an honest request, with ephemeral key z, to the
      servers of the generation, who stand in the order of a roster. */
  ghost predicate Authenticating(
    g: Generation, s: Setting, order: seq<int>, coins: seq<Coins>, m: AuthenticationMessage, leader: nat, z: Scalar, i: nat)
  {
    && g.Valid() && Usable(s) && s.suite == g.env.suite && 2 <= |g.servers|
    && IsPermutation(order, |g.servers|) && |s.keys| == |coins| == |g.servers| && leader < |g.servers|
    && m.context == g.Agreed() && i < |g.request.subscribers|
    && RequestAccepted(s.suite, m)
    && HonestClient(s.suite, m, z, Generator(g.env, i, g.Commits())) && Generator(g.env, i, g.Commits()) < s.suite.q
  }

  /** The servers of a generation and a client of its context meet what the theorem about the ring asks for. */
  lemma RosterAndClientAreHonest(
    g: Generation, s: Setting, order: seq<int>, coins: seq<Coins>, m: AuthenticationMessage, leader: nat, z: Scalar, i: nat)
    requires Authenticating(g, s, order, coins, m, leader, z, i)
    ensures g.Agreed().H[i] == Generator(g.env, i, g.Commits())
    ensures Honest(s, Roster(g, order), coins, m, leader, z, g.Agreed().H[i])
    ensures RoundSecrets(s.suite, Roster(g, order)) == Secrets(g)
  {
    hide HonestRing, HonestClient, RequestAccepted, TreeOver, Mul, RoundSecrets, IsPermutation, Generator;
    RosterIsHonest(g, order);
    AgreedBytes(g);
    RequestIsShaped(s.suite, m, g.Agreed());
    var servers := Roster(g, order);
    assert Sized(s, servers, coins, m, leader);
    assert IsPermutation(Indexes(servers), |servers|);
  }

  /** A client of the context authenticates: for every roster order, every leader, every ephemeral key
      and all coins, the run around the ring succeeds, and the tag that every node extracts is fixed
      by the servers' round secrets and the client's index alone. */
  lemma ClientAuthenticates(
    g: Generation, s: Setting, order: seq<int>, coins: seq<Coins>, m: AuthenticationMessage, leader: nat, z: Scalar, i: nat)
    requires Authenticating(g, s, order, coins, m, leader, z, i)
    ensures g.Agreed().H[i] == Generator(g.env, i, g.Commits())
    ensures
      var servers := Roster(g, order);
      && Honest(s, servers, coins, m, leader, z, g.Agreed().H[i])
      && LogAfter(s, servers, coins, m, leader, |servers|).Some?
      && var log := LogAfter(s, servers, coins, m, leader, |servers|).value;
        && InFlight(s, servers, coins, m, leader, |servers| - 1)
          == Some(ToAll(s, NodeOf(s.keys[Hops(leader, |servers| - 1, |servers|)], s.nodes), FinishedServerMsg(m, log)))
        && |log| > 0 && LogAccepted(s.suite, m.context, m, log)
        && log[|log| - 1].tag
          == Mul(s.suite.q, Product(s.suite.q, Secrets(g)), Generator(g.env, i, g.Commits()))
  {
    hide HonestRing, HonestClient, RequestAccepted, TreeOver, LogAfter, InFlight, LogAccepted, Mul, ToAll, RoundSecrets,
      Generator, NodeOf, Hops, Product, Suite.Valid;
    RosterAndClientAreHonest(g, s, order, coins, m, leader, z, i);
    AuthenticationSucceeds(s, Roster(g, order), coins, m, leader, z, g.Agreed().H[i]);
  }

  /** The tag that all nodes extract at the end, when the run around the ring gets through. */
  ghost function FinalTag(
    g: Generation, s: Setting, order: seq<int>, coins: seq<Coins>, m: AuthenticationMessage, leader: nat): Option<Point>
  {
    if InRange(order, |g.servers|) && Sized(s, Roster(g, order), coins, m, leader) then
      var log := LogAfter(s, Roster(g, order), coins, m, leader, |order|);
      if log.Some? && |log.value| > 0 then Some(log.value[|log.value| - 1].tag) else None
    else None
  }

  lemma AuthenticatedTag(
    g: Generation, s: Setting, order: seq<int>, coins: seq<Coins>, m: AuthenticationMessage, leader: nat, z: Scalar, i: nat)
    requires Authenticating(g, s, order, coins, m, leader, z, i)
    ensures g.Valid() && i < |g.request.subscribers|
    ensures FinalTag(g, s, order, coins, m, leader)
      == Some(Mul(g.env.suite.q, Product(g.env.suite.q, Secrets(g)), g.Agreed().H[i]))
  {
    hide LogAfter, Mul, Product, Generator, InFlight, ToAll, LogAccepted, Usable, RequestAccepted, HonestClient, HonestRing, Sized, Naming;
    ClientAuthenticates(g, s, order, coins, m, leader, z, i);
    assert Honest(s, Roster(g, order), coins, m, leader, z, g.Agreed().H[i]);
    assert Sized(s, Roster(g, order), coins, m, leader);
  }

  /** Two clients of one context keep apart: whatever their ephemeral keys, the orders of the servers, the
      leaders and the coins, their final tags are equal exactly when they are the same client, unless two
      different inputs lead to the same generator. */
  lemma ClientsKeepApart(
    g: Generation,
    s: Setting, order: seq<int>, coins: seq<Coins>, m: AuthenticationMessage, leader: nat, z: Scalar, i: nat,
    s': Setting, order': seq<int>, coins': seq<Coins>, m': AuthenticationMessage, leader': nat, z': Scalar, j: nat)
    requires Authenticating(g, s, order, coins, m, leader, z, i)
    requires Authenticating(g, s', order', coins', m', leader', z', j)
    requires g.env.suite.Decodable() && AllNonZero(g.env.suite.q, Secrets(g))
    ensures FinalTag(g, s, order, coins, m, leader).Some? && FinalTag(g, s', order', coins', m', leader').Some?
    ensures
      FinalTag(g, s, order, coins, m, leader) == FinalTag(g, s', order', coins', m', leader') <==>
        i == j || SamePick(g.env, GeneratorInput(g.env, i, g.Commits()), GeneratorInput(g.env, j, g.Commits()))
  {
    hide Mul, Product, Naming, Generator, GeneratorInput, Secrets, FinalTag, RequestAccepted, HonestClient, Usable, IsPermutation;
    AuthenticatedTag(g, s, order, coins, m, leader, z, i);
    AuthenticatedTag(g, s', order', coins', m', leader', z', j);
    IsPrime(g.env.suite);
    AgreedGeneratorsEqualIff(g, g, i, j);
    TagsTellGeneratorsApart(g.env.suite.q, Secrets(g), g.Agreed().H[i], g.Agreed().H[j]);
  }

  /** A node accepts a context whose lists are reordered independently of each other, and goes on with the
      one it was sent. Client i then gets the tag of the client whose generator stands at i: the one it
      has in the served context exactly when that generator did not move. */
  lemma ReorderedTagIff(
    suite: Suite, store: Store, c: ServedContext, served: ContextState, m: AuthenticationMessage,
    ring: seq<Identity>, coins: seq<Coins>, rs: seq<Scalar>, z: Scalar, i: nat)
    requires Lookup(store, c.serviceId, c.id) == Some(served) && Accepting(store, c).Some? && m.context == c.context
    requires suite.Valid() && RequestAccepted(suite, m) && i < |m.context.H|
    requires AllBelow(suite.q, served.context.context.H)
    requires HonestRing(suite, m.context, ring) && Runnable(suite, m, ring, coins)
    requires |m.context.Y| > 0 && IsPermutation(Indexes(ring), |m.context.Y|)
    requires |rs| == |m.context.Y| && forall k :: 0 <= k < |ring| ==> rs[ring[k].index] == ring[k].roundSecret
    requires AllNonZero(suite.q, rs) && HonestClient(suite, m, z, m.context.H[i])
    ensures |served.context.context.H| == |m.context.H| && Run(suite, m, ring, coins).Some?
    ensures
      var log, H := Run(suite, m, ring, coins).value, served.context.context.H;
      && LogAccepted(suite, m.context, m, log)
      && (exists k :: 0 <= k < |H| && H[k] == m.context.H[i] && log[|log| - 1].tag == Mul(suite.q, Product(suite.q, rs), H[k]))
      && (log[|log| - 1].tag == Mul(suite.q, Product(suite.q, rs), H[i]) <==> m.context.H[i] == H[i])
  {
    hide HonestRing, HonestClient, RequestAccepted, LogAccepted, Mul, IsPermutation, Run, Suite.Valid;
    var q, h, H := suite.q, m.context.H[i], served.context.context.H;
    assert SameElements(H, m.context.H);
    assert h in H;
    var k :| 0 <= k < |H| && H[k] == h;
    IsPrime(suite);
    HonestRunTag(suite, m, ring, coins, rs, z, h);
    TagsTellGeneratorsApart(q, rs, h, H[i]);
  }
}

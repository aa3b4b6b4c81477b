/** Small deployments: one that meets everything the theorems about honest parties ask for, and inputs
    for which the code does not do what one would expect. */
module Example {
  import opened Zq
  import opened Suites
  import opened Encoding
  import opened Permutations
  import opened Challenges
  import opened ClientProofs
  import opened ClientSide
  import opened ServerSide
  import opened LogBinding
  import opened ServerRuns
  import opened Soundness
  import opened Rings
  import opened SameElems
  import opened ContextNode
  import opened ContextRuns
  import opened ServerProofs
  import opened Deployment
  import opened Service
  import opened LogTags
  import opened Transcripts

  /** A group of five elements, one digest, and signatures and proofs that are always accepted. */
  const TOY: Suite := Suite(5, _ => 1, _ => seq(UNIT, _ => 0), _ => seq(UNIT, _ => 0), _ => 0, _ => 0,
    (_, _, _) => [0], (_, _, _) => true, (_, _, _) => true)

  function Stroke(p: Point): (s: string)
    ensures |s| == p
  {
    seq(p, _ => '|')
  }

  lemma ToyIsValid()
    ensures TOY.Valid() && ValidEnv(Env(TOY, n => Reduce(5, n), Stroke, _ => 1))
  {
    assert 5 % 2 != 0 && 5 % 3 != 0 && 5 % 4 != 0;
    forall p, p' | Stroke(p) == Stroke(p')
      ensures p == p'
    {
      assert |Stroke(p)| == |Stroke(p')|;
    }
  }

  lemma OneStays()
    ensures Reduce(5, 1) == 1
  {
  }

  lemma SharedIsOne(z: Scalar, key: Point)
    ensures SharedSecret(TOY, z, key) == 1
  {
    OneStays();
  }

  function InitialOf(suite: Suite, z: Scalar, keys: seq<Point>, h: Point): (r: InitialTagAndCommitments)
    requires 2 <= suite.q
    ensures IsInitial(suite, z, keys, h, r)
  {
    var s := SharedSecrets(suite, z, keys);
    InitialTagAndCommitments(
      [Mul(suite.q, z, BASE)] + seq(|keys| + 1, k requires 0 <= k < |keys| + 1 => ChainPoint(suite.q, s, k + 1)),
      Mul(suite.q, Product(suite.q, s), h))
  }

  /** Two servers and two clients, of which the second authenticates with ephemeral key 1. */
  lemma DeploymentExists()
    returns (g: Generation, s: Setting, order: seq<int>, coins: seq<Coins>, m: AuthenticationMessage, z: Scalar)
    ensures g.Valid() && Usable(s) && s.suite == g.env.suite && |g.servers| == 2
    ensures IsPermutation(order, |g.servers|) && |s.keys| == |coins| == |g.servers|
    ensures m.context == g.Agreed() && |g.request.subscribers| == 2 && RequestAccepted(s.suite, m)
    ensures Generator(g.env, 1, g.Commits()) < s.suite.q
    ensures HonestClient(s.suite, m, z, Generator(g.env, 1, g.Commits()))
    ensures s.suite == TOY && m.p0.cs.sigs == [] && Generator(g.env, 1, g.Commits()) == 1
    ensures g.servers == [Identity(0, 2, 3), Identity(1, 4, 2)]
  {
    hide Mul, Reduce, Product;
    ToyIsValid();
    OneStays();
    g := Generation(Env(TOY, n => Reduce(5, n), Stroke, _ => 1), CreateContext(1, [2, 3]),
      [Identity(0, 2, 3), Identity(1, 4, 2)], [7], [1, 1], [8, 9]);
    var nodes := [TreeNode(0, 8), TreeNode(1, 9)];
    s := Setting(TOY, [8, 9], nodes);
    assert NodeOf(8, nodes) == nodes[0] && NodeOf(9, nodes) == NodeOf(9, nodes[1..]) == nodes[1];
    order, coins, z := [0, 1], [Coins(1, 1, 1, 1), Coins(2, 2, 2, 2)], 1;
    var c := g.Agreed();
    var h := Generator(g.env, 1, g.Commits());
    var initial := InitialOf(TOY, z, c.Y, h);
    m := AuthenticationMessage(c, initial, ClientProof(Challenge(0, []), seq(6, _ => 0), seq(2, _ => 0), seq(4, _ => 0)));
    ChainStarts(5, SharedSecrets(TOY, z, c.Y));
    forall j | 0 <= j < |c.Y|
      ensures SharedSecret(TOY, z, c.Y[j]) != 0
    {
      SharedIsOne(z, c.Y[j]);
    }
  }

  /** A request that is accepted although no server signed its challenge. */
  lemma UnsignedChallengeExample()
    returns (suite: Suite, m: AuthenticationMessage)
    ensures suite.Valid() && RequestAccepted(suite, m)
    ensures !SignedOnceByAll(suite, m.context, m.p0.cs, m.p0.t)
  {
    ToyIsValid();
    var g, s, order, coins, m', z := DeploymentExists();
    suite, m := s.suite, m';
    AcceptedChallengeSignedIff(suite, m);
  }

  // ----- Logs that are no permutation of the servers -----

  lemma ProductsOfTwo(x: Scalar, y: Scalar)
    requires x < 5 && y < 5
    ensures Product(5, [x]) == x && Product(5, [x, y]) == x * y % 5
  {
    hide Mul;
    assert [x] == [] + [x] && [x, y] == [x] + [y];
    ProductSnoc(5, [], x);
    ProductSnoc(5, [x], y);
    MulOne(5, x);
    MulIsMod(5, x, y);
  }

  /** The round secrets 3 and 2: one turn of the first server does not make up for both, nor do two. */
  lemma FirstDoesNotBalance(js: seq<int>)
    requires js == [0] || js == [0, 0]
    ensures InRange(js, 2) && !Balanced(5, js, [3, 2], [1, 1])
  {
    hide Mul, Product;
    ProductsOfTwo(3, 2);
    ProductsOfTwo(3, 3);
    ProductsOfTwo(1, 1);
    var rs: seq<Scalar>, ss: seq<Scalar> := [3, 2], [1, 1];
    var some, shared := Select(rs, js), Select(ss, js);
    assert if |js| == 1 then some == [3] && shared == [1] else some == [3, 3] && shared == [1, 1];
    MulOne(5, Product(5, some));
    MulOne(5, 1);
  }

  /** Turns of the first server only meet what runs of honest servers ask for. */
  lemma FirstServerTakesTurns(g: Generation, m: AuthenticationMessage, ring: seq<Identity>, coins: seq<Coins>)
    requires g.Valid() && g.env.suite == TOY && g.servers == [Identity(0, 2, 3), Identity(1, 4, 2)]
    requires m.context == g.Agreed() && RequestAccepted(TOY, m)
    requires forall i :: 0 <= i < |ring| ==> ring[i] == g.servers[0]
    requires |coins| == |ring|
    ensures HonestRing(TOY, m.context, ring) && Runnable(TOY, m, ring, coins) && |m.context.Y| == 2
    ensures Secrets(g) == [3, 2] && forall z :: SharedSecrets(TOY, z, m.context.Y) == [1, 1]
  {
    hide Mul, Reduce;
    AgreedIsAccepted(g, 0);
    RosterIsHonest(g, [0, 1]);
    assert Roster(g, [0, 1])[0] == g.servers[0];
    forall z
      ensures SharedSecrets(TOY, z, m.context.Y) == [1, 1]
    {
      SharedIsOne(z, m.context.Y[0]);
      SharedIsOne(z, m.context.Y[1]);
    }
  }

  /** Accepted logs with one turn of the first of two servers, or with two turns of it, as many as there
      are servers: neither has the tag of both. */
  lemma OneServerExample(twice: bool)
    returns (g: Generation, m: AuthenticationMessage, log: Log)
    ensures g.Valid() && m.context == g.Agreed() && |m.context.Y| == 2 && |log| == if twice then 2 else 1
    ensures forall i :: 0 <= i < |log| ==> log[i].index == 0
    ensures LogAccepted(TOY, m.context, m, log)
    ensures log[|log| - 1].tag != Mul(5, Product(5, Secrets(g)), Generator(g.env, 1, g.Commits()))
  {
    hide Mul, Reduce, Product, LogAccepted, RequestAccepted, HonestClient, SharedSecrets, Generator, HonestRing,
      IsPermutation, Usable, Balanced, NextTag, NextProof, StepAccepted;
    ToyIsValid();
    var g', s, order, coins, m', z := DeploymentExists();
    g, m := g', m';
    var first := g.servers[0];
    var ring := if twice then [first, first] else [first];
    FirstServerTakesTurns(g, m, ring, coins[..|ring|]);
    assert Indexes(ring) == if twice then [0, 0] else [0];
    FirstDoesNotBalance(Indexes(ring));
    HonestLogTagIff(TOY, m, ring, coins[..|ring|], Secrets(g), z, Generator(g.env, 1, g.Commits()));
    log := Run(TOY, m, ring, coins[..|ring|]).value;
    RunIndexes(TOY, m, ring, coins[..|ring|]);
  }

  // ----- Logs with the same signed bytes -----

  /** The encoding of 1 looks like thirty-two digits of a decimal text. */
  function Ones(p: nat): (r: bytes)
    ensures |r| == UNIT && (p == 1 ==> forall i :: 0 <= i < UNIT ==> r[i] == 49)
  {
    seq(UNIT, i => if i == 0 then 48 + p % 10 else 49)
  }

  function OfOnes(data: bytes): nat {
    if |data| > 0 && data[0] >= 48 then data[0] - 48 else 0
  }

  const ONES: Suite := TOY.(pointBytes := Ones, scalarBytes := Ones, pointOf := OfOnes, scalarOf := OfOnes)

  function EntryOfOnes(index: int): Entry {
    Entry(1, ServerProof(1, 1, 1, 1, 1, None), index, ServerSignature(0, [0]))
  }

  lemma AllOnes(index: int)
    requires index == 1 || index == 11
    ensures
      var e := EntryOfOnes(index);
      var data := EntryBytes(ONES, e.tag, e.proof, e.index);
      |data| == 6 * UNIT + (if index == 1 then 1 else 2) && forall i :: 0 <= i < |data| ==> data[i] == 49
  {
    var e := EntryOfOnes(index);
    var unit := Ones(1);
    var text := Itoa(index);
    assert Digits(1) == [49];
    assert text == if index == 1 then [49] else [49] + [49];
    assert EntryBytes(ONES, e.tag, e.proof, e.index) == unit + (unit + unit + unit + unit + unit + []) + text;
  }

  lemma LogOfTwo(suite: Suite, m: AuthenticationMessage, e: Entry, f: Entry)
    ensures LogBytes(suite, m, [e, f], 2) ==
      RequestBytes(suite, m) + (EntryBytes(suite, e.tag, e.proof, e.index) + EntryBytes(suite, f.tag, f.proof, f.index))
  {
    hide EntryBytes, RequestBytes;
    var log := [e, f];
    assert LogBytes(suite, m, log, 0) == RequestBytes(suite, m);
    assert LogBytes(suite, m, log, 1) == RequestBytes(suite, m) + EntryBytes(suite, e.tag, e.proof, e.index);
  }

  /** Indexes of different lengths: the same bytes are signed for the indexes 1, 11 and for 11, 1. */
  lemma AmbiguousLogExample(m: AuthenticationMessage)
    returns (log: Log, log': Log)
    ensures ONES.Valid() && ONES.Decodable() && LogBelow(ONES.q, log) && LogBelow(ONES.q, log')
    ensures |log| == |log'| == 2 && !SameEntry(log[0], log'[0])
    ensures LogBytes(ONES, m, log, 2) == LogBytes(ONES, m, log', 2)
  {
    hide EntryBytes, RequestBytes, LogBytes;
    ToyIsValid();
    var e, f := EntryOfOnes(1), EntryOfOnes(11);
    log, log' := [e, f], [f, e];
    AllOnes(1);
    AllOnes(11);
    LogOfTwo(ONES, m, e, f);
    LogOfTwo(ONES, m, f, e);
    var a, b := EntryBytes(ONES, e.tag, e.proof, e.index), EntryBytes(ONES, f.tag, f.proof, f.index);
    assert a + b == b + a;
  }

  // ----- A complaint at the wrong position -----

  /** A suite with a hash function that reads the key of a misbehaviour proof. */
  const READING: Suite := TOY.(
    pointBytes := (p: Point) => seq(UNIT, i => if i == 0 then p % 256 else 0),
    hash := (data: bytes) => if |data| > 2 * UNIT then data[2 * UNIT] else 1)

  lemma ReadingIsValid()
    ensures READING.Valid()
  {
    ToyIsValid();
  }

  /** Two servers and a client whose last commitment the second server rejects. */
  const SERVERS: seq<Identity> := [Identity(0, 2, 3), Identity(1, 4, 2)]

  const REQUEST: AuthenticationMessage := AuthenticationMessage(
    Context([2, 3], [2, 4], [3, 2], [1, 1]),
    InitialTagAndCommitments([1, 1, 1, 0], 1),
    ClientProof(Challenge(0, []), seq(6, _ => 0), seq(2, _ => 0), seq(4, _ => 0)))

  lemma SmallProducts()
    ensures Mul(5, 2, 1) == 2 && Mul(5, 4, 1) == 4 && Mul(5, 3, 1) == 3 && Mul(5, 1, 1) == 1
  {
    hide Mul;
    MulOne(5, 2);
    MulOne(5, 3);
    MulOne(5, 4);
    MulOne(5, 1);
  }

  /** Server 0 answers, server 1 complains. */
  lemma WhoComplains()
    ensures Behaves(READING, REQUEST, SERVERS[0]) && ServerSecret(READING, REQUEST, SERVERS[0]) == 1
    ensures !Behaves(READING, REQUEST, SERVERS[1])
    ensures RequestAccepted(READING, REQUEST) && CanAnswer(READING, REQUEST, SERVERS)
  {
    hide Mul;
    SmallProducts();
    OneStays();
  }

  /** At position 0, where the key of server 0 is, the complaint of server 1 is rejected. */
  lemma ComplaintRejected(coins: Coins)
    ensures !ComplaintAccepted(READING, REQUEST, SERVERS[1], coins, 0)
  {
    hide Mul;
    SmallProducts();
    var p := GenerateMisbehavingProof(READING, 1, SERVERS[1], coins.v);
    var proved, checked := ProvedInput(READING, 1, SERVERS[1], coins.v), CheckedInput(READING, 2, 1, SERVERS[1], coins.v);
    assert |proved| > 2 * UNIT && proved[2 * UNIT] == 4;
    assert |checked| > 2 * UNIT && checked[2 * UNIT] == 2;
  }

  lemma OwnComplaintAccepted(coins: Coins)
    ensures ComplaintAccepted(READING, REQUEST, SERVERS[1], coins, 1)
  {
    hide Mul, VerifyMisbehavingProof, GenerateMisbehavingProof;
    SmallProducts();
    MisbehavingProofCompleteness(READING, 1, SERVERS[1], coins.v);
  }

  /** The same honest servers and the same request: in the order of their positions both calls succeed
      and the log is accepted; when the server that complains goes first, its log is rejected, and the
      other server's call fails. */
  lemma MisplacedComplaintExample(coins: seq<Coins>)
    requires |coins| == 2
    ensures READING.Valid() && Runnable(READING, REQUEST, SERVERS, coins) && Completes(READING, REQUEST, SERVERS, coins)
    ensures Runnable(READING, REQUEST, [SERVERS[1]], coins[..1])
    ensures Run(READING, REQUEST, [SERVERS[1]], coins[..1]).Some?
    ensures !LogAccepted(READING, REQUEST.context, REQUEST, Run(READING, REQUEST, [SERVERS[1]], coins[..1]).value)
    ensures Runnable(READING, REQUEST, [SERVERS[1], SERVERS[0]], coins)
    ensures Run(READING, REQUEST, [SERVERS[1], SERVERS[0]], coins).None?
  {
    hide Mul, Behaves, ComplaintAccepted, LogAccepted, RequestAccepted, NextEntry;
    ReadingIsValid();
    WhoComplains();
    SmallProducts();
    var first := [SERVERS[1]];
    RunCompletesIffAllPass(READING, REQUEST, SERVERS, coins);
    OwnComplaintAccepted(coins[1]);
    RunCompletesIffAllPass(READING, REQUEST, first, coins[..1]);
    ComplaintRejected(coins[0]);
    EmptyLogAccepted(READING, REQUEST);
    var both := [SERVERS[1], SERVERS[0]];
    assert both[..1] == first;
  }

  // ----- Generators that changed places -----

  const CONTEXT: Context := Context([2, 3], [2, 4], [3, 2], [1, 2])
  const SWAPPED: Context := CONTEXT.(H := [2, 1])
  const STORE: Store := map[1 := map[1 := ContextState(ServedContext(1, 1, [], CONTEXT, [8, 9]), SERVERS[0])]]

  lemma ServersFit()
    ensures HonestRing(TOY, SWAPPED, SERVERS) && IsPermutation(Indexes(SERVERS), 2)
    ensures SharedSecret(TOY, 1, 2) == SharedSecret(TOY, 1, 4) == 1
  {
    hide Mul;
    SmallProducts();
    SharedIsOne(1, 2);
    SharedIsOne(1, 4);
    assert Indexes(SERVERS) == [0, 1];
  }

  lemma SwappedIsAccepted()
    ensures Accepting(STORE, ServedContext(1, 1, [], SWAPPED, [8, 9])) == Some(SERVERS[0])
    ensures Lookup(STORE, 1, 1) == Some(STORE[1][1]) && STORE[1][1].context.context == CONTEXT
  {
    assert SameElements(CONTEXT.X, SWAPPED.X) && SameElements(CONTEXT.Y, SWAPPED.Y);
    assert CONTEXT.H[0] == 1 && CONTEXT.H[1] == 2 && SWAPPED.H[0] == 2 && SWAPPED.H[1] == 1;
    assert SameElements(CONTEXT.H, SWAPPED.H) && SameElements(CONTEXT.R, SWAPPED.R);
  }

  /** A context that is accepted for the served one although two generators changed places: the first
      client, honest like all servers, gets the tag of the second one. */
  lemma SwappedGeneratorsExample(coins: seq<Coins>)
    returns (m: AuthenticationMessage)
    requires |coins| == 2
    ensures Accepting(STORE, ServedContext(1, 1, [], m.context, [8, 9])).Some?
    ensures RequestAccepted(TOY, m) && HonestClient(TOY, m, 1, m.context.H[0])
    ensures Runnable(TOY, m, SERVERS, coins) && Run(TOY, m, SERVERS, coins).Some?
    ensures
      var log := Run(TOY, m, SERVERS, coins).value;
      && LogAccepted(TOY, m.context, m, log)
      && log[1].tag == Mul(5, Product(5, [3, 2]), CONTEXT.H[1]) != Mul(5, Product(5, [3, 2]), CONTEXT.H[0])
  {
    hide Mul, Product, LogAccepted, HonestRing, IsPermutation, StepAccepted, NextTag, NextProof, Accepting, SharedSecret;
    ToyIsValid();
    ServersFit();
    SwappedIsAccepted();
    var initial := InitialOf(TOY, 1, [2, 4], 2);
    ChainStarts(5, SharedSecrets(TOY, 1, [2, 4]));
    m := AuthenticationMessage(SWAPPED, initial, ClientProof(Challenge(0, []), seq(6, _ => 0), seq(2, _ => 0), seq(4, _ => 0)));
    assert forall j :: 0 <= j < 2 ==> SharedSecret(TOY, 1, SWAPPED.Y[j]) == 1;
    ReorderedTagIff(TOY, STORE, ServedContext(1, 1, [], SWAPPED, [8, 9]), STORE[1][1], m, SERVERS, coins, [3, 2], 1, 0);
  }

  // ----- A sound proof library -----

  const SECRETS: seq<Scalar> := [3, 2]

  /** What the first client sends with ephemeral key 1 when all shared secrets are 1. */
  const INITIAL: InitialTagAndCommitments := InitialOf(TOY, 1, CONTEXT.Y, 1)

  /** A proof library that accepts one true statement. */
  const SOUND: Suite := TOY.(pkVerdict := (c, initial, p) => c == CONTEXT && initial == INITIAL)

  const ADMITTED: AuthenticationMessage :=
    AuthenticationMessage(CONTEXT, INITIAL, ClientProof(Challenge(0, []), seq(6, _ => 0), seq(2, _ => 0), seq(4, _ => 0)))

  lemma SoundIsSound()
    ensures SOUND.Valid() && PkSound(SOUND) && RequestAccepted(SOUND, ADMITTED)
    ensures HonestClient(SOUND, ADMITTED, 1, 1) && HonestRing(SOUND, CONTEXT, SERVERS)
  {
    hide Mul, Reduce, Product;
    ToyIsValid();
    SmallProducts();
    OneStays();
    InitialSatisfiesPKClient(TOY, 1, CONTEXT, 0, 2, INITIAL);
    assert SharedSecrets(SOUND, 1, CONTEXT.Y) == SharedSecrets(TOY, 1, CONTEXT.Y);
    ChainStarts(5, SharedSecrets(TOY, 1, CONTEXT.Y));
  }

  /** The conditions of the theorem about accepted logs can be met together. */
  lemma SoundDeploymentExists(coins: seq<Coins>)
    returns (suite: Suite, m: AuthenticationMessage, log: Log, rs: seq<Scalar>)
    requires |coins| == 2
    ensures suite.Valid() && PkSound(suite) && RequestAccepted(suite, m)
    ensures LogAccepted(suite, m.context, m, log) && Committed(suite.q, m.context, rs)
    ensures IsPermutation(LogIndexes(log), |m.context.Y|)
    ensures forall i :: 0 <= i < |log| ==> log[i].proof.r2.Some? && Rewound(suite, m.context, m, log, i)
    ensures PointsBelow(suite.q, m.context, m, log) && m.initial.sCommits[|m.context.Y| + 1] != NULL
  {
    hide Mul, RequestAccepted, HonestClient, Run, Rewound, PointsBelow, PkSound, LogAccepted, HonestRing, Committed, InitialOf;
    SoundIsSound();
    assert Indexes(SERVERS) == [0, 1];
    HonestLogIsCovered(SOUND, ADMITTED, SERVERS, coins, SECRETS, 1, 1);
    suite, m, log, rs := SOUND, ADMITTED, Run(SOUND, ADMITTED, SERVERS, coins).value, SECRETS;
  }

  // ----- A server that signs twice -----

  /** A check of two servers that server 0 has signed, and signs again: without the closing check it
      finalizes, though server 1 has not signed. */
  lemma SignsTwiceExample(nonce: Scalar)
    returns (st: CheckState)
    ensures CheckAccepted(TOY, CONTEXT, st, []) && |st.sigs| + 1 == |CONTEXT.Y|
    ensures
      var after := Updated(TOY, CONTEXT, st, [], SERVERS[0], nonce);
      && FinalizeChallenge(CONTEXT, after).Ok?
      && !SignedOnceByAll(TOY, CONTEXT, FinalizeChallenge(CONTEXT, after).value, [])
  {
    hide Mul, SignedOnceByAll;
    ToyIsValid();
    SmallProducts();
    MulZero(5, 1);
    st := CheckState(0, [ServerSignature(0, [0])], [ChallengeCommitment(0, 0, [0]), ChallengeCommitment(0, 1, [0])], [0, 0]);
    assert Signers(st.sigs) == [0];
    FinalizedWithoutClosingCheck(TOY, CONTEXT, st, [], SERVERS[0], nonce);
  }
}

# Proofs about DAGA and its JavaScript client's wire format

DAGA (Deniable Anonymous Group Authentication, chapter 4 of Syta's "Identity Management Through Privacy
Preserving Authentication") lets a client prove that it belongs to a group without saying which member it
is. A ring of servers turns the client's initial tag into a final linkage tag that is the same whenever the
same client authenticates in the same context. This project models the Go packages that do this and proves
that they compute what they are for; a second, independent part does the same for the protobuf wire codec
that the repository's JavaScript client is built on.

## How the model is built

**Group and suite.** A group element is its exponent: a number below the prime order `q`, with base point 1.
`Zq` defines the field operations and proves their laws, the inverse included. A `Suite` bundles what the Go
code imports: hash, encodings of points and scalars, signatures (only their correctness is asked for) and
the verdict of the proof library on PKclient. Each theorem asks for no more of the suite than it needs. Where a
statement depends on a hash function or a signature scheme having no collisions, the collision is spelt out as the
other alternative (`Collide`, `SamePick`, `Reused`); soundness of the proof library (`PkSound`) is a hypothesis of the
few theorems that need it.

**DAGA primitives** (`sign/daga`). `Encoding`, `Challenges`, `ClientProofs`, `ClientSide`, `ServerProofs` and
`ServerSide` follow the Go functions branch by branch; `ServerMessage` and `ChallengeCheck` are classes whose
methods append to their lists. `LogBinding` is about what signatures on a log bind. `ServerRuns` proves what whole
runs do, `Soundness` what the final tag stands for when clients or servers are dishonest, and `Transcripts` which
logs have the tag of all servers; `LogTags` and `Powers` have the arithmetic behind that. `ProofPipeline` is the prover goroutine
and `newClientProof` as a transition system over two buffered and two unbuffered channels, `VerifierPipeline`
the same for the verifier and `verifyClientProof`.

**Protocols** (`dagacothority/protocols`). `Rings` is the successor on the roster. `AuthProtocol`,
`ChallengeNode` and `ContextNode` are the protocol instances with their handlers as methods. `ChallengeSystem`
is the commit-and-open phase with messages in flight and children that may send what they like;
`ChallengeRing` and `ContextRuns` are honest runs for all orders of arrival.

**Service** (`dagacothority/service`). `Service` is the store of served contexts, `SameElems` the comparison
it relies on, and `Deployment` puts everything together: from the generation of a context to the final tag of
a client that authenticates under it.

`Example` builds a small deployment that meets all the conditions under which the theorems about honest
parties are stated, and the inputs for which the code does not do what one would expect.

**JavaScript codec** (`external/js/src/protobuf.js`). `Varints`, `ReaderSide`, `WriterSide`, `Messages` and
`Base64`. The writer's operations are objects in linked lists, with `fork` and `ldelim` relinking them. `Bits`
defines `|`.

Randomness, nonces, received messages and the answers of other parties are parameters. Where the Go code
panics on an index out of range, the index being in range is a precondition.

## Where the code differs from its documentation

- A misbehaviour proof is verified with the key at the proof's position in the message, not with that of the
  server that made it. Runs of honest servers get through exactly when every server that complains takes its
  turn at the position of its own key or its digests collide (`ServerRuns.RunCompletesIff`).
- `VerifySignatures` accepts an empty list, and the verifier of a request does not count signatures: a request
  whose challenge no server signed is accepted. The challenge of an accepted request is signed by all servers
  exactly when it has as many signatures as there are servers (`ClientProofs.AcceptedChallengeSignedIff`).
- In the challenge protocol `FinalizeChallenge` counts signatures, but the last server to sign is not checked
  for having signed before. The protocol's closing check makes up for it.
- Nothing looks at which servers a finished log names. One that leaves servers out or names them twice is
  accepted (`Example.OneServerExample`); its tag is right whatever the secrets exactly when the log names every
  server once (`Transcripts.AlwaysRightIff`).
- A prover or verifier of the proof library that ended before it asked for the challenge would leave
  `newClientProof` or `verifyClientProof` waiting for ever.
- A node accepts every independent reordering of a context's lists. A client keeps its tag exactly when its
  generator keeps its place (`Deployment.ReorderedTagIff`).
- A node serves a finished context with signatures under the keys in it, not under the keys of the servers that
  it knows (`ContextRuns.ForgedIsServed`, `ContextRuns.ServedIsApprovedIff`).
- The signed bytes of a context carry no lengths: they determine a validated context only for a given number
  of clients. Those of a log do so only for index texts of given lengths (`Example.AmbiguousLogExample`).
- `ContainsSameElems` compares sets: duplicates in the second list hide missing elements.
- `readLongVarint` returns a value for a varint that is cut off when three or four bytes are left.
- `finish` uses up the 64-bit numbers that it writes: a second call repeats the first exactly when all of them
  are below 128 (`WriterSide.FinishTwice`).
- `toNumber` is exact exactly for the numbers that double precision can hold.

## Model

| member | source | states |
|---|---|---|
| `ServerProofs.ServerProofCompleteness` | sign/daga/server.go:442-580 | a proof generated with scalars that satisfy R = r·G, S[j+2] = s·S[j+1] and r·Tprev = s·T is accepted, whatever the random coins |
| `ServerProofs.ServerProofSoundness` | sign/daga/server.go:534-551 | special soundness: two accepting responses to different challenges for the same recomputed t1, t2, t3 yield scalars r and s that satisfy all three relations |
| `ServerProofs.ServerInputInjective` | sign/daga/server.go:517-575 | the hashed bytes determine the five points of the statement and the three recomputed commitments |
| `ServerProofs.AcceptedChallengeIsFixed` | sign/daga/server.go:553-580 | two accepted proofs of one statement with the same recomputed commitments have the same challenge |
| `ServerProofs.AcceptedTwiceYieldsSecrets` | sign/daga/server.go:517-580 | rewinding: proofs of one statement that are accepted under two hash functions, which give the same commitments different challenges, yield secrets that satisfy all three relations |
| `ServerProofs.ChallengeReusedIff` | sign/daga/server.go:517-580 | the challenge of an accepted proof is accepted with another statement or other responses iff these lead to the same statement and commitments, or the digests of two different inputs collide |
| `ServerProofs.ServerProofAcceptedIff` | sign/daga/server.go:442-580 | a proof made for a true statement is accepted for a statement iff it is the same one or the digests of two different inputs collide |
| `ServerProofs.SimulatedIsReal` | sign/daga/server.go:442-551 | honest-verifier zero knowledge: any challenge and responses are those of a prover with suitable coins, and the recomputed commitments are its commitments |
| `ServerProofs.MisbehavingProofCompleteness` | sign/daga/server.go:583-666 | the proof of misbehaviour made with the server's key is accepted under that key |
| `ServerProofs.MisbehavingProofSoundness` | sign/daga/server.go:640-647 | two accepting responses to different challenges yield one y with Y = y·G and Zs = y·Z |
| `ServerProofs.MisbehavingInputInjective` | sign/daga/server.go:628-665 | the hashed bytes determine the key, Z, Zs and both recomputed commitments |
| `ServerProofs.MisbehavingChallengeReusedIff` | sign/daga/server.go:624-665 | the challenge of an accepted misbehaviour proof is accepted with another key, Z, Zs or response iff these lead to the same values, or the digests of two different inputs collide |
| `ServerProofs.MisbehavingProofAcceptedIff` | sign/daga/server.go:628-665 | a misbehaviour proof made with one server's key and checked with any key is accepted iff the keys are the same or the digests of the two different inputs collide |
| `ServerProofs.MisbehavingProofAcceptedIffOwnKey` | sign/daga/server.go:628-665 | it is accepted whatever the hash function iff the keys are the same |
| `ClientSide.NewInitialTagAndCommitments` | sign/daga/client.go:196-276 | for every ephemeral key: S = (Z, G, s1·G, ..., (s1..sm)·G), T0 = (s1..sm)·h, and the returned scalar opens the last commitment, although the running product overwrites sharedSecrets[0] in place |
| `ClientSide.SharedSecretAgreement` | sign/daga/client.go:221-251 | H(z·Y) computed by the client is H(y·Z) computed by the server |
| `ClientSide.SharedSecretEqualIff` | sign/daga/client.go:221-251 | two Diffie-Hellman values give the same shared secret iff they are equal or the digests of their encodings collide |
| `ClientSide.CommitmentTestPasses` | sign/daga/server.go:382-389 | an honest client's chain passes every server's commitment test |
| `ClientSide.InitialSatisfiesPKClient` | sign/daga/client_proof.go:454-464 | the initial tag and commitments of client i satisfy clause i of PKclient |
| `ClientSide.ChainStep` | sign/daga/client.go:261-270 | each entry of the chain is the next shared secret times the entry before it |
| `ClientProofs.NewClientProofPred` | sign/daga/client_proof.go:442-475 | the loop builds one clause per client and binds every name of the predicate to the public value that belongs to it |
| `ClientProofs.PredicateMeansPKClient` | sign/daga/client_proof.go:442-475 | the OR-predicate over the bound names holds for some secrets iff some client i and scalars satisfy X_i = x·G, Sm = s·G and T0 = s·H_i |
| `ClientProofs.ValidateAuthenticationMessage` | sign/daga/client.go:133-158 | accepts exactly the messages with m+2 commitments, S[1] = G and proof sizes n, 2n, 3n |
| `ClientProofs.VerifyAuthenticationMessage` | sign/daga/client.go:163-171 | accepts iff the message is well formed and the client's proof is accepted |
| `ClientProofs.AcceptedRequestMeans` | sign/daga/client_proof.go:373-433 | when the proof library is sound: an accepted request has at least two clients, m+2 commitments with S[1] = G, and some client satisfies PKclient |
| `ClientProofs.UnsignedChallengeAccepted` | sign/daga/client_proof.go:390-396 | a well-formed request without signatures on its challenge is accepted iff the proof is, whatever the challenge |
| `ClientProofs.AcceptedChallengeSignedIff` | sign/daga/client_proof.go:390-396 | the challenge of an accepted request is signed exactly once by every server iff it carries as many signatures as there are servers |
| `Example.UnsignedChallengeExample` | sign/daga/client_proof.go:390-396 | an accepted request whose challenge no server signed |
| `ServerSide.ServerMessage.ServerProtocol` | sign/daga/server.go:313-439 | an error leaves the message unchanged and is returned iff some check fails; otherwise exactly one entry is appended to each of the four lists, with the tag, proof and signature prescribed for this server. What the checks of a call are worth is in RunWasChecked and RunAdmitsClient |
| `ServerSide.ServerMessage.VerifyLogSignatures` | sign/daga/server.go:337-362 | accepts iff every signature i verifies over the request and the entries up to i, under the key of its index. What such a signature binds is in LogBytesInjective and SignatureFixesLog |
| `ServerSide.ServerMessage.VerifyLogProofs` | sign/daga/server.go:364-380 | accepts iff every earlier proof verifies against the tag before it. What accepted proofs are worth is in ServerProofAcceptedIff, MisbehavingProofAcceptedIff and AcceptedLogTag |
| `LogBinding.LogBytesInjective` | sign/daga/server.go:337-362 | for logs whose entries have the same kinds of proofs and index texts of the same lengths: the bytes under signature n are the same iff the requests are, but for the signatures on their challenges, and the tags, proofs and indexes of the first n entries |
| `LogBinding.SignatureFixesLog` | sign/daga/server.go:337-362 | two accepted logs of such shape with the same signature at position i agree in the request and in all entries up to i, or the signature verifies for two messages |
| `Example.AmbiguousLogExample` | sign/daga/server.go:337-362 | index texts of other lengths: the same bytes are signed for the indexes 1, 11 and 11, 1 |
| `ServerSide.ServerMessage.GetFinalLinkageTag` | sign/daga/client.go:280-325 | returns the last tag iff there is one and all signatures and proofs are accepted, for logs of any length |
| `ServerRuns.TagBalance` | sign/daga/server.go:517-551 | invariant over the steps: tag i, multiplied by the shared secrets of the servers so far, is T0 multiplied by their round secrets |
| `ServerRuns.TranscriptFixesTag` | sign/daga/server.go:517-580 | if the indexes are a permutation of all servers, every position satisfies the step relation, PKclient holds and the chain of commitments does not end in null, then the last tag is (r1..rm)·h, whatever the order and the ephemeral key |
| `ServerRuns.VerifiedTranscriptTag` | sign/daga/server.go:517-580 | the same conclusion from statements of which only soundness is known, with the secrets extracted per step; that no step secret is zero follows from the end of the chain |
| `Transcripts.NullChainFixesNothing` | sign/daga/server.go:517-580 | when the chain ends in null, all relations hold for any tag |
| `ServerRuns.RunPrefix` | sign/daga/server.go:401-436 | a run extends the log of every shorter run: earlier entries never change |
| `ServerRuns.RunWasChecked` | sign/daga/server.go:313-380 | every call of a run that gets through had an accepted request, fewer entries than servers, and an accepted log before it |
| `ServerRuns.RunAdmitsClient` | sign/daga/server.go:313-335 | when the proof library is sound: if one call succeeds, S[1] = G, the context has at least two clients, and some client satisfies PKclient |
| `Soundness.AdmittedClientTag` | sign/daga/server.go:313-439 | whatever a client sends: with honest servers that all find it well-behaved, the calls succeed iff the request is accepted, and then the last tag is (r1..rm)·h of some client of the context |
| `Soundness.AcceptedLogTag` | sign/daga/client.go:280-325 | whoever made up the log: if the request is accepted, the log is accepted and names every server once, each with a proof of its computation whose prover can be rewound, and the chain does not end in null, then the last tag is (r1..rm)·h of some client of the context |
| `Soundness.HonestLogIsCovered` | sign/daga/server.go:313-439 | the logs of honest runs meet all these conditions, in particular honest provers can be rewound |
| `Example.SoundDeploymentExists` | sign/daga/server.go:313-439 | a deployment with a sound proof library that meets them |
| `ServerRuns.SignedLogAgreement` | sign/daga/server.go:337-362 | entry i of a run names server i and carries its signature on exactly the bytes that every later call and whoever extracts the tag rebuild; that these bytes bind all entries up to i is LogBytesInjective |
| `ServerRuns.HonestEntryAcceptedIff` | sign/daga/server.go:313-439 | what an honest server appends to an accepted log is accepted iff it found the client well-behaved or its complaint passes the check with the key at its position in the log |
| `ServerRuns.RunCompletesIffAllPass` | sign/daga/server.go:313-439 | the calls of honest servers all succeed and leave an accepted log iff there are none, or the request is accepted, there are no more calls than servers, and every complaint passes at its position |
| `ServerRuns.RunCompletesIff` | sign/daga/server.go:313-439 | iff there are none, or the request is accepted, there are no more calls than servers, and every server that complains takes its turn at the position of its own key or its proof meets a collision of digests |
| `ServerRuns.HonestRunSucceeds` | sign/daga/server.go:313-439 | from an accepted request, every call of honest servers in any order succeeds, and all proofs and signatures verify again, when each server either finds the client well-behaved and shares a non-zero secret with it or complains at the position of its own key |
| `Example.MisplacedComplaintExample` | sign/daga/server.go:364-380 | two honest servers, the second of which complains: in the order of their keys both calls succeed; when the one that complains goes first its log is rejected and the other's call fails |
| `ServerRuns.HonestRunTag` | sign/daga/server.go:313-439 | and the last tag is the product of the round secrets applied to the client's generator |
| `Transcripts.LogTagIff` | sign/daga/client.go:280-325 | whichever servers a log names, and how often: its tag is (r1..rm)·h iff the products of the round secrets and of the shared secrets of those it names, each completed by the other kind over all servers, are the same |
| `LogTags.AlwaysBalancedIff` | sign/daga/client.go:280-325 | this equation holds for all non-zero secrets iff every server is named once, up to multiples of q - 1 |
| `Transcripts.AlwaysRightIff` | sign/daga/client.go:280-325 | all transcripts with given indexes have the right tag iff every server has one turn up to multiples of q - 1; for fewer than m + q - 1 entries, iff the indexes are a permutation of the servers, which a caller can check |
| `Transcripts.HonestLogTagIff` | sign/daga/server.go:313-439 | honest servers that take turns in any order, some more than once and some not at all, leave an accepted log as long as there are no more turns than servers; its tag is the right one iff the secrets of those who took part balance |
| `Example.OneServerExample` | sign/daga/client.go:280-325 | accepted logs of two servers' context with one turn, and with two turns, of the first server, neither of which has the tag of both |
| `ServerRuns.AuthenticationsAreLinked` | sign/daga/client.go:280-325 | two authentications by one client in one context, with different ephemeral keys, server orders and coins, give the same tag |
| `ServerRuns.TagsTellGeneratorsApart` | sign/daga/client.go:280-325 | clients with different generators get different tags as long as all round secrets are non-zero |
| `Deployment.ClientsKeepApart` | sign/daga/client.go:280-325 | two authentications under one generated context, of any clients with any ephemeral keys, rosters, leaders and coins, end in the same tag iff they are of the same client or two different inputs lead to the same generator |
| `ServerRuns.NullTagIsAbsorbing` | sign/daga/server.go:382-401 | once a tag is null, all later ones are |
| `ServerRuns.TagIsNullIff` | sign/daga/server.go:382-401 | tag k is null iff one of the first k servers found S[j+2] different from s·S[j+1] |
| `ServerRuns.NullTagMarksMisbehaviour` | sign/daga/server.go:382-401 | in every run whose calls all succeed, the final tag is null iff some server found the client misbehaving |
| `Challenges.VerifySignatures` | sign/daga/server.go:92-110 | accepts iff no index occurs twice and every signature is one on the challenge by the server it names; an empty list is accepted |
| `Challenges.SignedByAllIffCounted` | sign/daga/server.go:92-110 | pigeonhole: accepted signatures are one of every server iff there are as many as servers |
| `Challenges.NewChallengeCommitment` | sign/daga/server.go:147-165 | the opening opens the commitment and the signature verifies |
| `Challenges.VerifyChallengeCommitmentsSignatures` | sign/daga/server.go:181-192 | accepts iff entry i names server i and is signed by it |
| `Challenges.CommitmentIsBound` | sign/daga/server.go:167-178 | a signature on a commitment is good for no other commitment, unless it verifies for two messages |
| `Challenges.CheckOpenings` | sign/daga/server.go:200-221 | accepts iff there is one commitment and one opening per server and all openings fit; the result is their sum modulo q (SumIsTotal), in which every opening counts (OneOpeningDecides) |
| `Challenges.SumIsTotal` | sign/daga/server.go:213-220 | the sum of the loop is the sum of the openings as integers, modulo q |
| `Challenges.SumAppend` | sign/daga/server.go:213-220 | the openings of two groups of servers add up |
| `Challenges.SumOfPermutation` | sign/daga/server.go:213-220 | the order of the openings does not matter |
| `Challenges.SumReplaced` | sign/daga/server.go:213-220 | replacing one opening shifts the challenge by exactly the difference modulo q |
| `Challenges.OneOpeningDecides` | sign/daga/server.go:200-221 | for every target challenge there is exactly one opening of server i, with which the openings are accepted again and give it: no m - 1 servers fix the challenge |
| `Challenges.CommitmentsFixChallenge` | sign/daga/server.go:200-221 | accepted openings, and with them the challenge, are a function of the commitments |
| `Challenges.InitializeChallenge` | sign/daga/server.go:224-237 | succeeds iff there are commitments and their openings are accepted, and starts without signatures |
| `Challenges.ChallengeCheck.CheckUpdateChallenge` | sign/daga/server.go:242-280 | fails iff signatures, commitments, openings or sum are not accepted and then changes nothing; otherwise appends one signature unless all servers have signed |
| `Challenges.CheckFixesChallenge` | sign/daga/server.go:242-280 | two accepted checks with the same signatures on commitments have the same commitments, openings and challenge, or such a signature verifies for two messages |
| `Challenges.ChallengeIsBound` | sign/daga/server.go:92-127 | a server's signature on a challenge is good for no other challenge and no other client's commitments, unless it verifies for two messages |
| `Challenges.FinalizedIsSignedByAll` | sign/daga/server.go:284-294 | an accepted check that finalizes carries exactly one valid signature of every server |
| `Challenges.FinalizedWithoutClosingCheck` | sign/daga/server.go:242-294 | without the closing check this holds iff the last server to sign had not signed before |
| `Example.SignsTwiceExample` | sign/daga/server.go:242-294 | two servers, the first of which signs twice: without the closing check the challenge finalizes |
| `Challenges.UpdatedIsAccepted` | sign/daga/server.go:242-280 | an update keeps the check acceptable for the next server |
| `Challenges.RoundTripSigners` | sign/daga/server.go:242-280 | after any number of servers in a row the signers are these servers in that order and nothing else has changed |
| `Challenges.ChallengeRoundSucceeds` | sign/daga/server.go:224-294 | for every order of the m servers: the closing check changes nothing and the challenge finalizes to the sum of the openings, signed by all |
| `Encoding.ItoaInjective` | sign/daga/client_proof.go:442-475 | decimal index texts differ for different indexes, so that clause names do not clash |
| `Encoding.DigitsAreDecimal` | sign/daga/client_proof.go:442-475 | the text is the number in decimal |
| `Encoding.ChallengeBytesInjective` | sign/daga/server.go:113-127 | a signature on a challenge binds the challenge and the client's commitments |
| `Encoding.AuthenticationContextToBytes` | sign/daga/daga.go:192-219 | the loops produce X, Y, H and R one after the other |
| `Encoding.ContextBytesInjectiveIff` | sign/daga/daga.go:192-219 | two validated contexts with the same bytes are equal iff they have the same number of clients |
| `Encoding.ContextBytesAmbiguous` | sign/daga/daga.go:192-219 | two different valid contexts with the same bytes |
| `Encoding.RequestBytesInjective` | sign/daga/daga.go:246-271 | the bytes of an authentication message determine it among messages of the same sizes |
| `Rings.IndexOf` | dagacothority/utils.go:71-78 | the first position of a key, or -1 |
| `Rings.NextNode` | dagacothority/protocols/utils.go:15-24 | the tree node with the key after the given position, or an error iff the tree has none |
| `Rings.RingIsOneCycle` | dagacothority/protocols/utils.go:15-24 | m hops visit every position exactly once and lead back, and no smaller number of hops does |
| `Rings.RingFromPermutes` | dagacothority/protocols/utils.go:15-24 | the ring order from any leader is a permutation of the servers |
| `AuthProtocol.Node.Start` | dagacothority/protocols/dagaauth/protocol.go:110-140 | the leader's first step, sent to the next node |
| `AuthProtocol.Node.HandleServerMsg` | dagacothority/protocols/dagaauth/protocol.go:164-207 | one server step on a received message: forwarded to the next node, or, after the last server, sent to everyone |
| `AuthProtocol.Node.HandleFinishedServerMsg` | dagacothority/protocols/dagaauth/protocol.go:209-232 | the tag is returned iff the log is accepted, and only the leader keeps the result |
| `AuthProtocol.ToAllReachesAll` | dagacothority/protocols/dagaauth/protocol.go:186-207 | the finished message reaches the nodes of the tree and nobody else, the sender once and every other node as often as it is in the tree |
| `AuthProtocol.RingDelivers` | dagacothority/protocols/dagaauth/protocol.go:164-255 | after k deliveries one message is in flight, to the node k+1 hops after the leader, and the last-server test fires at hop m-1 and not before |
| `AuthProtocol.AuthenticationSucceeds` | dagacothority/protocols/dagaauth/protocol.go:110-255 | for every leader the protocol ends with a log that every node accepts and the tag (r1..rm)·h |
| `SlotBuffers.AllFilled` | dagacothority/protocols/dagachallengegeneration/protocol.go:132-168 | pigeonhole: as many writes as slots leave no slot empty |
| `ChallengeNode.Protocol.SaveCommitment` | dagacothority/protocols/dagachallengegeneration/protocol.go:157-168 | fills an empty slot and refuses everything else |
| `ChallengeNode.Protocol.SaveOpening` | dagacothority/protocols/dagachallengegeneration/protocol.go:132-143 | fills an empty slot and refuses everything else |
| `ChallengeNode.Protocol.Start` | dagacothority/protocols/dagachallengegeneration/protocol.go:183-224 | stores the leader's own commitment and opening and announces the commitment |
| `ChallengeNode.StartedExpectsAll` | dagacothority/protocols/dagachallengegeneration/protocol.go:183-224 | a leader that starts has a slot for every server of the context, and as many are empty as it has children |
| `ChallengeNode.Protocol.HandleAnnounce` | dagacothority/protocols/dagachallengegeneration/protocol.go:243-288 | a child replies iff it accepts the request and the leader's signature, and stores the leader's commitment and its own opening |
| `ChallengeNode.Protocol.HandleAnnounceReply` | dagacothority/protocols/dagachallengegeneration/protocol.go:298-330 | the leader reveals its opening iff every reply is signed by the server it names and goes into an empty slot |
| `ChallengeNode.Protocol.HandleOpen` | dagacothority/protocols/dagachallengegeneration/protocol.go:334-357 | a child reveals its opening iff the leader's opening fits the commitment it stored |
| `ChallengeNode.Protocol.HandleOpenReply` | dagacothority/protocols/dagachallengegeneration/protocol.go:361-396 | the leader initializes and signs the check iff all slots are filled and all openings fit |
| `ChallengeNode.Protocol.HandleFinalize` | dagacothority/protocols/dagachallengegeneration/protocol.go:400-427 | checks and signs; the result is published iff all servers had signed before |
| `ChallengeNode.FinalizingIsChecked` | dagacothority/protocols/dagachallengegeneration/protocol.go:400-427 | what is published is signed once by every server and is the sum of accepted openings of signed commitments; what is passed on is accepted by the next node unless the server had signed before |
| `ChallengeNode.CollectFills` | dagacothority/protocols/dagachallengegeneration/protocol.go:298-330 | collected slots hold verified commitments and each reply fills one more |
| `ChallengeSystem.StepInv` | dagacothority/protocols/dagachallengegeneration/protocol.go:183-396 | the invariant is kept by every step of the leader, of honest children and of children that send what they like |
| `ChallengeSystem.NoOpeningBeforeAllCommitments` | dagacothority/protocols/dagachallengegeneration/protocol.go:298-357 | in every run no opening is revealed before all m slots hold verified commitments |
| `ChallengeSystem.CommitmentsStay` | dagacothority/protocols/dagachallengegeneration/protocol.go:298-396 | from then on the commitments never change |
| `ChallengeSystem.ChallengeIsFixed` | dagacothority/protocols/dagachallengegeneration/protocol.go:361-396 | and all continuations that reach a challenge reach the same one, whatever dishonest children do |
| `ChallengeSystem.RevealedAfterOpening` | dagacothority/protocols/dagachallengegeneration/protocol.go:243-357 | in every run: a child that has revealed its opening holds a commitment signed under a key of its context and was sent an opening of exactly that commitment before |
| `ChallengeRing.CollectsInAnyOrder` | dagacothority/protocols/dagachallengegeneration/protocol.go:298-330 | signed commitments of different servers are collected in every order of arrival, each in its server's slot |
| `ChallengeRing.HonestCommitsCollect` | dagacothority/protocols/dagachallengegeneration/protocol.go:298-330 | the commitments of an honest round fill all slots by index |
| `ChallengeRing.HonestOpeningsCollect` | dagacothority/protocols/dagachallengegeneration/protocol.go:361-396 | and so do the openings |
| `ChallengeRing.CheckGoesAround` | dagacothority/protocols/dagachallengegeneration/protocol.go:400-448 | after k deliveries the check carries k+1 signatures and is on its way to the node k+1 hops after the leader; the test on the number of signatures is true at delivery m and not before, and delivery m is to the leader |
| `ChallengeRing.ChallengeGenerationSucceeds` | dagacothority/protocols/dagachallengegeneration/protocol.go:183-448 | for every leader and all orders of arrival the result is the sum of all openings, signed exactly once by every server |
| `SameElems.ContainsSameElems` | dagacothority/utils.go:11-30 | the two loops over a map decide: same length and every element of b in a |
| `SameElems.SameIffPermuted` | dagacothority/utils.go:11-30 | for b without duplicates this holds iff b is a permutation of a, and then a has no duplicates either |
| `SameElems.TrustedIffDistinct` | dagacothority/utils.go:11-30 | acceptance implies a permutation for all a iff b has no duplicates |
| `SameElems.DropsUnnoticedIff` | dagacothority/utils.go:11-30 | a list that is no permutation of a is accepted iff a has two different elements |
| `ContextNode.GenerateClientGenerator` | sign/daga/gencontext.go:85-112 | fails iff the index is negative or there are no commitments; otherwise the point picked from the digest of the index and the commitments, which tell generators apart (GeneratorEqualIff) |
| `ContextNode.GeneratorEqualIff` | sign/daga/gencontext.go:85-112 | for equally many commitments: two generators are equal iff index and commitments are, or two different inputs lead to the same point |
| `ContextRuns.AgreedGeneratorsEqualIff` | dagacothority/protocols/dagacontextgeneration/protocol.go:256-262 | the same for clients of the contexts that two honest runs agree on |
| `ContextNode.Protocol.Start` | dagacothority/protocols/dagacontextgeneration/protocol.go:138-186 | the leader takes index 0 and child i gets index i+1 |
| `ContextNode.Protocol.HandleAnnounce` | dagacothority/protocols/dagacontextgeneration/protocol.go:204-238 | a child that accepts replies with its new key and commitment |
| `ContextNode.Protocol.HandleAnnounceReply` | dagacothority/protocols/dagacontextgeneration/protocol.go:241-270 | stores each reply at its sender's index and computes all generators from the completed commitments |
| `ContextNode.Protocol.HandleSign` | dagacothority/protocols/dagacontextgeneration/protocol.go:273-320 | signs iff its key, its commitment, all generators and the subscribers are right |
| `ContextNode.Protocol.HandleSignReply` | dagacothority/protocols/dagacontextgeneration/protocol.go:323-364 | completes the context iff every signature verifies under the key at its sender's index and the context is valid |
| `ContextNode.CompletedIsSigned` | dagacothority/protocols/dagacontextgeneration/protocol.go:323-386 | what the leader completes passes every node's check: all its signatures verify under the keys at their positions, whoever sent them |
| `ContextNode.ContextIdEqualIff` | dagacothority/struct.go:42-82 | two valid contexts with the same number of clients have the same identifier iff they are the same or the identifiers of different bytes collide |
| `ContextNode.Protocol.HandleDone` | dagacothority/protocols/dagacontextgeneration/protocol.go:367-386 | serves the context iff it carries a valid signature under every server key in it |
| `ContextNode.AssignByIndex` | dagacothority/protocols/dagacontextgeneration/protocol.go:249-253 | writes from senders with different indexes commute |
| `ContextRuns.ContextGenerationAgrees` | dagacothority/protocols/dagacontextgeneration/protocol.go:138-386 | whatever the orders in which replies arrive: the leader builds the same context with server j's entries at index j, every server accepts and signs it, it is valid, its signatures verify everywhere, and it fits the servers as authentication requires |
| `ContextRuns.ApprovalFixesContext` | dagacothority/protocols/dagacontextgeneration/protocol.go:273-320 | two valid contexts without duplicate subscribers that all servers approve have the same keys, commitments, generators and subscribers up to their order, whoever leads |
| `ContextRuns.ForgedIsServed` | dagacothority/protocols/dagacontextgeneration/protocol.go:367-386 | for every child there is a context that passes its check on the finished context though it does not approve it |
| `ContextRuns.ServedIsApprovedIff` | dagacothority/protocols/dagacontextgeneration/protocol.go:367-386 | a context with verifying signatures, where servers sign only what they approve, is approved by all servers iff the keys in it are theirs |
| `Service.Equals` | dagacothority/struct.go:119-126 | decides that the lists have equal lengths and every element of the second context's lists is in the first one's |
| `Service.ServiceState.GetContextState` | dagacothority/service/struct.go:99-108 | fails iff the identifier is nil or unknown |
| `Service.Node.CreateIfNotExisting` | dagacothority/service/struct.go:46-56 | adds an empty state iff there is none and changes nothing else |
| `Service.Node.GetServiceState` | dagacothority/service/service.go:416-425 | fails iff the identifier is nil or unknown |
| `Service.Node.ValidateCreateContextReq` | dagacothority/service/service.go:52-73 | accepts iff the request is well formed, and creates the service's state only then |
| `Service.Node.StartServingContext` | dagacothority/service/service.go:446-469 | adds the context iff its identifier is new to the service; nothing else changes |
| `Service.Node.AcceptContext` | dagacothority/service/service.go:191-209 | returns the stored identity iff both identifiers are known and the element-wise comparison succeeds |
| `Service.Node.ValidateContext` | dagacothority/service/service.go:173-187 | additionally asks for a roster and a valid context |
| `Service.Node.ValidatePKClientReq` | dagacothority/service/service.go:212-224 | additionally asks for three commitments per client |
| `Service.Node.CreateServedContext` | dagacothority/service/service.go:114-136 | succeeds iff the request is well formed, the protocol produced a context and its identifier is new |
| `Service.ServedStays` | dagacothority/service/service.go:446-469 | in every later state a served context is found unchanged |
| `Service.ServedIsAccepted` | dagacothority/service/service.go:191-209 | and accepted under the identity it is served with |
| `Service.AcceptedFits` | dagacothority/service/service.go:191-209 | as long as the served contexts are valid and have an entry for the node, so do all contexts that the node ever accepts, as the servers' protocol under them needs |
| `Service.CreatedFits` | dagacothority/struct.go:60-82 | what a leader creates is valid, and serving it keeps all served contexts so |
| `Service.AcceptsReorderings` | dagacothority/service/service.go:191-209 | among contexts without duplicates exactly the reorderings of the served one are accepted |
| `Deployment.ReorderedTagIff` | dagacothority/service/service.go:191-209 | under an accepted context client i gets the tag of the client whose generator stands at i, so its own iff that generator is where it is in the served context |
| `Example.SwappedGeneratorsExample` | dagacothority/service/service.go:191-209 | an accepted context with two generators swapped, under which the first client, honest like all servers, gets the tag of the second |
| `Deployment.GeneratedContextIsServed` | dagacothority/service/service.go:114-136 | every server of an honest generation accepts the agreed context with its own identity, key and round secret in every later state |
| `Deployment.ClientAuthenticates` | dagacothority/protocols/dagaauth/protocol.go:110-255 | from context generation to the final tag: for every roster order, leader, ephemeral key and all coins, the tag is fixed by the servers' round secrets and the client's index |
| `ProofPipeline.NextInv` | sign/daga/client_proof.go:154-257 | every move of prover and client keeps: received and buffered messages together are the prover's, in order |
| `ProofPipeline.PutsNeverBlock` | sign/daga/client_proof.go:170-188 | no Put finds its buffer full or its channel closed |
| `ProofPipeline.NoDeadlock` | sign/daga/client_proof.go:325-369 | when no move is possible, newClientProof has returned, or waits for commitments of a prover that has ended or for sub-challenges that are not sent |
| `ProofPipeline.EveryRunEndsWithOutcome` | sign/daga/client_proof.go:302-370 | wherever the prover ends, every interleaving has at most 10n+9 moves and comes to rest in the same place: a proof with T, C and R of lengths 3n, n and 2n as the prover sent them, an error, waiting for ever for commitments iff the prover ends before it asks for the challenge, or for sub-challenges iff the challenge was accepted and the prover does not send them |
| `ProofPipeline.ProofIff` | sign/daga/client_proof.go:302-370 | a proof comes out iff the challenge is accepted and the prover ends with no error anywhere |
| `ProofPipeline.WaitsForeverIffAnswered` | sign/daga/client_proof.go:313-319 | a prover without sub-challenges makes the client wait for them for ever iff it asks for the challenge and the challenge was accepted, which is why contexts with one client are refused |
| `VerifierPipeline.NextInv` | sign/daga/client_proof.go:52-136 | every move of the verifier and of the server's code keeps: received and buffered messages together are the proof's, in order |
| `VerifierPipeline.NoDeadlock` | sign/daga/client_proof.go:373-433 | when no move is possible, verifyClientProof has returned or the program has ended, or the verifier stopped before the challenge, which then is never taken |
| `VerifierPipeline.EveryRunEndsWithOutcome` | sign/daga/client_proof.go:373-433 | wherever the verifier stops, every interleaving terminates with the same outcome: errors for wrong numbers of commitments or responses, a crash iff there are more than n sub-challenges behind 3n commitments that it takes, waiting for ever iff it stops on 3n commitments, success iff it finds no error, and otherwise its first error |
| `VerifierPipeline.ValidatedNeverCrashes` | sign/daga/client.go:133-171 | behind the validation of a request the program never ends, no number is wrong, and what is returned in any run is the first error of the verifier on this proof, or none |
| `Varints.VarintHasLength` | dagacothority/external/js/src/protobuf.js:5911-5924 | the length of a varint by the size of the number |
| `Varints.VarintExample` | dagacothority/external/js/src/protobuf.js:6777-6783 | 300 takes the bytes 172 and 2 |
| `Varints.Length32` | dagacothority/external/js/src/protobuf.js:6808-6820 | the length that the writer reserves is the number of bytes written |
| `Varints.Length64` | dagacothority/external/js/src/protobuf.js:5911-5924 | LongBits.length is the number of bytes of the varint of hi·2^32 + lo |
| `Varints.WriteVarint32` | dagacothority/external/js/src/protobuf.js:6777-6783 | writes exactly the varint at the position and nothing else |
| `Varints.ShiftedValue` | dagacothority/external/js/src/protobuf.js:6843-6848 | shifting the two halves is dividing the 64-bit number by 128 |
| `Bits.OrIsSum` | dagacothority/external/js/src/protobuf.js:6843-6854 | `|` is a sum where one operand has only bits below those of the other |
| `Varints.OrOfShifted` | dagacothority/external/js/src/protobuf.js:5889-5924 | bits shifted to the left within 32 bits are joined with those to their right by a sum |
| `Varints.LongBits.WriteVarint64` | dagacothority/external/js/src/protobuf.js:6843-6854 | writes exactly the varint of the number; the object keeps only the last seven bits |
| `Varints.LongBits.ZzEncode` | dagacothority/external/js/src/protobuf.js:5889-5894 | zig-zag encoding of the 64-bit number |
| `Varints.LongBits.ZzDecode` | dagacothority/external/js/src/protobuf.js:5900-5905 | its inverse |
| `Varints.ZigZagInverts` | dagacothority/external/js/src/protobuf.js:5889-5905 | both directions |
| `Varints.ZigZagOfSigned` | dagacothority/external/js/src/protobuf.js:5889-5894 | 0, -1, 1, -2, ... become 0, 1, 2, 3, ... |
| `Varints.FromNumber` | dagacothority/external/js/src/protobuf.js:5779-5797 | the lowest 64 bits of the number without its fraction, in two's complement |
| `Varints.TruncatedTowardsZero` | dagacothority/external/js/src/protobuf.js:5779-5797 | the fraction is cut off towards zero |
| `Varints.LongBits.ToNumber` | dagacothority/external/js/src/protobuf.js:5822-5831 | the nearest double-precision number, which up to 2^53 is the number itself |
| `Varints.DoubleIsExactIff` | dagacothority/external/js/src/protobuf.js:5817-5831 | a number is kept iff it is a multiple of the spacing of double-precision numbers near it |
| `Varints.DoubleIsNearest` | dagacothority/external/js/src/protobuf.js:5817-5831 | rounding is to the nearest multiple of the spacing; another multiple that is as near is odd |
| `Varints.SpacingLeaves53Bits` | dagacothority/external/js/src/protobuf.js:5817-5831 | a number has at most 53 bits in units of its spacing, and exactly 53 from 2^52 on |
| `Varints.NumberRoundTripIff` | dagacothority/external/js/src/protobuf.js:5779-5831 | 64 bits survive toNumber and fromNumber iff the magnitude is such a multiple |
| `Varints.NumberRoundTripExample` | dagacothority/external/js/src/protobuf.js:5779-5831 | 2^53 + 1 comes back as 2^53 |
| `ReaderSide.VarintIsRead` | dagacothority/external/js/src/protobuf.js:3660-3748 | a varint is recognized and has its value whatever follows |
| `ReaderSide.Reader.Uint32` | dagacothority/external/js/src/protobuf.js:3660-3676 | the exact result and position for every buffer, including reads past the end and varints of more than five bytes |
| `ReaderSide.Reader.ReadLongVarint` | dagacothority/external/js/src/protobuf.js:3697-3748 | the exact result for every buffer on the fast and on the checked route; it succeeds iff a varint ends within ten bytes or three or four bytes are left |
| `ReaderSide.Reader.Bytes` | dagacothority/external/js/src/protobuf.js:3877-3892 | the bytes behind their length, or an error iff they do not fit |
| `ReaderSide.HighStep` | dagacothority/external/js/src/protobuf.js:3728-3745 | bytes six to ten go to the high half, and of the tenth only one bit is kept |
| `ReaderSide.Uint32RoundTrip` | dagacothority/external/js/src/protobuf.js:3660-3676 | a written 32-bit number is read back |
| `ReaderSide.LongRoundTrip` | dagacothority/external/js/src/protobuf.js:3697-3748 | both halves of a written 64-bit number are read back, and the position moves by LongBits.length |
| `ReaderSide.Sint64RoundTrip` | dagacothority/external/js/src/protobuf.js:5889-5905 | zig-zag encoded numbers are read back |
| `ReaderSide.Int32RoundTrip` | dagacothority/external/js/src/protobuf.js:6828-6832 | negative numbers take ten bytes, and the 32-bit read recovers them and skips all ten |
| `ReaderSide.Sint32RoundTrip` | dagacothority/external/js/src/protobuf.js:6839-6841 | zig-zag encoded 32-bit numbers are read back |
| `ReaderSide.BytesRoundTrip` | dagacothority/external/js/src/protobuf.js:3877-3892 | written bytes are read back |
| `ReaderSide.CutVarintIsRead` | dagacothority/external/js/src/protobuf.js:3715-3726 | a varint that is cut off after k bytes is read iff k is three or four, as its value modulo 128^k, with the position behind four bytes |
| `ReaderSide.UnendedExample` | dagacothority/external/js/src/protobuf.js:3715-3726 | three continued bytes are read as zero, with the position behind the end |
| `WriterSide.ChainIsAcyclic` | dagacothority/external/js/src/protobuf.js:6767-6771 | a list of operations that ends has no cycle |
| `WriterSide.Op.Write` | dagacothority/external/js/src/protobuf.js:6773-6901 | an operation writes exactly what is due at its position; a 64-bit number is left with its last seven bits |
| `WriterSide.Writer.Push` | dagacothority/external/js/src/protobuf.js:6767-6771 | appends one operation at the tail; all other lists stay as they are and len stays the sum of the lengths |
| `WriterSide.Writer.Uint32` | dagacothority/external/js/src/protobuf.js:6808-6820 | appends the varint of the number cut to 32 bits |
| `WriterSide.Writer.Int32` | dagacothority/external/js/src/protobuf.js:6828-6832 | appends the varint of the two's complement |
| `WriterSide.Writer.Sint32` | dagacothority/external/js/src/protobuf.js:6839-6841 | appends the varint of the zig-zag encoding |
| `WriterSide.Writer.Uint64` | dagacothority/external/js/src/protobuf.js:6862-6865 | appends the varint of the 64-bit number |
| `WriterSide.Writer.Sint64` | dagacothority/external/js/src/protobuf.js:6882-6885 | appends the varint of its zig-zag encoding |
| `WriterSide.Writer.Bool` | dagacothority/external/js/src/protobuf.js:6892-6894 | appends one byte |
| `WriterSide.Writer.WriteFixed` | dagacothority/external/js/src/protobuf.js:6896-6910 | appends four bytes, least significant first (Fixed32Value) |
| `WriterSide.Fixed32Value` | dagacothority/external/js/src/protobuf.js:6896-6901 | the four bytes, read with the least significant first, are the number |
| `WriterSide.Writer.Bytes` | dagacothority/external/js/src/protobuf.js:6975-6985 | appends the bytes behind their length |
| `WriterSide.Writer.BytesOfText` | dagacothority/external/js/src/protobuf.js:6975-6985 | for a text of whole groups: fails iff it is no base64, otherwise appends the decoded bytes in a buffer of the text's length, behind that length |
| `WriterSide.TextOfEncoding` | dagacothority/external/js/src/protobuf.js:6975-6985 | for the encoding of bytes these are the bytes and their length |
| `WriterSide.Writer.Fork` | dagacothority/external/js/src/protobuf.js:7004-7009 | puts the current list aside and starts an empty one |
| `WriterSide.Writer.Reset` | dagacothority/external/js/src/protobuf.js:7015-7026 | drops the current list and restores the one put aside last |
| `WriterSide.Writer.Ldelim` | dagacothority/external/js/src/protobuf.js:7032-7043 | the outer list goes on with the varint of the inner length and the inner operations, linked in without copying |
| `WriterSide.Writer.Finish` | dagacothority/external/js/src/protobuf.js:7049-7060 | the buffer is filled exactly with what is due, which for a list that was not finished before is everything queued; every 64-bit number is used up, and another call is possible |
| `WriterSide.FinishTwice` | dagacothority/external/js/src/protobuf.js:7049-7060 | two calls in a row return the same bytes iff every queued 64-bit number is below 128 before the first |
| `WriterSide.FinishTwiceExample` | dagacothority/external/js/src/protobuf.js:6843-6854 | with the number 128 the buffers are 128, 1 and then 1, 0 |
| `Messages.CallsWriteEncoding` | dagacothority/external/js/src/protobuf.js:7004-7043 | over any balanced sequence of writes, forks and ldelims exactly the recursive encoding is appended |
| `Messages.ForkAndReset` | dagacothority/external/js/src/protobuf.js:7004-7026 | what is written between fork and reset leaves no trace |
| `Messages.NestedIsRead` | dagacothority/external/js/src/protobuf.js:3877-3892 | a nested message is read back as bytes, and what follows it is left to read |
| `Messages.ScalarIsRead` | dagacothority/external/js/src/protobuf.js:3660-3892 | every kind of scalar is read back by the read that belongs to it, whatever follows |
| `Messages.WriteMessage` | dagacothority/external/js/src/protobuf.js:7004-7043 | the same for the calls on the linked lists |
| `Messages.EncodeMessage` | dagacothority/external/js/src/protobuf.js:7049-7060 | the finished buffer is the encoding of the message |
| `Base64.Tables` | dagacothority/external/js/src/protobuf.js:119-127 | the loop fills both tables, and they are inverse |
| `Base64.LettersOfAlphabet` | dagacothority/external/js/src/protobuf.js:119-127 | the alphabet of table 1 of RFC 4648 |
| `Base64.EncodedExample` | dagacothority/external/js/src/protobuf.js:136-178 | the beginnings f, fo, foo and foobar are encoded as section 10 of RFC 4648 says |
| `Base64.EmitsEncoded` | dagacothority/external/js/src/protobuf.js:136-178 | the encoder's state machine emits the encoding of section 4 of RFC 4648 |
| `Base64.Encode` | dagacothority/external/js/src/protobuf.js:136-178 | for every length: flushing the whole chunk array never emits a stale character |
| `Base64.Decode` | dagacothority/external/js/src/protobuf.js:190-224 | fails iff the text is no encoding; otherwise returns the number of decoded bytes and stores them from the offset on |
| `Base64.DecodesEncoded` | dagacothority/external/js/src/protobuf.js:190-224 | decoding inverts encoding |
| `Base64.RoundTrip` | dagacothority/external/js/src/protobuf.js:136-224 | encoding, allocating by the text's length and decoding gives the bytes back |
| `Base64.EncodedShape` | dagacothority/external/js/src/protobuf.js:109-117 | a multiple of four characters with padding for exactly the missing bytes |
| `Base64.LengthOfEncoded` | dagacothority/external/js/src/protobuf.js:109-117 | base64.length of an encoding is the number of bytes |

## Left out

- WriterSide.Writer.BytesOfText: does not model texts of which the length is no multiple of four, because `base64.length` gives a fraction for them and the writer's length then is no longer the size of a buffer.
- Curve arithmetic, the cofactor and points of small order, hash functions, the inside of Schnorr signatures and of the proof library: they are parameters with the properties that the theorems name.
- Anonymity, deniability and every other property that is about probabilities.
- Errors of marshalling and unmarshalling, and nil pointers other than a missing r2: points and scalars always have an encoding.
- The result of PriRand, and the goroutine that stays behind when newClientProof returns early: unfinished in the source.
- What the proof library's prover says, what its verifier decides and where they end are parameters; as far as they get, they send and ask for the messages of an OR-predicate with n clauses.
- onet's transport, trees with other shapes, timeouts and the result channels' select: a message in flight is delivered, and an aggregating handler is called when all children have replied.
- Messages to children that their leader did not send: children take announcements and openings from the leader only.
- PopulateServiceState, persistent storage and locking: service steps are atomic, and the overwrite that only the repository's own checks use is no step.
- The field-by-field copies of NetEncode and NetDecode.
- validateAuthReq, the request handlers around the protocols, the command line, simulation and web pages: they add no property of their own.
- In the JavaScript codec: strings, floats, fixed64, skip and skipType, the Buffer variants, code generation and reflection. `utf8.read` emits its whole chunk array when it flushes, so an unbounded round trip is not a true claim about it.
- The sharing of one zero object among LongBits: writing it changes nothing.
- NaN and infinite numbers in fromNumber, and numbers given as strings or Long objects.
- Reader.bytes returns a view of the buffer in the browser; the model returns a copy.

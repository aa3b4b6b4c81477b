/** The interactive construction of a client's proof: the prover of the proof library runs in a
    goroutine of its own and talks to the client's code over channels. */
module ProofPipeline {
  import opened Zq
  import opened Suites
  import opened Channels

  // ----- The two sides -----

  /** What is fixed before the run: the number of clients, what the prover has to say, whether it says
      its sub-challenges at all, where it ends with an error, and the verifier's answer to the
      commitments. The prover may end before commitment i or, with i = 3n, before it asks for the
      challenge; on the challenge; and before response i or, with i = 2n, after all of them. */
  datatype Config = Config(
    n: nat, t: seq<Point>, c: Scalar -> seq<Scalar>, r: Scalar -> seq<Scalar>, sendsSubChallenges: bool,
    early: nat -> Option<Error>, onChallenge: Scalar -> Option<Error>, late: (Scalar, nat) -> Option<Error>,
    answer: seq<Point> -> Result<Challenge>, accepts: (Challenge, seq<Point>) -> bool)
  {
    /** As far as it gets, the prover of an OR-predicate of n clauses sends 3n commitments, n
        sub-challenges and 2n responses. */
    ghost predicate Valid() {
      |t| == 3 * n && forall cs :: |c(cs)| == n && |r(cs)| == 2 * n
    }
  }

  /** Where the prover is: `PutT(i)` and `PutR(i)` are before message i, `Quit` is after an end before the
      challenge, and `Stopped(i)` after an end with i responses. */
  datatype Prover =
    | PutT(i: nat) | Quit(i: nat) | WaitForChallenge | PutC(cs: Scalar) | PutR(cs: Scalar, i: nat) | Stopped(cs: Scalar, i: nat)

  /** Where the client's code is. */
  datatype Client =
    | TakeT | Ask | SendChallenge(challenge: Challenge) | TakeC(challenge: Challenge) | TakeR(challenge: Challenge)
    | Done(proof: ClientProof) | Failed(error: Error)

  datatype State = State(
    prover: Prover, client: Client, commits: Channel<Point>, responses: Channel<Scalar>,
    t: seq<Point>, c: seq<Scalar>, r: seq<Scalar>)

  function Initial(cfg: Config): State {
    State(PutT(0), TakeT, Channel([], 3 * cfg.n, false), Channel([], 2 * cfg.n, false), [], [], [])
  }

  // ----- Steps -----

  datatype Move =
    | PutCommitment | QuitEarly | CloseCommitments | PutResponse | CloseResponses
    | TakeCommitment | EndCommitments | AskVerifier | TakeResponse | EndResponses
    | MeetChallenge | MeetSubChallenges

  /** The prover ends before response i, or has sent all. */
  predicate LastResponse(cfg: Config, cs: Scalar, i: nat) {
    i >= |cfg.r(cs)| || cfg.late(cs, i).Some?
  }

  /** Whether a move can happen. A send to a full buffer, a receive from an empty open channel and one
      side of a meeting on an unbuffered channel all block. */
  predicate Enabled(cfg: Config, s: State, m: Move) {
    match m
    case PutCommitment => s.prover.PutT? && s.prover.i < |cfg.t| && cfg.early(s.prover.i).None? && !s.commits.Full()
    case QuitEarly => s.prover.PutT? && cfg.early(s.prover.i).Some?
    case CloseCommitments => s.prover.PutT? && s.prover.i >= |cfg.t| && cfg.early(s.prover.i).None?
    case PutResponse => s.prover.PutR? && !LastResponse(cfg, s.prover.cs, s.prover.i) && !s.responses.Full()
    case CloseResponses => s.prover.PutR? && LastResponse(cfg, s.prover.cs, s.prover.i)
    case TakeCommitment => s.client.TakeT? && s.commits.buffer != []
    case EndCommitments => s.client.TakeT? && s.commits.buffer == [] && s.commits.closed
    case AskVerifier => s.client.Ask?
    case TakeResponse => s.client.TakeR? && s.responses.buffer != []
    case EndResponses => s.client.TakeR? && s.responses.buffer == [] && s.responses.closed
    case MeetChallenge => s.client.SendChallenge? && s.prover.WaitForChallenge?
    case MeetSubChallenges => s.client.TakeC? && s.prover.PutC?
  }

  /** What the prover ended with, once it has. */
  function ProverError(cfg: Config, s: State): Option<Error> {
    match s.prover
    case Quit(i) => cfg.early(i)
    case Stopped(cs, i) => if cfg.onChallenge(cs).Some? then cfg.onChallenge(cs) else cfg.late(cs, i)
    case _ => None
  }

  function Next(cfg: Config, s: State, m: Move): State
    requires Enabled(cfg, s, m)
  {
    match m
    case PutCommitment => s.(prover := PutT(s.prover.i + 1), commits := s.commits.Send(cfg.t[s.prover.i]))
    case QuitEarly => s.(prover := Quit(s.prover.i), responses := s.responses.(closed := true))
    case CloseCommitments => s.(prover := WaitForChallenge, commits := s.commits.(closed := true))
    case PutResponse => s.(prover := PutR(s.prover.cs, s.prover.i + 1), responses := s.responses.Send(cfg.r(s.prover.cs)[s.prover.i]))
    case CloseResponses => s.(prover := Stopped(s.prover.cs, s.prover.i), responses := s.responses.(closed := true))
    case TakeCommitment => s.(client := TakeT, t := s.t + [s.commits.buffer[0]], commits := s.commits.Receive())
    case EndCommitments => s.(client := if |s.t| != s.commits.capacity then Failed(BadCount) else Ask)
    case AskVerifier =>
      var answer := cfg.answer(s.t);
      s.(client :=
        if answer.Err? then Failed(answer.error)
        else if !cfg.accepts(answer.value, s.t) then Failed(BadSignature)
        else SendChallenge(answer.value))
    case MeetChallenge =>
      var cs := s.client.challenge.cs;
      if cfg.onChallenge(cs).Some? then
        s.(client := TakeC(s.client.challenge), prover := Stopped(cs, 0), responses := s.responses.(closed := true))
      else
        s.(client := TakeC(s.client.challenge), prover := if cfg.sendsSubChallenges then PutC(cs) else PutR(cs, 0))
    case MeetSubChallenges =>
      s.(client := TakeR(s.client.challenge), c := cfg.c(s.prover.cs), prover := PutR(s.prover.cs, 0))
    case TakeResponse => s.(r := s.r + [s.responses.buffer[0]], responses := s.responses.Receive())
    case EndResponses =>
      s.(client :=
        if |s.r| != s.responses.capacity then Failed(BadCount)
        else if ProverError(cfg, s).Some? then Failed(ProverError(cfg, s).value)
        else Done(ClientProof(s.client.challenge, s.t, s.c, s.r)))
  }

  // ----- What every move keeps -----

  /** The challenge that the client got and accepted. */
  predicate Answered(cfg: Config, challenge: Challenge) {
    cfg.answer(cfg.t) == Ok(challenge) && cfg.accepts(challenge, cfg.t)
  }

  predicate WillAnswer(cfg: Config) {
    cfg.answer(cfg.t).Ok? && Answered(cfg, cfg.answer(cfg.t).value)
  }

  /** The prover ends before it asks for the challenge. */
  ghost predicate Quits(cfg: Config) {
    exists i :: 0 <= i <= 3 * cfg.n && cfg.early(i).Some?
  }

  /** The prover never sends its sub-challenges for this challenge. */
  predicate Withholds(cfg: Config, cs: Scalar) {
    !cfg.sendsSubChallenges || cfg.onChallenge(cs).Some?
  }

  /** The number of responses, from i on, after which the prover ends. */
  function LastFrom(cfg: Config, cs: Scalar, i: nat): (k: nat)
    requires i <= |cfg.r(cs)|
    ensures i <= k <= |cfg.r(cs)| && LastResponse(cfg, cs, k)
    ensures forall j :: i <= j < k ==> !LastResponse(cfg, cs, j)
    decreases |cfg.r(cs)| - i
  {
    if LastResponse(cfg, cs, i) then i else LastFrom(cfg, cs, i + 1)
  }

  /** How newClientProof ends, as a function of what is fixed before the run. `TakeT` and `TakeC` are no
      ends: there the client waits for ever. */
  ghost function Outcome(cfg: Config): Client {
    var answer := cfg.answer(cfg.t);
    if Quits(cfg) then TakeT
    else if answer.Err? then Failed(answer.error)
    else if !cfg.accepts(answer.value, cfg.t) then Failed(BadSignature)
    else
      var cs := answer.value.cs;
      if Withholds(cfg, cs) then TakeC(answer.value)
      else if LastFrom(cfg, cs, 0) != |cfg.r(cs)| then Failed(BadCount)
      else if cfg.late(cs, |cfg.r(cs)|).Some? then Failed(cfg.late(cs, |cfg.r(cs)|).value)
      else Done(ClientProof(answer.value, cfg.t, cfg.c(cs), cfg.r(cs)))
  }

  /** The commitments: received and buffered ones together are the prover's, in order. */
  ghost predicate CommitsInv(cfg: Config, s: State) {
    && s.commits.capacity == 3 * cfg.n
    && (if s.prover.PutT? || s.prover.Quit?
        then s.prover.i <= |cfg.t| && !s.commits.closed && s.t + s.commits.buffer == cfg.t[..s.prover.i]
        else s.commits.closed && s.t + s.commits.buffer == cfg.t)
    && (!s.client.TakeT? ==> s.commits.buffer == [] && s.t == cfg.t)
  }

  ghost predicate ResponsesInv(cfg: Config, s: State) {
    && s.responses.capacity == 2 * cfg.n
    && match s.prover
       case PutR(cs, i) => i <= |cfg.r(cs)| && !s.responses.closed && s.r + s.responses.buffer == cfg.r(cs)[..i]
       case Stopped(cs, i) => i <= |cfg.r(cs)| && s.responses.closed && s.r + s.responses.buffer == cfg.r(cs)[..i]
       case Quit(_) => s.responses.buffer == [] && s.r == []
       case _ => s.responses.buffer == [] && s.r == [] && !s.responses.closed
  }

  /** The client has sent the challenge that it got and accepted. */
  ghost predicate Challenged(cfg: Config, s: State, cs: Scalar) {
    (s.client.TakeC? || s.client.TakeR?) && Answered(cfg, s.client.challenge) && s.client.challenge.cs == cs
  }

  /** The client collects the responses, or waits for sub-challenges that the prover never sends. */
  ghost predicate Following(cfg: Config, s: State, cs: Scalar) {
    Challenged(cfg, s, cs) && if Withholds(cfg, cs) then s.client.TakeC? else s.client.TakeR? && s.c == cfg.c(cs)
  }

  /** The prover has not ended before commitment i. */
  ghost predicate GoesOn(cfg: Config, i: nat) {
    forall k :: 0 <= k < i ==> cfg.early(k).None?
  }

  /** The prover has got as far as response i. */
  ghost predicate Reaches(cfg: Config, cs: Scalar, i: nat) {
    cfg.onChallenge(cs).None? && forall k :: 0 <= k < i ==> !LastResponse(cfg, cs, k)
  }

  ghost predicate EndsWell(cfg: Config, s: State, cs: Scalar, i: nat) {
    if Withholds(cfg, cs) then Following(cfg, s, cs)
    else Reaches(cfg, cs, i) && LastResponse(cfg, cs, i) && (Following(cfg, s, cs) || s.client == Outcome(cfg))
  }

  /** Where the client can be while the prover is where it is. */
  ghost predicate InStep(cfg: Config, s: State) {
    match s.prover
    case PutT(i) => s.client.TakeT? && GoesOn(cfg, i)
    case Quit(i) => s.client.TakeT? && Quits(cfg)
    case WaitForChallenge =>
      && !Quits(cfg)
      && (s.client.TakeT? || s.client.Ask? || (s.client.SendChallenge? && Answered(cfg, s.client.challenge))
          || (s.client.Failed? && s.client == Outcome(cfg) && !WillAnswer(cfg)))
    case PutC(cs) => !Quits(cfg) && !Withholds(cfg, cs) && s.client.TakeC? && Challenged(cfg, s, cs)
    case PutR(cs, i) => !Quits(cfg) && Following(cfg, s, cs) && Reaches(cfg, cs, i)
    case Stopped(cs, i) => !Quits(cfg) && EndsWell(cfg, s, cs, i)
  }

  ghost predicate Inv(cfg: Config, s: State) {
    CommitsInv(cfg, s) && ResponsesInv(cfg, s) && InStep(cfg, s)
  }

  lemma NextCommits(cfg: Config, s: State, m: Move)
    requires cfg.Valid() && Inv(cfg, s) && Enabled(cfg, s, m)
    ensures CommitsInv(cfg, Next(cfg, s, m))
  {
    hide ResponsesInv, Outcome, Quits, EndsWell, Reaches, GoesOn, ProverError;
  }

  lemma NextResponses(cfg: Config, s: State, m: Move)
    requires cfg.Valid() && Inv(cfg, s) && Enabled(cfg, s, m)
    ensures ResponsesInv(cfg, Next(cfg, s, m))
  {
    hide CommitsInv, Outcome, Quits, Reaches, GoesOn, ProverError, Answered;
  }

  lemma NeverQuits(cfg: Config)
    requires GoesOn(cfg, 3 * cfg.n) && cfg.early(3 * cfg.n).None?
    ensures !Quits(cfg)
  {
  }

  lemma CommitsAreThere(cfg: Config, s: State)
    requires CommitsInv(cfg, s) && !s.client.TakeT?
    ensures s.t == cfg.t
  {
  }

  /** All responses are there, or the client fails for want of some. */
  lemma Collected(cfg: Config, s: State)
    requires cfg.Valid() && Inv(cfg, s) && Enabled(cfg, s, EndResponses)
    ensures Next(cfg, s, EndResponses).client == Outcome(cfg) && InStep(cfg, Next(cfg, s, EndResponses))
  {
    hide CommitsInv, Quits, GoesOn;
    assert s.prover.Stopped?;
    var cs, i := s.prover.cs, s.prover.i;
    assert s.r == cfg.r(cs)[..i];
    assert LastFrom(cfg, cs, 0) == i;
    CommitsAreThere(cfg, s);
  }

  lemma ProverInStep(cfg: Config, s: State, m: Move)
    requires cfg.Valid() && Inv(cfg, s) && Enabled(cfg, s, m)
    requires m.PutCommitment? || m.QuitEarly? || m.CloseCommitments? || m.PutResponse? || m.CloseResponses?
    ensures InStep(cfg, Next(cfg, s, m))
  {
    hide ResponsesInv, Outcome, ProverError;
    if m.CloseCommitments? {
      NeverQuits(cfg);
    }
  }

  lemma ClientInStep(cfg: Config, s: State, m: Move)
    requires cfg.Valid() && Inv(cfg, s) && Enabled(cfg, s, m) && !m.EndResponses?
    requires !m.PutCommitment? && !m.QuitEarly? && !m.CloseCommitments? && !m.PutResponse? && !m.CloseResponses?
    ensures InStep(cfg, Next(cfg, s, m))
  {
    hide ResponsesInv, Quits, ProverError, GoesOn, LastFrom;
  }

  lemma NextInStep(cfg: Config, s: State, m: Move)
    requires cfg.Valid() && Inv(cfg, s) && Enabled(cfg, s, m)
    ensures InStep(cfg, Next(cfg, s, m))
  {
    hide Inv, Next, InStep;
    if m.EndResponses? {
      Collected(cfg, s);
    } else if m.PutCommitment? || m.QuitEarly? || m.CloseCommitments? || m.PutResponse? || m.CloseResponses? {
      ProverInStep(cfg, s, m);
    } else {
      ClientInStep(cfg, s, m);
    }
  }

  lemma NextInv(cfg: Config, s: State, m: Move)
    requires cfg.Valid() && Inv(cfg, s) && Enabled(cfg, s, m)
    ensures Inv(cfg, Next(cfg, s, m))
  {
    hide CommitsInv, ResponsesInv, InStep, Enabled, Next;
    NextCommits(cfg, s, m);
    NextResponses(cfg, s, m);
    NextInStep(cfg, s, m);
  }

  /** No Put ever finds its buffer full or its channel closed. */
  lemma PutsNeverBlock(cfg: Config, s: State)
    requires cfg.Valid() && Inv(cfg, s)
    ensures s.prover.PutT? && s.prover.i < |cfg.t| && cfg.early(s.prover.i).None? ==>
      Enabled(cfg, s, PutCommitment) && !s.commits.closed
    ensures s.prover.PutR? && !LastResponse(cfg, s.prover.cs, s.prover.i) ==>
      Enabled(cfg, s, PutResponse) && !s.responses.closed
  {
    if s.prover.PutT? && s.prover.i < |cfg.t| {
      assert |s.t + s.commits.buffer| == s.prover.i;
    }
    if s.prover.PutR? && s.prover.i < |cfg.r(s.prover.cs)| {
      assert |s.r + s.responses.buffer| == s.prover.i;
    }
  }

  lemma OutcomeOfQuit(cfg: Config)
    requires Quits(cfg)
    ensures Outcome(cfg) == TakeT
  {
  }

  lemma OutcomeOfWithheld(cfg: Config, s: State)
    requires !Quits(cfg) && s.prover.Stopped? && Withholds(cfg, s.prover.cs) && Following(cfg, s, s.prover.cs)
    ensures s.client == Outcome(cfg)
  {
  }

  /** No deadlock but two: when no move is possible, the client's code has returned, or it waits for
      commitments of a prover that has ended, or for sub-challenges that the prover does not send. */
  lemma NoDeadlock(cfg: Config, s: State)
    requires cfg.Valid() && Inv(cfg, s)
    ensures (forall m :: !Enabled(cfg, s, m)) ==> s.client == Outcome(cfg)
  {
    hide Outcome, Quits, Reaches, GoesOn, LastFrom, ProverError, Next;
    PutsNeverBlock(cfg, s);
    if forall m :: !Enabled(cfg, s, m) {
      assert !Enabled(cfg, s, QuitEarly) && !Enabled(cfg, s, CloseCommitments);
      assert !Enabled(cfg, s, CloseResponses) && !Enabled(cfg, s, AskVerifier);
      assert !Enabled(cfg, s, PutCommitment) && !Enabled(cfg, s, PutResponse);
      assert !Enabled(cfg, s, TakeCommitment) && !Enabled(cfg, s, EndCommitments);
      assert !Enabled(cfg, s, TakeResponse) && !Enabled(cfg, s, EndResponses);
      assert !Enabled(cfg, s, MeetChallenge) && !Enabled(cfg, s, MeetSubChallenges);
      if s.prover.Quit? {
        OutcomeOfQuit(cfg);
      } else if s.prover.Stopped? && Withholds(cfg, s.prover.cs) {
        OutcomeOfWithheld(cfg, s);
      }
    }
  }

  // ----- Termination -----

  /** How many moves each side has left at most. */
  function ProverLeft(cfg: Config, p: Prover): nat {
    match p
    case PutT(i) => (if i < 3 * cfg.n then 3 * cfg.n - i else 0) + 2 * cfg.n + 4
    case Quit(_) => 0
    case WaitForChallenge => 2 * cfg.n + 3
    case PutC(_) => 2 * cfg.n + 2
    case PutR(_, i) => (if i < 2 * cfg.n then 2 * cfg.n - i else 0) + 1
    case Stopped(_, _) => 0
  }

  function ClientLeft(cfg: Config, s: State): nat {
    match s.client
    case TakeT => (if |s.t| < 3 * cfg.n then 3 * cfg.n - |s.t| else 0) + 2 * cfg.n + 5
    case Ask => 2 * cfg.n + 4
    case SendChallenge(_) => 2 * cfg.n + 3
    case TakeC(_) => 2 * cfg.n + 2
    case TakeR(_) => (if |s.r| < 2 * cfg.n then 2 * cfg.n - |s.r| else 0) + 1
    case _ => 0
  }

  function Left(cfg: Config, s: State): nat {
    ProverLeft(cfg, s.prover) + ClientLeft(cfg, s)
  }

  lemma MoreToTake(cfg: Config, s: State, m: Move)
    requires cfg.Valid() && Inv(cfg, s) && Enabled(cfg, s, m)
    ensures m.TakeCommitment? ==> |s.t| < 3 * cfg.n
    ensures m.TakeResponse? ==> |s.r| < 2 * cfg.n
  {
    hide InStep;
    match m
    case TakeCommitment =>
      assert |s.t| < |s.t + s.commits.buffer|;
    case TakeResponse =>
      assert |s.r| < |s.r + s.responses.buffer|;
    case _ =>
  }

  lemma MoveUsesUp(cfg: Config, s: State, m: Move)
    requires cfg.Valid() && Inv(cfg, s) && Enabled(cfg, s, m)
    ensures Left(cfg, Next(cfg, s, m)) < Left(cfg, s)
  {
    hide Inv;
    MoreToTake(cfg, s, m);
  }

  // ----- Runs -----

  ghost predicate IsRun(cfg: Config, states: seq<State>, moves: seq<Move>) {
    && |states| == |moves| + 1 && states[0] == Initial(cfg)
    && forall k :: 0 <= k < |moves| ==> Enabled(cfg, states[k], moves[k]) && states[k + 1] == Next(cfg, states[k], moves[k])
  }

  lemma InitialInv(cfg: Config)
    requires cfg.Valid()
    ensures Inv(cfg, Initial(cfg))
  {
  }

  lemma {:induction false} RunKeeps(cfg: Config, states: seq<State>, moves: seq<Move>, k: nat)
    requires cfg.Valid() && IsRun(cfg, states, moves) && k < |states|
    ensures Inv(cfg, states[k]) && k + Left(cfg, states[k]) <= Left(cfg, Initial(cfg))
  {
    hide Inv, Left, Enabled, Next, Initial;
    if k == 0 {
      InitialInv(cfg);
    } else {
      RunKeeps(cfg, states, moves, k - 1);
      NextInv(cfg, states[k - 1], moves[k - 1]);
      MoveUsesUp(cfg, states[k - 1], moves[k - 1]);
    }
  }

  /** Every interleaving terminates, and whenever the two sides have come to rest, the client's code
      is where it is in every other interleaving: it has returned the prover's messages in order, or the
      error of the verifier, of its signatures or of the prover, or it waits for ever. It waits for
      commitments exactly when the prover ends before it asks for the challenge, and for sub-challenges
      exactly when the challenge was accepted and the prover does not send them. */
  lemma EveryRunEndsWithOutcome(cfg: Config, states: seq<State>, moves: seq<Move>)
    requires cfg.Valid() && IsRun(cfg, states, moves)
    ensures |moves| <= 10 * cfg.n + 9
    ensures
      var last := states[|moves|].client;
      (forall m :: !Enabled(cfg, states[|moves|], m)) ==>
        && last == Outcome(cfg)
        && (last.Done? ==> |last.proof.t| == 3 * cfg.n && |last.proof.c| == cfg.n && |last.proof.r| == 2 * cfg.n)
        && (last.TakeT? <==> Quits(cfg))
        && (last.TakeC? <==> !Quits(cfg) && WillAnswer(cfg) && Withholds(cfg, cfg.answer(cfg.t).value.cs))
        && (last.Done? || last.Failed? || last.TakeT? || last.TakeC?)
  {
    hide Quits, LastFrom;
    RunKeeps(cfg, states, moves, |moves|);
    NoDeadlock(cfg, states[|moves|]);
  }

  lemma GetsThroughIff(cfg: Config, cs: Scalar)
    ensures
      var n := |cfg.r(cs)|;
      LastFrom(cfg, cs, 0) == n && cfg.late(cs, n).None? <==> forall i :: 0 <= i <= n ==> cfg.late(cs, i).None?
  {
    var n, k := |cfg.r(cs)|, LastFrom(cfg, cs, 0);
    forall i | 0 <= i < k
      ensures cfg.late(cs, i).None?
    {
      assert !LastResponse(cfg, cs, i);
    }
    assert k < n ==> cfg.late(cs, k).Some?;
  }

  /** When a proof comes out: exactly when the prover gets through with the accepted challenge. */
  lemma ProofIff(cfg: Config, states: seq<State>, moves: seq<Move>)
    requires cfg.Valid() && IsRun(cfg, states, moves) && forall m :: !Enabled(cfg, states[|moves|], m)
    ensures states[|moves|].client.Done? <==>
      && !Quits(cfg) && WillAnswer(cfg)
      && var cs := cfg.answer(cfg.t).value.cs;
        !Withholds(cfg, cs) && forall i :: 0 <= i <= 2 * cfg.n ==> cfg.late(cs, i).None?
  {
    hide Quits, LastFrom;
    RunKeeps(cfg, states, moves, |moves|);
    NoDeadlock(cfg, states[|moves|]);
    if WillAnswer(cfg) {
      GetsThroughIff(cfg, cfg.answer(cfg.t).value.cs);
    }
  }

  /** Why contexts with a single client are refused: a prover that sends no sub-challenges makes the
      client wait for ever in exactly the runs in which the challenge was accepted. */
  lemma WaitsForeverIffAnswered(cfg: Config, states: seq<State>, moves: seq<Move>)
    requires cfg.Valid() && IsRun(cfg, states, moves) && !cfg.sendsSubChallenges
    requires forall m :: !Enabled(cfg, states[|moves|], m)
    ensures states[|moves|].client.TakeC? <==> !Quits(cfg) && WillAnswer(cfg)
    ensures !states[|moves|].client.Done?
  {
    hide Quits;
    EveryRunEndsWithOutcome(cfg, states, moves);
  }
}

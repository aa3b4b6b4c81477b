/** Verifying a client's proof: the verifier of the proof library runs in a goroutine of its own and
    gets the proof from the server's code over channels. */
module VerifierPipeline {
  import opened Zq
  import opened Suites
  import opened Channels

  /** What is fixed before the run: the number of clients, the proof, and what the proof library's
      verifier does with what it has read so far. It may stop with an error before the challenge, on the
      commitments it has, or later, on the challenge, the sub-challenges and the responses it has; with no
      error after all responses it accepts. It has room for n sub-challenges. */
  datatype Setup = Setup(
    n: nat, proof: ClientProof, refusal: seq<Point> -> Option<Error>,
    verdict: (seq<Point>, Scalar, seq<Scalar>, seq<Scalar>) -> Option<Error>)

  /** Where the verifier is: before commitment or response i, waiting for sub-challenges, or waiting to
      report an error before it has read everything. */
  datatype Verifier =
    | GetT(i: nat) | GetC(cs: Scalar) | GetR(cs: Scalar, c: seq<Scalar>, i: nat) | Stopped(error: Error) | Reported

  /** Where the server's code is. A panic in the verifier's goroutine ends the whole program. */
  datatype Server =
    | CheckT | PutT(i: nat) | SendChallenge | SendC | CheckR | PutR(i: nat) | AwaitVerdict
    | Returned(error: Option<Error>) | Crashed

  datatype State = State(
    verifier: Verifier, server: Server, commits: Channel<Point>, responses: Channel<Scalar>, t: seq<Point>, r: seq<Scalar>)

  function Initial(cfg: Setup): State {
    State(GetT(0), CheckT, Channel([], 3 * cfg.n, false), Channel([], 2 * cfg.n, false), [], [])
  }

  // ----- Steps -----

  datatype Move =
    | CheckCommitments | PutCommitment | EndCommitments | CheckResponses | PutResponse | EndResponses
    | GetCommitment | Refuse | GetResponse | Reject
    | MeetChallenge | MeetSubChallenges | MeetVerdict | MeetError

  /** The verifier's verdict on what it has read. */
  function Judged(cfg: Setup, s: State): Option<Error>
    requires s.verifier.GetR?
  {
    cfg.verdict(s.t, s.verifier.cs, s.verifier.c, s.r)
  }

  predicate Enabled(cfg: Setup, s: State, m: Move) {
    match m
    case CheckCommitments => s.server.CheckT?
    case PutCommitment => s.server.PutT? && s.server.i < |cfg.proof.t| && !s.commits.Full()
    case EndCommitments => s.server.PutT? && s.server.i >= |cfg.proof.t|
    case CheckResponses => s.server.CheckR?
    case PutResponse => s.server.PutR? && s.server.i < |cfg.proof.r| && !s.responses.Full()
    case EndResponses => s.server.PutR? && s.server.i >= |cfg.proof.r|
    case GetCommitment =>
      s.verifier.GetT? && cfg.refusal(s.t).None? && s.verifier.i < 3 * cfg.n && s.commits.buffer != [] && !s.server.Crashed?
    case Refuse => s.verifier.GetT? && cfg.refusal(s.t).Some? && !s.server.Crashed?
    case GetResponse =>
      s.verifier.GetR? && s.verifier.i < 2 * cfg.n && Judged(cfg, s).None? && s.responses.buffer != [] && !s.server.Crashed?
    case Reject => s.verifier.GetR? && s.verifier.i < 2 * cfg.n && Judged(cfg, s).Some? && !s.server.Crashed?
    case MeetChallenge => s.server.SendChallenge? && s.verifier.GetT? && cfg.refusal(s.t).None? && s.verifier.i >= 3 * cfg.n
    case MeetSubChallenges => s.server.SendC? && s.verifier.GetC?
    case MeetVerdict => s.server.AwaitVerdict? && s.verifier.GetR? && s.verifier.i >= 2 * cfg.n
    case MeetError => s.server.AwaitVerdict? && s.verifier.Stopped?
  }

  function Next(cfg: Setup, s: State, m: Move): State
    requires Enabled(cfg, s, m)
  {
    match m
    case CheckCommitments =>
      s.(server := if |cfg.proof.t| != s.commits.capacity then Returned(Some(BadCount)) else PutT(0))
    case PutCommitment => s.(server := PutT(s.server.i + 1), commits := s.commits.Send(cfg.proof.t[s.server.i]))
    case EndCommitments => s.(server := SendChallenge)
    case CheckResponses =>
      s.(server := if |cfg.proof.r| != s.responses.capacity then Returned(Some(BadCount)) else PutR(0))
    case PutResponse => s.(server := PutR(s.server.i + 1), responses := s.responses.Send(cfg.proof.r[s.server.i]))
    case EndResponses => s.(server := AwaitVerdict)
    case GetCommitment =>
      s.(verifier := GetT(s.verifier.i + 1), t := s.t + [s.commits.buffer[0]], commits := s.commits.Receive())
    case Refuse => s.(verifier := Stopped(cfg.refusal(s.t).value))
    case Reject => s.(verifier := Stopped(Judged(cfg, s).value))
    case GetResponse =>
      s.(verifier := s.verifier.(i := s.verifier.i + 1), r := s.r + [s.responses.buffer[0]], responses := s.responses.Receive())
    case MeetChallenge => s.(server := SendC, verifier := GetC(cfg.proof.cs.cs))
    case MeetSubChallenges =>
      if |cfg.proof.c| > cfg.n then s.(server := Crashed)
      else s.(server := CheckR, verifier := GetR(s.verifier.cs, cfg.proof.c, 0))
    case MeetVerdict => s.(server := Returned(Judged(cfg, s)), verifier := Reported)
    case MeetError => s.(server := Returned(Some(s.verifier.error)), verifier := Reported)
  }

  // ----- What every move keeps -----

  /** The verifier stops on the first i commitments. */
  predicate RefusedAt(cfg: Setup, i: nat) {
    i <= |cfg.proof.t| && cfg.refusal(cfg.proof.t[..i]).Some?
  }

  /** The verifier stops on some of the commitments, before it asks for the challenge. */
  predicate Refused(cfg: Setup) {
    exists i :: 0 <= i <= |cfg.proof.t| && RefusedAt(cfg, i)
  }

  /** The verdict on the challenge, the sub-challenges and the first i responses. */
  function JudgedAt(cfg: Setup, i: nat): Option<Error>
    requires i <= |cfg.proof.r|
  {
    cfg.verdict(cfg.proof.t, cfg.proof.cs.cs, cfg.proof.c, cfg.proof.r[..i])
  }

  /** The first error from the i-th response on, if any. */
  function FirstError(cfg: Setup, i: nat): Option<Error>
    requires i <= |cfg.proof.r|
    decreases |cfg.proof.r| - i
  {
    if JudgedAt(cfg, i).Some? || i == |cfg.proof.r| then JudgedAt(cfg, i) else FirstError(cfg, i + 1)
  }

  /** How verifyClientProof ends, as a function of the proof: it stays before the challenge for ever when
      the verifier stopped before that. */
  function Outcome(cfg: Setup): Server {
    var p := cfg.proof;
    if |p.t| != 3 * cfg.n then Returned(Some(BadCount))
    else if Refused(cfg) then SendChallenge
    else if |p.c| > cfg.n then Crashed
    else if |p.r| != 2 * cfg.n then Returned(Some(BadCount))
    else Returned(FirstError(cfg, 0))
  }

  /** The verifier did not stop before it had read all these commitments. */
  ghost predicate Unrefused(cfg: Setup, t: seq<Point>) {
    forall i :: 0 <= i < |t| ==> cfg.refusal(t[..i]).None?
  }

  lemma UnrefusedNext(cfg: Setup, t: seq<Point>, x: Point)
    requires Unrefused(cfg, t) && cfg.refusal(t).None?
    ensures Unrefused(cfg, t + [x])
  {
    forall i | 0 <= i < |t| + 1
      ensures cfg.refusal((t + [x])[..i]).None?
    {
      assert (t + [x])[..i] == if i < |t| then t[..i] else t;
    }
  }

  ghost predicate CommitsInv(cfg: Setup, s: State) {
    && s.commits.capacity == 3 * cfg.n && |s.t| <= 3 * cfg.n
    && (s.verifier.GetT? ==> s.verifier.i == |s.t| && Unrefused(cfg, s.t))
    && match s.server
       case CheckT => s.t == [] && s.commits.buffer == []
       case PutT(i) => i <= |cfg.proof.t| == 3 * cfg.n && s.t + s.commits.buffer == cfg.proof.t[..i]
       case Returned(_) => |cfg.proof.t| != 3 * cfg.n || s.t + s.commits.buffer == cfg.proof.t
       case _ => |cfg.proof.t| == 3 * cfg.n && s.t + s.commits.buffer == cfg.proof.t
  }

  ghost predicate ResponsesInv(cfg: Setup, s: State) {
    && s.responses.capacity == 2 * cfg.n
    && (s.verifier.GetR? ==> s.verifier.i == |s.r| <= 2 * cfg.n)
    && match s.server
       case PutR(i) => i <= |cfg.proof.r| == 2 * cfg.n && s.r + s.responses.buffer == cfg.proof.r[..i]
       case AwaitVerdict => |cfg.proof.r| == 2 * cfg.n && s.r + s.responses.buffer == cfg.proof.r
       case Returned(_) => true
       case _ => s.r == [] && s.responses.buffer == []
  }

  /** The verifier is reading commitments or has stopped on those it has. */
  ghost predicate Early(cfg: Setup, s: State) {
    s.verifier.GetT? || (s.verifier.Stopped? && cfg.refusal(s.t).Some?)
  }

  /** The verifier has the commitments, the challenge and the sub-challenges, and is reading responses or
      has stopped on those it has. */
  ghost predicate Fed(cfg: Setup, s: State) {
    && |cfg.proof.t| == 3 * cfg.n && |cfg.proof.c| <= cfg.n && s.t == cfg.proof.t && !Refused(cfg)
    && s.r <= cfg.proof.r && (forall i :: 0 <= i < |s.r| ==> JudgedAt(cfg, i).None?)
    && (s.verifier.GetR? ==> s.verifier.cs == cfg.proof.cs.cs && s.verifier.c == cfg.proof.c)
    && (s.verifier.GetR? || (s.verifier.Stopped? && JudgedAt(cfg, |s.r|) == Some(s.verifier.error)))
  }

  /** Where the verifier can be while the server's code is where it is. */
  ghost predicate InStep(cfg: Setup, s: State) {
    match s.server
    case CheckT => Early(cfg, s)
    case PutT(_) => Early(cfg, s)
    case SendChallenge => Early(cfg, s)
    case SendC => s.verifier == GetC(cfg.proof.cs.cs) && s.t == cfg.proof.t && !Refused(cfg)
    case CheckR => Fed(cfg, s)
    case PutR(_) => Fed(cfg, s)
    case AwaitVerdict => Fed(cfg, s)
    case Returned(_) => s.server == Outcome(cfg)
    case Crashed => s.server == Outcome(cfg)
  }

  ghost predicate Inv(cfg: Setup, s: State) {
    CommitsInv(cfg, s) && ResponsesInv(cfg, s) && InStep(cfg, s)
  }

  lemma NextCommits(cfg: Setup, s: State, m: Move)
    requires Inv(cfg, s) && Enabled(cfg, s, m)
    ensures CommitsInv(cfg, Next(cfg, s, m))
  {
    hide ResponsesInv, InStep, Unrefused, Judged;
    if m.GetCommitment? {
      UnrefusedNext(cfg, s.t, s.commits.buffer[0]);
    } else if m.CheckCommitments? {
      assert s.t + s.commits.buffer == [] == cfg.proof.t[..0];
    }
  }

  lemma NextResponses(cfg: Setup, s: State, m: Move)
    requires Inv(cfg, s) && Enabled(cfg, s, m)
    ensures ResponsesInv(cfg, Next(cfg, s, m))
  {
    hide CommitsInv, InStep, Judged;
  }

  /** What the verifier read is a part of the proof. */
  lemma ReadIsPrefix(cfg: Setup, s: State)
    requires CommitsInv(cfg, s) && ResponsesInv(cfg, s)
    ensures |cfg.proof.t| == 3 * cfg.n && (s.server.SendChallenge? || s.server.PutT?) ==> s.t <= cfg.proof.t
    ensures s.server.PutT? ==> |s.t| + |s.commits.buffer| == s.server.i
    ensures s.server.PutR? ==> |s.r| + |s.responses.buffer| == s.server.i
    ensures s.server.PutR? || s.server.AwaitVerdict? ==> s.r <= cfg.proof.r
    ensures s.server.AwaitVerdict? && |s.r| == 2 * cfg.n ==> s.r == cfg.proof.r && |cfg.proof.r| == 2 * cfg.n
  {
    if s.server.PutT? {
      assert |s.t + s.commits.buffer| == s.server.i;
      assert s.t <= s.t + s.commits.buffer == cfg.proof.t[..s.server.i];
    } else if s.server.SendChallenge? {
      assert s.t <= s.t + s.commits.buffer;
    } else if s.server.PutR? {
      assert |s.r + s.responses.buffer| == s.server.i;
      assert s.r <= s.r + s.responses.buffer == cfg.proof.r[..s.server.i];
    } else if s.server.AwaitVerdict? {
      assert s.r <= s.r + s.responses.buffer;
    }
  }

  /** One more response that the verifier does not stop on. */
  lemma NextFed(cfg: Setup, s: State)
    requires Inv(cfg, s) && Enabled(cfg, s, GetResponse) && !s.server.Returned?
    ensures Fed(cfg, s) && Fed(cfg, Next(cfg, s, GetResponse))
  {
    hide CommitsInv, Outcome, Refused, Unrefused;
    assert s.server.PutR? || s.server.AwaitVerdict?;
    var x := s.responses.buffer[0];
    var all := if s.server.PutR? then cfg.proof.r[..s.server.i] else cfg.proof.r;
    assert s.r + s.responses.buffer == all && all <= cfg.proof.r;
    assert s.r + [x] == all[..|s.r| + 1] == cfg.proof.r[..|s.r| + 1];
    assert s.r == cfg.proof.r[..|s.r|];
  }

  /** A move of one side. */
  lemma AloneInStep(cfg: Setup, s: State, m: Move)
    requires Inv(cfg, s) && Enabled(cfg, s, m)
    requires !m.MeetChallenge? && !m.MeetSubChallenges? && !m.MeetVerdict? && !m.MeetError?
    ensures InStep(cfg, Next(cfg, s, m))
  {
    hide FirstError, Unrefused, Refused;
    ReadIsPrefix(cfg, s);
    if m.GetResponse? && !s.server.Returned? {
      NextFed(cfg, s);
    } else if m.Reject? && !s.server.Returned? {
      assert s.r == cfg.proof.r[..|s.r|];
    }
  }

  lemma {:induction false} FirstErrorFrom(cfg: Setup, i: nat)
    requires i <= |cfg.proof.r| && forall k :: 0 <= k < i ==> JudgedAt(cfg, k).None?
    ensures FirstError(cfg, 0) == FirstError(cfg, i)
  {
    if i > 0 {
      FirstErrorFrom(cfg, i - 1);
      assert JudgedAt(cfg, i - 1).None?;
    }
  }

  lemma FirstErrorAt(cfg: Setup, i: nat)
    requires i <= |cfg.proof.r| && (JudgedAt(cfg, i).Some? || i == |cfg.proof.r|)
    ensures FirstError(cfg, i) == JudgedAt(cfg, i)
  {
  }

  lemma NotRefused(cfg: Setup)
    requires Unrefused(cfg, cfg.proof.t) && cfg.refusal(cfg.proof.t).None?
    ensures !Refused(cfg)
  {
    forall i | 0 <= i <= |cfg.proof.t|
      ensures !RefusedAt(cfg, i)
    {
      assert i == |cfg.proof.t| ==> cfg.proof.t[..i] == cfg.proof.t;
    }
  }

  /** A move of both. */
  lemma MeetingInStep(cfg: Setup, s: State, m: Move)
    requires Inv(cfg, s) && Enabled(cfg, s, m)
    requires m.MeetChallenge? || m.MeetSubChallenges? || m.MeetVerdict? || m.MeetError?
    ensures InStep(cfg, Next(cfg, s, m))
  {
    hide FirstError, Unrefused, Refused;
    ReadIsPrefix(cfg, s);
    if m.MeetVerdict? || m.MeetError? {
      FirstErrorFrom(cfg, |s.r|);
      FirstErrorAt(cfg, |s.r|);
    } else if m.MeetChallenge? {
      assert |s.t + s.commits.buffer| == |s.t|;
      assert s.t == cfg.proof.t;
      NotRefused(cfg);
    }
  }

  lemma NextInStep(cfg: Setup, s: State, m: Move)
    requires Inv(cfg, s) && Enabled(cfg, s, m)
    ensures InStep(cfg, Next(cfg, s, m))
  {
    hide Inv, Enabled, Next, InStep;
    if m.MeetChallenge? || m.MeetSubChallenges? || m.MeetVerdict? || m.MeetError? {
      MeetingInStep(cfg, s, m);
    } else {
      AloneInStep(cfg, s, m);
    }
  }

  lemma NextInv(cfg: Setup, s: State, m: Move)
    requires Inv(cfg, s) && Enabled(cfg, s, m)
    ensures Inv(cfg, Next(cfg, s, m))
  {
    hide CommitsInv, ResponsesInv, InStep, Enabled, Next;
    NextCommits(cfg, s, m);
    NextResponses(cfg, s, m);
    NextInStep(cfg, s, m);
  }

  lemma RefusedIf(cfg: Setup, i: nat)
    requires RefusedAt(cfg, i)
    ensures Refused(cfg)
  {
  }

  lemma StuckIsRefused(cfg: Setup, s: State)
    requires Inv(cfg, s) && forall m :: !Enabled(cfg, s, m)
    requires s.server.CheckT? || s.server.PutT? || s.server.SendChallenge?
    ensures s.server == Outcome(cfg)
  {
    hide FirstError, Unrefused, Refused, ResponsesInv, Next;
    ReadIsPrefix(cfg, s);
    assert !Enabled(cfg, s, CheckCommitments) && !Enabled(cfg, s, PutCommitment) && !Enabled(cfg, s, EndCommitments);
    assert !Enabled(cfg, s, GetCommitment) && !Enabled(cfg, s, Refuse) && !Enabled(cfg, s, MeetChallenge);
    assert s.t == cfg.proof.t[..|s.t|];
    RefusedIf(cfg, |s.t|);
  }

  lemma NotStuckLater(cfg: Setup, s: State)
    requires Inv(cfg, s) && forall m :: !Enabled(cfg, s, m)
    requires !s.server.CheckT? && !s.server.PutT? && !s.server.SendChallenge?
    ensures s.server == Outcome(cfg)
  {
    hide FirstError, Refused, Unrefused, Next;
    ReadIsPrefix(cfg, s);
    assert !Enabled(cfg, s, CheckResponses) && !Enabled(cfg, s, PutResponse) && !Enabled(cfg, s, EndResponses);
    assert !Enabled(cfg, s, GetResponse) && !Enabled(cfg, s, Reject) && !Enabled(cfg, s, MeetSubChallenges);
    assert !Enabled(cfg, s, MeetVerdict) && !Enabled(cfg, s, MeetError);
  }

  /** No deadlock but the one: when no move is possible, the server's code has returned or the program has
      ended, or the verifier stopped before the challenge. */
  lemma NoDeadlock(cfg: Setup, s: State)
    requires Inv(cfg, s)
    ensures (forall m :: !Enabled(cfg, s, m)) ==> s.server == Outcome(cfg)
  {
    if forall m :: !Enabled(cfg, s, m) {
      if s.server.CheckT? || s.server.PutT? || s.server.SendChallenge? {
        StuckIsRefused(cfg, s);
      } else {
        NotStuckLater(cfg, s);
      }
    }
  }

  // ----- Termination -----

  function VerifierLeft(cfg: Setup, v: Verifier): nat {
    match v
    case GetT(i) => (if i < 3 * cfg.n then 3 * cfg.n - i else 0) + 2 * cfg.n + 3
    case GetC(_) => 2 * cfg.n + 2
    case GetR(_, _, i) => (if i < 2 * cfg.n then 2 * cfg.n - i else 0) + 1
    case Stopped(_) => 1
    case Reported => 0
  }

  function ServerLeft(cfg: Setup, s: Server): nat {
    match s
    case CheckT => 5 * cfg.n + 8
    case PutT(i) => (if i < 3 * cfg.n then 3 * cfg.n - i else 0) + 2 * cfg.n + 7
    case SendChallenge => 2 * cfg.n + 6
    case SendC => 2 * cfg.n + 5
    case CheckR => 2 * cfg.n + 4
    case PutR(i) => (if i < 2 * cfg.n then 2 * cfg.n - i else 0) + 3
    case AwaitVerdict => 2
    case _ => 1
  }

  function Left(cfg: Setup, s: State): nat {
    VerifierLeft(cfg, s.verifier) + ServerLeft(cfg, s.server)
  }

  lemma MoveUsesUp(cfg: Setup, s: State, m: Move)
    requires Inv(cfg, s) && Enabled(cfg, s, m)
    ensures Left(cfg, Next(cfg, s, m)) < Left(cfg, s)
  {
    hide InStep, Unrefused, Judged;
  }

  // ----- Runs -----

  ghost predicate IsRun(cfg: Setup, states: seq<State>, moves: seq<Move>) {
    && |states| == |moves| + 1 && states[0] == Initial(cfg)
    && forall k :: 0 <= k < |moves| ==> Enabled(cfg, states[k], moves[k]) && states[k + 1] == Next(cfg, states[k], moves[k])
  }

  lemma {:induction false} RunKeeps(cfg: Setup, states: seq<State>, moves: seq<Move>, k: nat)
    requires IsRun(cfg, states, moves) && k < |states|
    ensures Inv(cfg, states[k]) && k + Left(cfg, states[k]) <= Left(cfg, Initial(cfg))
  {
    if k > 0 {
      RunKeeps(cfg, states, moves, k - 1);
      NextInv(cfg, states[k - 1], moves[k - 1]);
      MoveUsesUp(cfg, states[k - 1], moves[k - 1]);
    }
  }

  lemma {:induction false} NoErrorIff(cfg: Setup, i: nat)
    requires i <= |cfg.proof.r|
    ensures FirstError(cfg, i).None? <==> forall k :: i <= k <= |cfg.proof.r| ==> JudgedAt(cfg, k).None?
    decreases |cfg.proof.r| - i
  {
    if i < |cfg.proof.r| {
      NoErrorIff(cfg, i + 1);
    }
  }

  /** Every interleaving terminates with the same outcome: wrong numbers of commitments and responses
      are errors, and a proof of the right shape gets the verifier's first error, or none if it has none
      on exactly the proof's content. */
  lemma EveryRunEndsWithOutcome(cfg: Setup, states: seq<State>, moves: seq<Move>)
    requires IsRun(cfg, states, moves)
    ensures |moves| <= 10 * cfg.n + 11
    ensures
      var last := states[|moves|].server;
      (forall m :: !Enabled(cfg, states[|moves|], m)) ==>
        && last == Outcome(cfg)
        && (last == Returned(None) <==>
          && |cfg.proof.t| == 3 * cfg.n && |cfg.proof.c| <= cfg.n && |cfg.proof.r| == 2 * cfg.n && !Refused(cfg)
          && forall i :: 0 <= i <= |cfg.proof.r| ==> JudgedAt(cfg, i).None?)
        && (last.Crashed? <==> |cfg.proof.t| == 3 * cfg.n && |cfg.proof.c| > cfg.n && !Refused(cfg))
        && (last.SendChallenge? <==> |cfg.proof.t| == 3 * cfg.n && Refused(cfg))
  {
    hide Refused;
    RunKeeps(cfg, states, moves, |moves|);
    NoDeadlock(cfg, states[|moves|]);
    NoErrorIff(cfg, 0);
  }

  /** Behind the validation of a request the shape of its proof is right: in no run does the program end, and
      whatever is returned is what the verifier found on exactly this proof. */
  lemma ValidatedNeverCrashes(cfg: Setup, m: AuthenticationMessage, states: seq<State>, moves: seq<Move>, k: nat)
    requires WellFormedRequest(m) && cfg.proof == m.p0 && cfg.n == |m.context.X|
    requires IsRun(cfg, states, moves) && k < |states|
    ensures !states[k].server.Crashed?
    ensures states[k].server.Returned? ==> !Refused(cfg) && states[k].server == Returned(FirstError(cfg, 0))
  {
    hide IsRun, Left, Refused, FirstError;
    RunKeeps(cfg, states, moves, k);
  }
}

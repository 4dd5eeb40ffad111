/**
 The protocol by which a call reaches an operation its worker is inside (`src/platform.rs`).

 `Pipe` is the pair of fields the lock guards, with one method for each locked section. The rest of
 the module is the world around it: a worker that owns a stream and goes in and out of operations,
 and any number of calls that stop it, interleaved at the granularity of those locked sections.

 A cancellation affects an operation that is outstanding and no other, and a cancelled operation
 ends when its worker next runs. A worker closes its stream only between operations: the guard of an
 operation borrows nothing from the stream, so that a closed stream is never published rests on the
 worker dropping the guard before it drops the stream, on every way out of an operation.
 */
module StopProtocol {
  import opened Wrappers

  type Handle = int

  datatype Stopped = NothingToReach | Reached

  datatype Progress = Progress(stopped: bool, inCall: Option<Handle>)

  // --- The locked sections ----------------------------------------------------------------

  function Declare(p: Progress, h: Handle): (Progress, bool) {
    if p.stopped then (p, false) else (p.(inCall := Some(h)), true)
  }

  function Withdraw(p: Progress): Progress {
    p.(inCall := None)
  }

  /** One turn of `stop`: the handle to cancel, or the answer to return. */
  function Ask(p: Progress, asked: bool): (Progress, Result<Handle, Stopped>) {
    (p.(stopped := true),
     if p.inCall.Some? then Ok(p.inCall.value) else Err(if asked then Reached else NothingToReach))
  }

  class Pipe {
    var stopped: bool
    var inCall: Option<Handle>

    ghost function Value(): Progress reads this { Progress(stopped, inCall) }

    constructor ()
      ensures Value() == Progress(false, None)
    {
      stopped, inCall := false, None;
    }

    method Begin(h: Handle) returns (declared: bool)
      modifies this
      ensures (Value(), declared) == Declare(old(Value()), h)
    {
      if stopped { return false; }
      inCall := Some(h);
      return true;
    }

    method DropInCall()
      modifies this
      ensures Value() == Withdraw(old(Value()))
    {
      inCall := None;
    }

    method AskOnce(asked: bool) returns (turn: Result<Handle, Stopped>)
      modifies this
      ensures (Value(), turn) == Ask(old(Value()), asked)
    {
      stopped := true;
      if inCall.Some? { return Ok(inCall.value); }
      return Err(if asked then Reached else NothingToReach);
    }
  }

  // --- The worker, the calls and their interleaving -----------------------------------------

  /** Where the worker stands: between operations, or inside one up to the drop of its guard. */
  datatype Phase = Outside | Declared | Submitted(cancelled: bool) | Returned | Unwinding

  datatype Caller = Idle | Looping(asked: bool) | Answered(answer: Stopped)

  /** `stream` is the handle the worker owns, and `None` once it has closed it. */
  datatype World = World(progress: Progress, stream: Option<Handle>, phase: Phase, callers: seq<Caller>)

  datatype Move =
    | DeclareMove | SubmitMove | CompleteMove | BlockedMove | PanicMove | WithdrawMove | CloseMove | RestMove
    | AskMove(caller: nat)

  predicate Start(s: World) {
    && s.progress == Progress(false, None) && s.phase == Outside
    && forall c :: 0 <= c < |s.callers| ==> s.callers[c] == Idle
  }

  /** Moves that the worker, the operating system and the calls can make. A worker inside an operation
      that has been cancelled completes it; one that has not been may stay blocked. */
  predicate Enabled(s: World, m: Move) {
    match m
    case DeclareMove => s.phase == Outside && s.stream.Some?
    case SubmitMove => s.phase == Declared
    case CompleteMove => s.phase.Submitted?
    case BlockedMove => s.phase == Submitted(false)
    case PanicMove => s.phase == Declared || s.phase == Returned
    case WithdrawMove => s.phase == Returned || s.phase == Unwinding
    case CloseMove => s.phase == Outside && s.stream.Some?
    case RestMove => s.phase == Outside
    case AskMove(c) => c < |s.callers|
  }

  function AfterAsk(s: World, c: nat, single: bool): World
    requires c < |s.callers|
  {
    if s.callers[c].Answered? then s
    else
      var (p, turn) := Ask(s.progress, s.callers[c] == Looping(true));
      match turn
      case Err(answer) => s.(progress := p, callers := s.callers[c := Answered(answer)])
      case Ok(h) =>
        s.(progress := p,
           phase := if s.phase.Submitted? && s.stream == Some(h) then Submitted(true) else s.phase,
           callers := s.callers[c := if single then Answered(Reached) else Looping(true)])
  }

  /** `single` is the variant of `stop` that asks once and returns. */
  function After(s: World, m: Move, single: bool): World
    requires Enabled(s, m)
  {
    match m
    case DeclareMove =>
      var (p, declared) := Declare(s.progress, s.stream.value);
      s.(progress := p, phase := if declared then Declared else Outside)
    case SubmitMove => s.(phase := Submitted(false))
    case CompleteMove => s.(phase := Returned)
    case BlockedMove => s
    case PanicMove => s.(phase := Unwinding)
    case WithdrawMove => s.(progress := Withdraw(s.progress), phase := Outside)
    case CloseMove => s.(stream := None)
    case RestMove => s
    case AskMove(c) => AfterAsk(s, c, single)
  }

  predicate Next(s: World, m: Move, t: World) {
    Enabled(s, m) && t == After(s, m, false)
  }

  ghost predicate Steps(states: seq<World>, moves: seq<Move>) {
    && |states| == |moves| + 1
    && Start(states[0])
    && forall i :: 0 <= i < |moves| ==> Next(states[i], moves[i], states[i + 1])
  }

  // --- Safety, in every interleaving -------------------------------------------------------

  predicate Consistent(p: Progress, c: Caller) {
    match c
    case Idle => true
    case Looping(asked) => asked && p.stopped
    case Answered(_) => p.stopped && p.inCall.None?
  }

  /** A handle is published exactly while its owner is inside an operation on that open stream. */
  predicate Safe(s: World) {
    && (s.phase == Outside <==> s.progress.inCall.None?)
    && (s.phase != Outside ==> s.stream.Some? && s.progress.inCall == s.stream)
    && (forall c :: 0 <= c < |s.callers| ==> Consistent(s.progress, s.callers[c]))
  }

  lemma NextKeepsSafe(s: World, m: Move, t: World)
    requires Safe(s) && Next(s, m, t)
    ensures Safe(t)
  {
  }

  lemma {:induction false} AlwaysSafe(states: seq<World>, moves: seq<Move>, i: nat)
    requires Steps(states, moves) && i < |states|
    ensures Safe(states[i])
  {
    if i > 0 {
      AlwaysSafe(states, moves, i - 1);
      NextKeepsSafe(states[i - 1], moves[i - 1], states[i]);
    }
  }

  /** Whatever a call cancels is the open stream of a worker that is inside an operation on it. */
  lemma CancelsOnlyAnOwnedHandle(states: seq<World>, moves: seq<Move>, i: nat, h: Handle)
    requires Steps(states, moves) && i < |moves| && moves[i].AskMove?
    requires Ask(states[i].progress, true).1 == Ok(h)
    ensures states[i].stream == Some(h) && states[i].phase != Outside
  {
    AlwaysSafe(states, moves, i);
  }

  /** From a call's first locked step on, the worker is stopped: it can finish the operation it
      is inside, and once that is withdrawn nothing is ever published again. */
  lemma {:induction false} StoppedForGood(states: seq<World>, moves: seq<Move>, i: nat, j: nat)
    requires Steps(states, moves) && i <= j < |states| && states[i].progress.stopped
    ensures states[j].progress.stopped
    ensures states[i].progress.inCall.None? ==> states[j].progress.inCall.None?
    ensures states[j].progress.inCall.Some? ==> states[j].progress.inCall == states[i].progress.inCall
    ensures states[j].phase == Declared ==> states[i].phase == Declared
  {
    if i < j {
      StoppedForGood(states, moves, i, j - 1);
      AlwaysSafe(states, moves, j - 1);
      assert Next(states[j - 1], moves[j - 1], states[j]);
    }
  }

  /** A call's first turn: the first move that is its own. */
  ghost predicate FirstAsk(moves: seq<Move>, c: nat, i: nat) {
    i < |moves| && moves[i] == AskMove(c) && forall k :: 0 <= k < i ==> moves[k] != AskMove(c)
  }

  lemma {:induction false} IdleUntilFirstAsk(states: seq<World>, moves: seq<Move>, c: nat, i: nat)
    requires Steps(states, moves) && i < |states| && c < |states[0].callers|
    requires forall k :: 0 <= k < i ==> moves[k] != AskMove(c)
    ensures |states[i].callers| == |states[0].callers| && states[i].callers[c] == Idle
  {
    if i > 0 {
      IdleUntilFirstAsk(states, moves, c, i - 1);
      assert Next(states[i - 1], moves[i - 1], states[i - 1 + 1]);
    }
  }

  lemma {:induction false} AnswerFollowsFirstAsk(states: seq<World>, moves: seq<Move>, c: nat, i: nat, j: nat)
    requires Steps(states, moves) && c < |states[0].callers|
    requires FirstAsk(moves, c, i) && i < j < |states|
    ensures |states[j].callers| == |states[0].callers|
    ensures states[j].progress.stopped
    ensures states[i].progress.inCall.Some? ==>
      states[j].callers[c] == Looping(true) || states[j].callers[c] == Answered(Reached)
    ensures states[i].progress.inCall.None? ==> states[j].callers[c] == Answered(NothingToReach)
  {
    if j == i + 1 {
      IdleUntilFirstAsk(states, moves, c, i);
      assert Next(states[i], moves[i], states[j]);
    } else {
      AnswerFollowsFirstAsk(states, moves, c, i, j - 1);
      assert Next(states[j - 1], moves[j - 1], states[j]);
    }
  }

  /** When `stop` has answered: it says `Reached` exactly if an operation was declared at its first
      locked step, nothing is published, and nothing is published in any later state. */
  lemma StopMeansStopped(states: seq<World>, moves: seq<Move>, c: nat, i: nat, j: nat, k: nat)
    requires Steps(states, moves) && c < |states[0].callers|
    requires FirstAsk(moves, c, i) && i < j <= k < |states|
    requires c < |states[j].callers| && states[j].callers[c].Answered?
    ensures states[j].callers[c].answer == Reached <==> states[i].progress.inCall.Some?
    ensures states[k].progress.inCall.None? && states[k].phase == Outside
  {
    AnswerFollowsFirstAsk(states, moves, c, i, j);
    AlwaysSafe(states, moves, j);
    StoppedForGood(states, moves, j, k);
    AlwaysSafe(states, moves, k);
  }

  // --- Liveness, under every fair schedule ----------------------------------------------------

  /** An endless run. */
  datatype Behaviour = Behaviour(states: nat -> World, moves: nat -> Move)

  ghost predicate Runs(b: Behaviour) {
    && Start(b.states(0))
    && forall t: nat :: Next(b.states(t), b.moves(t), b.states(t + 1))
  }

  predicate WorkerMove(m: Move) { !m.AskMove? }

  ghost predicate WorkerRunsAfter(b: Behaviour, t: nat) {
    exists u: nat :: t <= u && WorkerMove(b.moves(u))
  }

  ghost predicate CallRunsAfter(b: Behaviour, c: nat, t: nat) {
    exists u: nat :: t <= u && b.moves(u) == AskMove(c)
  }

  /** Call `c` and the worker both keep being scheduled, however late. */
  ghost predicate Fair(b: Behaviour, c: nat) {
    forall t: nat :: WorkerRunsAfter(b, t) && CallRunsAfter(b, c, t)
  }

  /** How far the worker is from the end of the operation it was stopped in. */
  function Distance(s: World): nat {
    match s.phase
    case Declared => 5
    case Submitted(false) => 4
    case Submitted(true) => 3
    case Returned => 2
    case Unwinding => 1
    case Outside => 0
  }

  ghost predicate Stopping(s: World, c: nat) {
    Safe(s) && s.progress.stopped && c < |s.callers| && s.callers[c].Looping?
  }

  ghost predicate Has(s: World, c: nat) {
    c < |s.callers| && s.callers[c].Answered?
  }

  lemma {:induction false} DistanceNeverGrows(b: Behaviour, c: nat, t: nat, u: nat)
    requires Runs(b) && t <= u && Stopping(b.states(t), c)
    ensures Stopping(b.states(u), c) || Has(b.states(u), c)
    ensures Safe(b.states(u)) && b.states(u).progress.stopped
    ensures Distance(b.states(u)) <= Distance(b.states(t))
  {
    if t < u {
      DistanceNeverGrows(b, c, t, u - 1);
      assert Next(b.states(u - 1), b.moves(u - 1), b.states(u - 1 + 1));
      NextKeepsSafe(b.states(u - 1), b.moves(u - 1), b.states(u));
    }
  }

  /** Between two moments the distance shrinks, or the call answers. */
  lemma GetsCloser(b: Behaviour, c: nat, t: nat) returns (u: nat)
    requires Runs(b) && Fair(b, c) && Stopping(b.states(t), c)
    ensures t < u
    ensures Has(b.states(u), c) || (Stopping(b.states(u), c) && Distance(b.states(u)) < Distance(b.states(t)))
  {
    var v: nat;
    if b.states(t).phase == Outside || b.states(t).phase == Submitted(false) {
      assert CallRunsAfter(b, c, t);
      v :| t <= v && b.moves(v) == AskMove(c);
    } else {
      assert WorkerRunsAfter(b, t);
      v :| t <= v && WorkerMove(b.moves(v));
    }
    DistanceNeverGrows(b, c, t, v);
    u := v + 1;
    assert Next(b.states(v), b.moves(v), b.states(v + 1));
    DistanceNeverGrows(b, c, t, u);
  }

  /** `stop` returns: a call that has started asking answers at some later moment. */
  lemma {:induction false} StopTerminates(b: Behaviour, c: nat, t: nat)
    requires Runs(b) && Fair(b, c) && Stopping(b.states(t), c)
    ensures exists u: nat :: t < u && Has(b.states(u), c)
    decreases Distance(b.states(t))
  {
    var u := GetsCloser(b, c, t);
    if !Has(b.states(u), c) {
      StopTerminates(b, c, u);
    }
  }

  lemma {:induction false} BehaviourIsSafe(b: Behaviour, t: nat)
    requires Runs(b)
    ensures Safe(b.states(t)) && |b.states(t).callers| == |b.states(0).callers|
  {
    if t > 0 {
      BehaviourIsSafe(b, t - 1);
      assert Next(b.states(t - 1), b.moves(t - 1), b.states(t - 1 + 1));
      NextKeepsSafe(b.states(t - 1), b.moves(t - 1), b.states(t));
    }
  }

  /** In every fair run, every call that stops the worker gets its answer. */
  lemma EveryStopIsAnswered(b: Behaviour, c: nat)
    requires Runs(b) && Fair(b, c) && c < |b.states(0).callers|
    ensures exists u: nat :: Has(b.states(u), c)
  {
    assert CallRunsAfter(b, c, 0);
    var t: nat :| 0 <= t && b.moves(t) == AskMove(c);
    BehaviourIsSafe(b, t);
    BehaviourIsSafe(b, t + 1);
    assert Next(b.states(t), b.moves(t), b.states(t + 1));
    if !Has(b.states(t + 1), c) {
      StopTerminates(b, c, t + 1);
    }
  }

  // --- Asking once is not enough ----------------------------------------------------------

  ghost predicate RunsAskingOnce(b: Behaviour) {
    && Start(b.states(0))
    && forall t: nat :: Enabled(b.states(t), b.moves(t)) && b.states(t + 1) == After(b.states(t), b.moves(t), true)
  }

  /** Declare, be asked once in the gap before submission, submit, and stay blocked. */
  function GapMove(t: nat): Move {
    if t == 0 then DeclareMove
    else if t == 1 then AskMove(0)
    else if t == 2 then SubmitMove
    else if t % 2 == 1 then BlockedMove else AskMove(0)
  }

  function GapState(t: nat): World {
    var open := Some(7);
    if t == 0 then World(Progress(false, None), open, Outside, [Idle])
    else if t == 1 then World(Progress(false, open), open, Declared, [Idle])
    else if t == 2 then World(Progress(true, open), open, Declared, [Answered(Reached)])
    else World(Progress(true, open), open, Submitted(false), [Answered(Reached)])
  }

  /** A call that asks once can return and leave an operation submitted that nobody ever cancels,
      although the schedule is fair to everyone. */
  lemma AskingOnceLeavesAnOperation()
    ensures exists b ::
              && RunsAskingOnce(b) && Fair(b, 0)
              && forall t: nat :: t >= 3 ==> Has(b.states(t), 0) && b.states(t).phase == Submitted(false)
  {
    var b := Behaviour(GapState, GapMove);
    forall t: nat
      ensures Enabled(b.states(t), b.moves(t)) && b.states(t + 1) == After(b.states(t), b.moves(t), true)
    {
    }
    forall t: nat ensures WorkerRunsAfter(b, t) && CallRunsAfter(b, 0, t) {
      assert t <= 2 * t + 3 && WorkerMove(b.moves(2 * t + 3));
      assert t <= 2 * t + 4 && b.moves(2 * t + 4) == AskMove(0);
    }
  }

  /** The same gap with the loop: the second ask finds the operation submitted. */
  function LoopMove(t: nat): Move {
    if t == 0 then DeclareMove
    else if t == 1 then AskMove(0)
    else if t == 2 then SubmitMove
    else if t == 3 then AskMove(0)
    else if t == 4 then CompleteMove
    else if t == 5 then WithdrawMove
    else if t % 2 == 0 then AskMove(0) else RestMove
  }

  function LoopState(t: nat): World {
    var open := Some(7);
    if t == 0 then World(Progress(false, None), open, Outside, [Idle])
    else if t == 1 then World(Progress(false, open), open, Declared, [Idle])
    else if t == 2 then World(Progress(true, open), open, Declared, [Looping(true)])
    else if t == 3 then World(Progress(true, open), open, Submitted(false), [Looping(true)])
    else if t == 4 then World(Progress(true, open), open, Submitted(true), [Looping(true)])
    else if t == 5 then World(Progress(true, open), open, Returned, [Looping(true)])
    else if t == 6 then World(Progress(true, None), open, Outside, [Looping(true)])
    else World(Progress(true, None), open, Outside, [Answered(Reached)])
  }

  /** Fair runs exist, and one of them goes through the very gap in which asking once fails. */
  lemma AskingAgainReaches()
    ensures exists b ::
              && Runs(b) && Fair(b, 0) && b.states(2).phase == Declared && b.states(2).callers == [Looping(true)]
              && forall t: nat :: t >= 7 ==> b.states(t).callers == [Answered(Reached)] && b.states(t).phase == Outside
  {
    var b := Behaviour(LoopState, LoopMove);
    forall t: nat ensures Next(b.states(t), b.moves(t), b.states(t + 1)) {
    }
    forall t: nat ensures WorkerRunsAfter(b, t) && CallRunsAfter(b, 0, t) {
      assert t <= 2 * t + 7 && WorkerMove(b.moves(2 * t + 7));
      assert t <= 2 * t + 6 && b.moves(2 * t + 6) == AskMove(0);
    }
  }
}

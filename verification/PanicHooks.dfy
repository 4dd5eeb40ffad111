/**
 The process-wide panic hook shared by overlapping catches (`src/extensions.rs`, `build_catching`).

 `HookTable` is the locked counter, the saved hook and the thread-local quiet counters, with one
 method for each of the two locked sections. Around it, any number of threads enter and leave
 catches, nested to any depth, interleaved at every acquisition and release of the lock, and the
 process installs hooks of its own at any time between two locked sections.
 */
module PanicHooks {
  import opened Wrappers

  /** A hook as a process can observe it: whose code a panic reaches. */
  datatype Hook = Native(id: nat) | Dispatcher(delegate: Hook) | Forward(hook: Hook)

  /** The native hook that reports a panic, or none if it is silenced. */
  function Reports(h: Hook, quiet: bool): Option<nat> {
    match h
    case Native(id) => Some(id)
    case Dispatcher(delegate) => if quiet then None else Reports(delegate, quiet)
    case Forward(hook) => Reports(hook, quiet)
  }

  /** A hook with no dispatcher in it. */
  predicate Plain(h: Hook) {
    match h
    case Native(_) => true
    case Dispatcher(_) => false
    case Forward(hook) => Plain(hook)
  }

  lemma {:induction false} PlainIgnoresQuiet(h: Hook)
    requires Plain(h)
    ensures Reports(h, true).Some? && Reports(h, true) == Reports(h, false)
  {
    if h.Forward? { PlainIgnoresQuiet(h.hook); }
  }

  datatype Table = Table(hook: Hook, active: nat, previous: Option<Hook>)

  // --- The two locked sections ---------------------------------------------------------

  function Entered(t: Table): Table {
    if t.active == 0
    then Table(Dispatcher(t.hook), 1, Some(t.hook))
    else t.(active := t.active + 1)
  }

  /** `shared` is whether someone else still holds the saved hook, so that it can only be forwarded to. */
  function Left(t: Table, shared: bool): Table
    requires t.active > 0 && t.previous.Some?
  {
    if t.active == 1
    then Table(if shared then Forward(t.previous.value) else t.previous.value, 0, None)
    else t.(active := t.active - 1)
  }

  class HookTable {
    var hook: Hook
    var active: nat
    var previous: Option<Hook>
    var quiet: map<nat, nat>

    ghost function Value(): Table reads this { Table(hook, active, previous) }

    function QuietOn(thread: nat): nat reads this {
      if thread in quiet then quiet[thread] else 0
    }

    constructor (hook: Hook)
      ensures Value() == Table(hook, 0, None) && quiet == map[]
    {
      this.hook, active, previous, quiet := hook, 0, None, map[];
    }

    method Enter(thread: nat)
      modifies this
      ensures Value() == Entered(old(Value()))
      ensures quiet == old(quiet)[thread := old(QuietOn(thread)) + 1]
    {
      if active == 0 {
        var saved := hook;
        hook := Dispatcher(saved);
        previous := Some(saved);
      }
      active := active + 1;
      quiet := quiet[thread := QuietOn(thread) + 1];
    }

    method Leave(thread: nat, shared: bool)
      requires active > 0 && previous.Some? && QuietOn(thread) > 0
      modifies this
      ensures Value() == Left(old(Value()), shared)
      ensures quiet == old(quiet)[thread := old(QuietOn(thread)) - 1]
    {
      quiet := quiet[thread := QuietOn(thread) - 1];
      active := active - 1;
      if active == 0 {
        var saved := previous.value;
        previous := None;
        hook := if shared then Forward(saved) else saved;
      }
    }
  }

  // --- Threads ---------------------------------------------------------------------------

  /** One call of `build_catching` on a thread's stack. `Unhooked` is a call made while unwinding,
      which leaves the hook alone. */
  datatype Frame = WantsIn | HoldsIn | Building | WantsOut | HoldsOut | Unhooked

  datatype Thread = Thread(quiet: nat, frames: seq<Frame>)

  /** `original` is the native hook the process last installed for itself, outside any catch. */
  datatype World = World(table: Table, lock: Option<nat>, threads: seq<Thread>, original: nat)

  datatype Move =
    | Spawn
    | Install(id: nat)
    | Call(thread: nat)
    | CallWhileUnwinding(thread: nat)
    | Acquire(thread: nat)
    | EnterBody(thread: nat)
    | FinishBuild(thread: nat)
    | LeaveBody(thread: nat, shared: bool)
    | FinishUnhooked(thread: nat)

  predicate TopIs(s: World, thread: nat, frame: Frame) {
    thread < |s.threads|
    && var f := s.threads[thread].frames; |f| > 0 && f[|f| - 1] == frame
  }

  /** The thread runs its own code, or code that a catch is building. */
  predicate RunsAdapterCode(s: World, thread: nat) {
    thread < |s.threads|
    && (s.threads[thread].frames == [] || TopIs(s, thread, Building) || TopIs(s, thread, Unhooked))
  }

  predicate Enabled(s: World, m: Move) {
    match m
    case Spawn => true
    case Install(_) => true
    case Call(t) => RunsAdapterCode(s, t)
    case CallWhileUnwinding(t) => RunsAdapterCode(s, t)
    case Acquire(t) => s.lock.None? && (TopIs(s, t, WantsIn) || TopIs(s, t, WantsOut))
    case EnterBody(t) => s.lock == Some(t) && TopIs(s, t, HoldsIn)
    case FinishBuild(t) => TopIs(s, t, Building)
    case LeaveBody(t, _) =>
      && s.lock == Some(t) && TopIs(s, t, HoldsOut)
      && s.table.active > 0 && s.table.previous.Some? && s.threads[t].quiet > 0
    case FinishUnhooked(t) => TopIs(s, t, Unhooked)
  }

  function Push(s: World, t: nat, frame: Frame): World
    requires t < |s.threads|
  {
    s.(threads := s.threads[t := s.threads[t].(frames := s.threads[t].frames + [frame])])
  }

  /** Replace the top frame, or drop it. */
  function Pop(s: World, t: nat, quiet: nat, next: seq<Frame>): World
    requires t < |s.threads| && |s.threads[t].frames| > 0
  {
    var f := s.threads[t].frames;
    s.(threads := s.threads[t := Thread(quiet, f[..|f| - 1] + next)])
  }

  function After(s: World, m: Move): World
    requires Enabled(s, m)
  {
    match m
    case Spawn => s.(threads := s.threads + [Thread(0, [])])
    case Install(id) =>
      s.(table := s.table.(hook := Native(id)), original := if s.table.active == 0 then id else s.original)
    case Call(t) => Push(s, t, WantsIn)
    case CallWhileUnwinding(t) => Push(s, t, Unhooked)
    case Acquire(t) =>
      Pop(s, t, s.threads[t].quiet, [if TopIs(s, t, WantsIn) then HoldsIn else HoldsOut]).(lock := Some(t))
    case EnterBody(t) =>
      Pop(s, t, s.threads[t].quiet + 1, [Building]).(table := Entered(s.table), lock := None)
    case FinishBuild(t) => Pop(s, t, s.threads[t].quiet, [WantsOut])
    case LeaveBody(t, shared) =>
      Pop(s, t, s.threads[t].quiet - 1, []).(table := Left(s.table, shared), lock := None)
    case FinishUnhooked(t) => Pop(s, t, s.threads[t].quiet, [])
  }

  predicate Start(s: World) {
    && s.table == Table(Native(s.original), 0, None) && s.lock.None?
    && forall t :: 0 <= t < |s.threads| ==> s.threads[t] == Thread(0, [])
  }

  ghost predicate Steps(states: seq<World>, moves: seq<Move>) {
    && |states| == |moves| + 1
    && Start(states[0])
    && forall i :: 0 <= i < |moves| ==> Enabled(states[i], moves[i]) && states[i + 1] == After(states[i], moves[i])
  }

  // --- What holds in every state --------------------------------------------------------

  function TotalQuiet(threads: seq<Thread>): nat {
    if threads == [] then 0 else threads[0].quiet + TotalQuiet(threads[1..])
  }

  predicate Inside(f: Frame) { f == Building || f == WantsOut || f == HoldsOut }

  predicate Holds(f: Frame) { f == HoldsIn || f == HoldsOut }

  /** How many of a thread's calls are between their two locked sections. */
  function Catches(frames: seq<Frame>): nat {
    if frames == [] then 0
    else Catches(frames[..|frames| - 1]) + if Inside(frames[|frames| - 1]) then 1 else 0
  }

  predicate ThreadOk(s: World, t: nat)
    requires t < |s.threads|
  {
    var f := s.threads[t].frames;
    && s.threads[t].quiet == Catches(f)
    && (forall i :: 0 <= i < |f| - 1 ==> f[i] == Building || f[i] == Unhooked)
    && (s.lock == Some(t) <==> |f| > 0 && Holds(f[|f| - 1]))
  }

  predicate TableOk(s: World) {
    if s.table.active == 0
    then s.table.previous.None? && Plain(s.table.hook) && Reports(s.table.hook, false) == Some(s.original)
    else
      && s.table.previous.Some? && (s.table.hook == Dispatcher(s.table.previous.value) || s.table.hook.Native?)
      && Plain(s.table.previous.value) && Reports(s.table.previous.value, false) == Some(s.original)
  }

  predicate Good(s: World) {
    && TableOk(s)
    && s.table.active == TotalQuiet(s.threads)
    && (forall t :: 0 <= t < |s.threads| ==> ThreadOk(s, t))
    && (s.lock.Some? ==> s.lock.value < |s.threads|)
  }

  lemma {:induction false} TotalAfterUpdate(threads: seq<Thread>, t: nat, thread: Thread)
    requires t < |threads|
    ensures TotalQuiet(threads[t := thread]) == TotalQuiet(threads) - threads[t].quiet + thread.quiet
    ensures TotalQuiet(threads) >= threads[t].quiet
  {
    if t > 0 {
      TotalAfterUpdate(threads[1..], t - 1, thread);
      assert threads[t := thread][1..] == threads[1..][t - 1 := thread];
    } else {
      assert threads[0 := thread][1..] == threads[1..];
    }
  }

  lemma {:induction false} TotalAfterSpawn(threads: seq<Thread>)
    ensures TotalQuiet(threads + [Thread(0, [])]) == TotalQuiet(threads)
  {
    if threads != [] {
      assert (threads + [Thread(0, [])])[1..] == threads[1..] + [Thread(0, [])];
      TotalAfterSpawn(threads[1..]);
    }
  }

  lemma CatchesOfPop(frames: seq<Frame>, next: seq<Frame>)
    requires |frames| > 0 && |next| <= 1
    ensures Catches(frames) == Catches(frames[..|frames| - 1]) + (if Inside(frames[|frames| - 1]) then 1 else 0)
    ensures Catches(frames[..|frames| - 1] + next) ==
      Catches(frames[..|frames| - 1]) + (if |next| == 1 && Inside(next[0]) then 1 else 0)
  {
    var f := frames[..|frames| - 1] + next;
    if |next| == 1 {
      assert f[..|f| - 1] == frames[..|frames| - 1];
    } else {
      assert f == frames[..|frames| - 1];
    }
  }

  lemma CatchesOfPush(frames: seq<Frame>, frame: Frame)
    ensures Catches(frames + [frame]) == Catches(frames) + if Inside(frame) then 1 else 0
  {
    assert (frames + [frame])[..|frames|] == frames;
  }

  lemma PushKeepsGood(s: World, t: nat, frame: Frame)
    requires Good(s) && RunsAdapterCode(s, t) && !Inside(frame) && !Holds(frame)
    ensures Good(Push(s, t, frame))
  {
    hide Catches, TotalQuiet;
    var r := Push(s, t, frame);
    TotalAfterUpdate(s.threads, t, r.threads[t]);
    CatchesOfPush(s.threads[t].frames, frame);
    forall u | 0 <= u < |r.threads| ensures ThreadOk(r, u) {
      assert ThreadOk(s, u);
    }
  }

  /** Moving a thread's top frame on, with its quiet counter and the lock to match, keeps every thread in order. */
  lemma TopMoves(s: World, t: nat, next: seq<Frame>, table: Table, lock: Option<nat>)
    requires Good(s) && t < |s.threads| && |s.threads[t].frames| > 0
    requires |next| <= 1
    requires lock == Some(t) <==> |next| == 1 && Holds(next[0])
    requires lock == s.lock || ((s.lock.None? || s.lock == Some(t)) && (lock.None? || lock == Some(t)))
    ensures
      var f := s.threads[t].frames;
      var quiet := Catches(f[..|f| - 1] + next);
      var r := Pop(s, t, quiet, next).(table := table, lock := lock);
      && quiet == s.threads[t].quiet - (if Inside(f[|f| - 1]) then 1 else 0)
                  + (if |next| == 1 && Inside(next[0]) then 1 else 0)
      && (forall u :: 0 <= u < |r.threads| ==> ThreadOk(r, u))
      && TotalQuiet(r.threads) == TotalQuiet(s.threads) - s.threads[t].quiet + quiet
      && TotalQuiet(s.threads) >= s.threads[t].quiet
  {
    var f := s.threads[t].frames;
    CatchesOfPop(f, next);
    var r := Pop(s, t, Catches(f[..|f| - 1] + next), next).(table := table, lock := lock);
    TotalAfterUpdate(s.threads, t, r.threads[t]);
    assert ThreadOk(s, t);
    forall u | 0 <= u < |r.threads| ensures ThreadOk(r, u) {
      assert ThreadOk(s, u);
    }
  }

  /** A move of one thread's top frame. */
  lemma FrameMoveKeepsGood(s: World, m: Move)
    requires Good(s) && Enabled(s, m)
    requires m.Acquire? || m.FinishBuild? || m.FinishUnhooked?
    ensures Good(After(s, m))
  {
    hide Catches, TotalQuiet;
    match m
    case Acquire(t) => TopMoves(s, t, [if TopIs(s, t, WantsIn) then HoldsIn else HoldsOut], s.table, Some(t));
    case FinishBuild(t) =>
      assert ThreadOk(s, t);
      TopMoves(s, t, [WantsOut], s.table, s.lock);
    case FinishUnhooked(t) =>
      assert ThreadOk(s, t);
      TopMoves(s, t, [], s.table, s.lock);
  }

  /** A locked section: one catch more, or one less. */
  lemma BodyKeepsGood(s: World, m: Move)
    requires Good(s) && Enabled(s, m) && (m.EnterBody? || m.LeaveBody?)
    ensures Good(After(s, m))
  {
    hide Catches, TotalQuiet;
    match m
    case EnterBody(t) => TopMoves(s, t, [Building], Entered(s.table), None);
    case LeaveBody(t, shared) => TopMoves(s, t, [], Left(s.table, shared), None);
  }

  lemma AfterKeepsGood(s: World, m: Move)
    requires Good(s) && Enabled(s, m)
    ensures Good(After(s, m))
  {
    match m
    case Spawn =>
      TotalAfterSpawn(s.threads);
      forall u | 0 <= u < |s.threads| + 1 ensures ThreadOk(After(s, m), u) {
        assert u < |s.threads| ==> ThreadOk(s, u);
      }
    case Install(id) =>
      forall u | 0 <= u < |s.threads| ensures ThreadOk(After(s, m), u) {
        assert ThreadOk(s, u);
      }
    case Call(t) => PushKeepsGood(s, t, WantsIn);
    case CallWhileUnwinding(t) => PushKeepsGood(s, t, Unhooked);
    case _ =>
      if m.EnterBody? || m.LeaveBody? { BodyKeepsGood(s, m); } else { FrameMoveKeepsGood(s, m); }
  }

  // --- The results ------------------------------------------------------------------------

  lemma {:induction false} AlwaysGood(states: seq<World>, moves: seq<Move>, i: nat)
    requires Steps(states, moves) && i < |states|
    ensures Good(states[i])
  {
    if i == 0 {
      NobodyQuiet(states[0].threads);
    } else {
      AlwaysGood(states, moves, i - 1);
      AfterKeepsGood(states[i - 1], moves[i - 1]);
      assert states[i - 1 + 1] == After(states[i - 1], moves[i - 1]);
    }
  }

  lemma {:induction false} NobodyQuiet(threads: seq<Thread>)
    requires forall t :: 0 <= t < |threads| ==> threads[t] == Thread(0, [])
    ensures TotalQuiet(threads) == 0
  {
    if threads != [] { NobodyQuiet(threads[1..]); }
  }

  /** The hook that the process installed last since the first of the open catches entered, if it installed one. */
  ghost function Intruder(states: seq<World>, moves: seq<Move>, i: nat): Option<nat>
    requires i < |states| == |moves| + 1
  {
    if i == 0 || states[i].table.active == 0 then None
    else if moves[i - 1].Install? && states[i - 1].table.active > 0 then Some(moves[i - 1].id)
    else Intruder(states, moves, i - 1)
  }

  lemma HookStep(s: World, m: Move)
    requires Good(s) && Enabled(s, m)
    ensures var t := After(s, m);
      && (m.Install? ==> t.table.hook == Native(m.id) && t.table.active == s.table.active)
      && (!m.Install? && s.table.active > 0 && t.table.active > 0 ==>
            t.table.hook == s.table.hook && t.table.previous == s.table.previous)
      && (s.table.active == 0 && t.table.active > 0 ==>
            t.table.previous == Some(s.table.hook) && t.table.hook == Dispatcher(s.table.hook))
  {
    hide TotalQuiet, ThreadOk;
  }

  /** While a catch is open the dispatcher stands, or else the hook installed last inside. */
  lemma {:induction false} WhichHook(states: seq<World>, moves: seq<Move>, i: nat)
    requires Steps(states, moves) && i < |states| && states[i].table.active > 0
    ensures states[i].table.previous.Some?
    ensures var intruder := Intruder(states, moves, i);
      states[i].table.hook ==
        if intruder.None? then Dispatcher(states[i].table.previous.value) else Native(intruder.value)
  {
    hide Enabled, After, Good;
    assert states[0].table.active == 0;
    var (before, m) := (i - 1, moves[i - 1]);
    assert Enabled(states[before], m) && states[before + 1] == After(states[before], m);
    AlwaysGood(states, moves, before);
    HookStep(states[before], m);
    PreviousIs(states, moves, i);
    if states[before].table.active > 0 { WhichHook(states, moves, before); }
  }

  lemma PreviousIs(states: seq<World>, moves: seq<Move>, i: nat)
    requires Steps(states, moves) && i < |states| && states[i].table.active > 0
    ensures states[i].table.previous.Some?
  {
    AlwaysGood(states, moves, i);
  }

  /** In every reachable state: the counter is the number of catches open on all threads together, and nobody runs
      adapter code while holding the lock. With no catch open the hook is the one the process last installed outside
      any catch, whatever it installed inside one. While catches are open and no hook was installed inside them, the
      dispatcher stands, a panic is silenced exactly on the threads inside a catch, and it otherwise reaches that
      same hook; a hook installed inside them reports every panic instead, silenced threads included. */
  lemma HookIsShared(states: seq<World>, moves: seq<Move>, i: nat)
    requires Steps(states, moves) && i < |states|
    ensures var (s, intruder) := (states[i], Intruder(states, moves, i));
      && s.table.active == TotalQuiet(s.threads)
      && (forall t :: s.lock == Some(t) ==> !RunsAdapterCode(s, t))
      && (s.table.hook.Dispatcher? <==> s.table.active > 0 && intruder.None?)
      && (s.table.active == 0 ==> intruder.None? && forall quiet :: Reports(s.table.hook, quiet) == Some(s.original))
      && (forall t :: 0 <= t < |s.threads| ==>
            Reports(s.table.hook, s.threads[t].quiet > 0) ==
              if intruder.Some? then intruder
              else if Catches(s.threads[t].frames) > 0 then None else Some(s.original))
  {
    assert |states| == |moves| + 1;
    hide Good, Catches, TotalQuiet, RunsAdapterCode, Steps;
    AlwaysGood(states, moves, i);
    if states[i].table.active > 0 { WhichHook(states, moves, i); }
    TableIsShared(states[i]);
    if Intruder(states, moves, i).None? { PanicsAreShared(states[i]); }
  }

  lemma TableIsShared(s: World)
    requires Good(s)
    ensures s.table.active == TotalQuiet(s.threads)
    ensures forall t :: s.lock == Some(t) ==> !RunsAdapterCode(s, t)
    ensures s.table.active == 0 ==>
      !s.table.hook.Dispatcher? && forall quiet :: Reports(s.table.hook, quiet) == Some(s.original)
  {
    hide Catches, TotalQuiet;
    if s.table.active == 0 { PlainIgnoresQuiet(s.table.hook); }
    forall t | s.lock == Some(t) ensures !RunsAdapterCode(s, t) {
      assert ThreadOk(s, t);
    }
  }

  lemma PanicsAreShared(s: World)
    requires Good(s) && (s.table.active > 0 ==> s.table.hook.Dispatcher?)
    ensures forall t :: 0 <= t < |s.threads| ==>
      Reports(s.table.hook, s.threads[t].quiet > 0) ==
        if Catches(s.threads[t].frames) > 0 then None else Some(s.original)
  {
    PlainIgnoresQuiet(if s.table.active == 0 then s.table.hook else s.table.previous.value);
    forall t | 0 <= t < |s.threads|
      ensures Reports(s.table.hook, s.threads[t].quiet > 0) ==
        if Catches(s.threads[t].frames) > 0 then None else Some(s.original)
    {
      assert ThreadOk(s, t);
      TotalAfterUpdate(s.threads, t, s.threads[t]);
    }
  }

  /** A run of one thread in which a hook is installed while its catch is open. */
  function MovesInside(id: nat): seq<Move> {
    [Call(0), Acquire(0), EnterBody(0), Install(id), FinishBuild(0), Acquire(0), LeaveBody(0, false)]
  }

  function StatesInside(original: nat, id: nat): seq<World> {
    var first := World(Table(Native(original), 0, None), None, [Thread(0, [])], original);
    var open := Table(Native(id), 1, Some(Native(original)));
    [ first,
      first.(threads := [Thread(0, [WantsIn])]),
      first.(threads := [Thread(0, [HoldsIn])], lock := Some(0)),
      World(Entered(first.table), None, [Thread(1, [Building])], original),
      World(open, None, [Thread(1, [Building])], original),
      World(open, None, [Thread(1, [WantsOut])], original),
      World(open, Some(0), [Thread(1, [HoldsOut])], original),
      first ]
  }

  /** A hook that the process installs while a catch is open reports the panic that the catch should silence, and is
      gone when the last catch leaves. */
  lemma InstallInsideACatchIsLost(original: nat, id: nat)
    ensures Steps(StatesInside(original, id), MovesInside(id))
    ensures var inside := StatesInside(original, id)[4];
      Catches(inside.threads[0].frames) > 0 && Reports(inside.table.hook, inside.threads[0].quiet > 0) == Some(id)
    ensures StatesInside(original, id)[7].table == Table(Native(original), 0, None)
  {
    var (states, moves) := (StatesInside(original, id), MovesInside(id));
    forall i | 0 <= i < |moves| ensures Enabled(states[i], moves[i]) && states[i + 1] == After(states[i], moves[i]) {
      InsideStepIs(original, id, i);
    }
    assert [Building][..0] == [];
  }

  lemma InsideStepIs(original: nat, id: nat, i: nat)
    requires i < 7
    ensures var (states, moves) := (StatesInside(original, id), MovesInside(id));
      Enabled(states[i], moves[i]) && states[i + 1] == After(states[i], moves[i])
  {
    var s := StatesInside(original, id)[i];
    var f := s.threads[0].frames;
    assert f != [] ==> f[..|f| - 1] == [];
    var (r, t) := (After(s, MovesInside(id)[i]), StatesInside(original, id)[i + 1]);
    assert r.threads[0].frames == t.threads[0].frames;
    assert r.threads == t.threads;
  }

  /** Whoever holds the lock can always run its locked section: leaving a catch finds a saved hook and never takes a
      counter below zero. */
  lemma HolderGoesOn(states: seq<World>, moves: seq<Move>, i: nat)
    requires Steps(states, moves) && i < |states| && states[i].lock.Some?
    ensures var (s, holder) := (states[i], states[i].lock.value);
      if TopIs(s, holder, HoldsOut)
      then s.table.active > 0 && s.table.previous.Some? && s.threads[holder].quiet > 0
        && forall shared :: Enabled(s, LeaveBody(holder, shared))
      else Enabled(s, EnterBody(holder))
  {
    hide Catches, TotalQuiet;
    AlwaysGood(states, moves, i);
    var (s, holder) := (states[i], states[i].lock.value);
    assert ThreadOk(s, holder);
    CatchesOfPop(s.threads[holder].frames, []);
    TotalAfterUpdate(s.threads, holder, s.threads[holder]);
  }

  /** A thread that waits for the lock waits for no adapter code: the lock is free, or its holder's next
      locked section can run at once, whatever every builder does, and frees it. */
  lemma WaitingEndsWithoutAdapterCode(states: seq<World>, moves: seq<Move>, i: nat, t: nat)
    requires Steps(states, moves) && i < |states|
    requires TopIs(states[i], t, WantsIn) || TopIs(states[i], t, WantsOut)
    ensures var s := states[i];
      if s.lock.None? then Enabled(s, Acquire(t))
      else
        var holder := s.lock.value;
        if TopIs(s, holder, HoldsOut)
        then forall shared ::
          Enabled(s, LeaveBody(holder, shared)) && Enabled(After(s, LeaveBody(holder, shared)), Acquire(t))
        else Enabled(s, EnterBody(holder)) && Enabled(After(s, EnterBody(holder)), Acquire(t))
  {
    hide Catches, TotalQuiet;
    var s := states[i];
    if s.lock.Some? {
      HolderGoesOn(states, moves, i);
      AlwaysGood(states, moves, i);
      assert ThreadOk(s, s.lock.value) && ThreadOk(s, t);
    }
  }
}

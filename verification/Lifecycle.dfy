/**
 The generation-stamped registry of pending native operations (`src/lifecycle.rs`).

 `Life` is the registry as a value, and the functions on it say what one call does.
 Module `Registries` holds the same registry as objects updated in place.

 Two assumptions are built in. A poll is atomic with respect to the other calls, and a
 destructor may panic but does not call back into a live registry.
 */
module Lifecycle {
  import opened Wrappers

  type Text = string

  const U64_MAX: nat := 0xFFFF_FFFF_FFFF_FFFF
  const RETIRED := "operation scope belongs to a retired context"
  const EXHAUSTED := "execution generation exhausted"
  const NO_KEYS := "operation identity exhausted"

  /** A native future, known by what dropping it does: nothing, or a panic with a message. */
  datatype Future = Future(panic: Option<Text>)

  /** One registered owner. A future that panicked while being polled leaves `future` empty. */
  datatype Operation = Operation(name: Text, future: Option<Future>, stamp: nat)

  datatype Life = Life(
    generation: nat,
    active: bool,
    next: nat,
    retired: bool,
    owners: map<nat, Operation>,
    failure: Option<Text>)

  const Fresh := Life(0, false, 1, false, map[], None)

  /** What the native future does when it is polled. */
  datatype Outcome = Pending | Ready | Panics

  datatype Answer = StillPending | Finished | Cancelled | Unwound

  datatype Grant = Granted(key: nat) | Refused(reason: Text)

  // --- What one call does -------------------------------------------------------------

  function Message(name: Text, panic: Text): (m: Text) {
    "extension `" + name + "` lifecycle cleanup panicked: " + panic
  }

  /** Dropping `future` records the first destructor panic and keeps every earlier one. */
  function Note(failure: Option<Text>, name: Text, future: Option<Future>): (f: Option<Text>)
    ensures failure.Some? ==> f == failure
  {
    if failure.None? && future.Some? && future.value.panic.Some?
    then Some(Message(name, future.value.panic.value))
    else failure
  }

  predicate Explodes(op: Operation) {
    op.future.Some? && op.future.value.panic.Some?
  }

  ghost function Least(keys: set<nat>): (k: nat)
    requires keys != {}
    ensures k in keys && forall j :: j in keys ==> k <= j
  {
    LeastExists(keys);
    var k :| k in keys && forall j :: j in keys ==> k <= j;
    k
  }

  lemma LeastExists(keys: set<nat>)
    requires keys != {}
    ensures exists k :: k in keys && forall j :: j in keys ==> k <= j
  {
    var some :| some in keys;
    if keys != {some} {
      var rest := keys - {some};
      LeastExists(rest);
      var least :| least in rest && forall j :: j in rest ==> least <= j;
      var k := if some <= least then some else least;
      assert forall j :: j in keys ==> j == some || j in rest;
      assert k in keys && forall j :: j in keys ==> k <= j;
    }
  }

  ghost function Culprits(owners: map<nat, Operation>, doomed: set<nat>): (bad: set<nat>)
    ensures bad == {} <==> forall k :: k in doomed && k in owners ==> !Explodes(owners[k])
    ensures forall k :: k in bad <==> k in doomed && k in owners && Explodes(owners[k])
  {
    var bad := set k | k in doomed && k in owners && Explodes(owners[k]);
    assert forall k :: k in bad <==> k in doomed && k in owners && Explodes(owners[k]);
    bad
  }

  /** The failure left by dropping the futures of `doomed` in key order: the earliest blame stands. */
  ghost function Blame(failure: Option<Text>, owners: map<nat, Operation>, doomed: set<nat>): (f: Option<Text>)
    ensures failure.Some? ==> f == failure
    ensures f.None? <==> failure.None? && forall k :: k in doomed && k in owners ==> !Explodes(owners[k])
  {
    var bad := Culprits(owners, doomed);
    if failure.Some? || bad == {} then failure
    else
      var first := owners[Least(bad)];
      Note(None, first.name, first.future)
  }

  predicate Doomed(s: Life, all: bool, key: nat) {
    key in s.owners && (all || s.owners[key].stamp == s.generation)
  }

  ghost function DoomedKeys(s: Life, all: bool): set<nat> {
    set k | k in s.owners && Doomed(s, all, k)
  }

  ghost function Revoke(s: Life, all: bool): Life {
    var doomed := DoomedKeys(s, all);
    s.(owners := s.owners - doomed, failure := Blame(s.failure, s.owners, doomed))
  }

  ghost function Retire(s: Life): Life {
    Revoke(s.(retired := true), true)
  }

  function Answered(s: Life): Result<(), Text> {
    if s.failure.Some? then Err(s.failure.value) else Ok(())
  }

  function Dispose(s: Life, key: nat): Life
    requires key in s.owners
  {
    var op := s.owners[key];
    s.(owners := s.owners - {key}, failure := Note(s.failure, op.name, op.future))
  }

  /** The new registry and the key granted. A refused future is dropped, and only a future
      that reached an owner can leave its destructor's panic in the registry. */
  function Track(s: Life, name: Text, future: Future): (Life, Grant) {
    if s.retired then
      (s, Refused(if future.panic.None? then RETIRED
                  else RETIRED + "; " + Message(name, future.panic.value)))
    else if s.next < U64_MAX then
      (s.(next := s.next + 1, owners := s.owners[s.next := Operation(name, Some(future), 0)]), Granted(s.next))
    else
      (s.(failure := Note(s.failure, name, Some(future))), Refused(NO_KEYS))
  }

  function Poll(s: Life, key: nat, outcome: Outcome): (Life, Answer) {
    if key !in s.owners then (s, Cancelled)
    else if s.retired then (Dispose(s, key), Cancelled)
    else
      var op := s.owners[key].(stamp := s.generation);
      var stamped := s.(owners := s.owners[key := op]);
      if op.future.None? then (stamped, Cancelled)
      else match outcome
        case Pending => (stamped, StillPending)
        case Ready => (Dispose(stamped, key), Finished)
        case Panics => (s.(owners := s.owners[key := op.(future := None)]), Unwound)
  }

  function Drop(s: Life, key: nat): Life {
    if key in s.owners then Dispose(s, key) else s
  }

  function Begin(s: Life): (Life, Result<(), Text>) {
    if s.failure.Some? then (s, Err(s.failure.value))
    else if s.retired then (s, Err(RETIRED))
    else if s.generation >= U64_MAX then (s, Err(EXHAUSTED))
    else (s.(generation := s.generation + 1, active := true), Ok(()))
  }

  ghost function RetireIfFailed(s: Life): Life {
    if s.failure.Some? then Retire(s) else s
  }

  ghost function Finish(s: Life, failed: bool): Life {
    var idle := s.(active := false);
    RetireIfFailed(if s.active && failed then Revoke(idle, false) else idle)
  }

  ghost function Clear(s: Life): Life {
    RetireIfFailed(Revoke(s, true))
  }

  ghost function Close(s: Life): Life {
    Retire(s)
  }

  predicate Reusable(s: Life) {
    !s.active && !s.retired && s.generation < U64_MAX && s.failure.None?
  }

  // --- Whole runs ---------------------------------------------------------------------

  datatype Call =
    | CallTrack(name: Text, future: Future)
    | CallPoll(key: nat, outcome: Outcome)
    | CallDrop(key: nat)
    | CallBegin
    | CallFinish(failed: bool)
    | CallClear
    | CallClose

  ghost function Step(s: Life, call: Call): Life {
    match call
    case CallTrack(name, future) => Track(s, name, future).0
    case CallPoll(key, outcome) => Poll(s, key, outcome).0
    case CallDrop(key) => Drop(s, key)
    case CallBegin => Begin(s).0
    case CallFinish(failed) => Finish(s, failed)
    case CallClear => Clear(s)
    case CallClose => Close(s)
  }

  ghost function Run(calls: seq<Call>): Life {
    if calls == [] then Fresh else Step(Run(calls[..|calls| - 1]), calls[|calls| - 1])
  }

  /** The operations whose native future is still alive. */
  ghost function Alive(s: Life): set<nat> {
    set k | k in s.owners && s.owners[k].future.Some?
  }

  /** The native futures one call polls and destroys. */
  ghost predicate PollsInner(s: Life, call: Call, key: nat) {
    call.CallPoll? && call.key == key && key in Alive(s) && !s.retired
  }

  ghost function Destroys(s: Life, call: Call): set<nat> {
    Alive(s) - Alive(Step(s, call))
  }

  ghost predicate Inv(s: Life) {
    && 1 <= s.next <= U64_MAX && s.generation <= U64_MAX
    && (forall k :: k in s.owners ==> 0 < k < s.next && s.owners[k].stamp <= s.generation)
    && (s.retired ==> s.owners == map[])
    && (s.active ==> s.generation > 0)
  }

  lemma StepKeepsInv(s: Life, call: Call)
    requires Inv(s)
    ensures Inv(Step(s, call))
  {
  }

  lemma {:induction false} RunKeepsInv(calls: seq<Call>)
    ensures Inv(Run(calls))
  {
    if calls != [] {
      RunKeepsInv(calls[..|calls| - 1]);
      StepKeepsInv(Run(calls[..|calls| - 1]), calls[|calls| - 1]);
    }
  }

  /** Said by the history alone: `key` was polled after the latest `begin` that succeeded. */
  ghost predicate PolledSinceBegin(calls: seq<Call>, key: nat)
    decreases |calls|
  {
    calls != [] &&
    var before, call := calls[..|calls| - 1], calls[|calls| - 1];
    if call.CallBegin? && Begin(Run(before)).1.Ok? then false
    else (call.CallPoll? && call.key == key && key in Run(before).owners) || PolledSinceBegin(before, key)
  }

  ghost predicate EverBegan(calls: seq<Call>) {
    Run(calls).generation > 0
  }

  /** What one call does to the stamps: a begin that succeeds makes them all old, a poll makes one current, and no
      other call makes one current that was not. */
  lemma StepStamps(s: Life, call: Call, key: nat)
    requires Inv(s) && key in Step(s, call).owners
    ensures call.CallBegin? && Begin(s).1.Ok? ==>
      key in s.owners && Step(s, call).owners[key].stamp < Step(s, call).generation
    ensures !(call.CallBegin? && Begin(s).1.Ok?) ==> Step(s, call).generation == s.generation
    ensures !(call.CallBegin? && Begin(s).1.Ok?) && key in s.owners ==>
      (Step(s, call).owners[key].stamp == s.generation <==>
        s.owners[key].stamp == s.generation || (call.CallPoll? && call.key == key))
    ensures key !in s.owners ==> key >= s.next && Step(s, call).owners[key].stamp == 0
  {
    hide Blame;
  }

  /** A stamp equals the generation exactly when the history polled that operation since the latest begin. */
  lemma {:induction false} StampMeansPolledSinceBegin(calls: seq<Call>)
    ensures forall k :: k in Run(calls).owners && EverBegan(calls) ==>
      (Run(calls).owners[k].stamp == Run(calls).generation <==> PolledSinceBegin(calls, k))
    ensures forall k :: k >= Run(calls).next ==> !PolledSinceBegin(calls, k)
  {
    hide Step, Begin;
    if calls != [] {
      var before, call := calls[..|calls| - 1], calls[|calls| - 1];
      StampMeansPolledSinceBegin(before);
      RunKeepsInv(before);
      StepNext(Run(before), call);
      forall k | k in Run(calls).owners && EverBegan(calls)
        ensures Run(calls).owners[k].stamp == Run(calls).generation <==> PolledSinceBegin(calls, k)
      {
        StepStamps(Run(before), call, k);
      }
    }
  }

  lemma StepNext(s: Life, call: Call)
    ensures s.next <= Step(s, call).next
  {
  }

  /** What `finish(true)` is documented to revoke: the pending operations polled since the latest begin. */
  ghost function Touched(calls: seq<Call>): set<nat> {
    set k | k in Alive(Run(calls)) && PolledSinceBegin(calls, k)
  }

  ghost predicate Blameless(s: Life, keys: set<nat>) {
    s.failure.None? && forall k :: k in keys && k in s.owners ==> !Explodes(s.owners[k])
  }

  /** One state's half of `finish(true)`: what is doomed by its stamp, or everything once a destructor panics. */
  lemma FinishFailedByStamp(s: Life)
    requires s.active
    ensures var doomed := DoomedKeys(s, false) * Alive(s);
      if Blameless(s, doomed)
      then Alive(Finish(s, true)) == Alive(s) - doomed && Finish(s, true).retired == s.retired
      else Alive(Finish(s, true)) == {} && Finish(s, true).retired
  {
    var idle := s.(active := false);
    assert DoomedKeys(idle, false) == DoomedKeys(s, false);
    var doomed := DoomedKeys(s, false);
    var revoked := Revoke(idle, false);
    if Blameless(s, doomed * Alive(s)) {
      assert Finish(s, true) == revoked;
      assert Alive(revoked) == Alive(s) - doomed * Alive(s);
    } else {
      RetireLeavesNone(revoked);
    }
  }

  lemma RetireLeavesNone(s: Life)
    ensures Retire(s).owners == map[] && Alive(Retire(s)) == {} && Retire(s).retired
  {
    assert DoomedKeys(s.(retired := true), true) == s.owners.Keys;
  }

  /** `finish(true)` destroys the operations the failed execution touched, and exactly those unless a
      destructor has panicked, before or now; then it retires the context and destroys every operation. */
  lemma FinishFailedIsExact(calls: seq<Call>)
    requires Run(calls).active
    ensures var s := Run(calls);
      Destroys(s, CallFinish(true)) ==
        if Blameless(s, Touched(calls)) then Touched(calls) else Alive(s)
    ensures var s := Run(calls);
      Destroys(s, CallFinish(true)) == Touched(calls) <==>
        Blameless(s, Touched(calls)) || Alive(s) == Touched(calls)
    ensures var s := Run(calls);
      Finish(s, true).retired <==> s.retired || !Blameless(s, Touched(calls))
  {
    var s := Run(calls);
    StampMeansPolledSinceBegin(calls);
    RunKeepsInv(calls);
    assert Touched(calls) == DoomedKeys(s, false) * Alive(s);
    FinishFailedByStamp(s);
  }

  /** Any other `finish` revokes nothing, unless a destructor panic is already recorded. */
  lemma FinishWithoutBeginRevokesNothing(calls: seq<Call>, failed: bool)
    requires !failed || !Run(calls).active
    ensures var s := Run(calls);
      Destroys(s, CallFinish(failed)) == (if s.failure.None? then {} else Alive(s))
    ensures var s := Run(calls);
      Destroys(s, CallFinish(failed)) == {} <==> s.failure.None? || Alive(s) == {}
  {
    var s := Run(calls);
    if s.failure.Some? {
      assert Alive(Retire(s.(active := false))) == {};
    }
  }

  /** The exception is real: with no `begin` at all, a `finish(false)` destroys a bystander. */
  lemma FinishCanRevokeABystander()
    ensures exists calls ::
              && Run(calls).generation == 0 && !Run(calls).active
              && Destroys(Run(calls), CallFinish(false)) == {2}
  {
    var c0 := [CallTrack("a", Future(Some("boom")))];
    var c1 := c0 + [CallTrack("b", Future(None))];
    var c2 := c1 + [CallDrop(1)];
    assert c0[..0] == [] && c1[..1] == c0 && c2[..2] == c1;
    assert Run(c0) == Life(0, false, 2, false, map[1 := Operation("a", Some(Future(Some("boom"))), 0)], None);
    assert Run(c1).owners.Keys == {1, 2};
    assert Run(c2).owners.Keys == {2};
    FinishWithoutBeginRevokesNothing(c2, false);
    assert Alive(Run(c2)) == {2};
  }

  /** `clear` and `close` leave no registered operation, and destroy every live future. */
  lemma ClearAndCloseLeaveNone(s: Life)
    ensures Clear(s).owners == map[] && Destroys(s, CallClear) == Alive(s)
    ensures Close(s).owners == map[] && Destroys(s, CallClose) == Alive(s)
    ensures Clear(s).failure.None? <==> Blameless(s, s.owners.Keys)
    ensures Clear(s).retired <==> s.retired || !Blameless(s, s.owners.Keys)
    ensures Close(s).failure.None? <==> Blameless(s, s.owners.Keys)
  {
    assert DoomedKeys(s, true) == s.owners.Keys;
    assert DoomedKeys(s.(retired := true), true) == s.owners.Keys;
    RetireLeavesNone(Revoke(s, true));
    RetireLeavesNone(s);
  }

  // --- What a call answers ---------------------------------------------------------------

  /** Nothing but one operation and the record of failures is touched. */
  ghost predicate OnlyTouches(s: Life, t: Life, key: nat) {
    && t == s.(owners := t.owners, failure := t.failure)
    && t.owners.Keys - {key} == s.owners.Keys - {key}
    && forall k :: k in s.owners && k != key ==> k in t.owners && t.owners[k] == s.owners[k]
  }

  /** A live future answers as it is polled and everything else is cancelled. A poll destroys the future exactly when
      it ends or panics, a future that ended is unregistered, and dropping it can leave a failure. */
  lemma PollAnswers(s: Life, key: nat, outcome: Outcome)
    requires Inv(s)
    ensures var (t, answer) := Poll(s, key, outcome);
      && OnlyTouches(s, t, key)
      && Alive(t) == Alive(s) - (if outcome != Pending then {key} else {})
      && if key in Alive(s) then
           && answer == (match outcome case Pending => StillPending case Ready => Finished case Panics => Unwound)
           && (key in t.owners <==> outcome != Ready)
           && (outcome != Ready ==> t.failure == s.failure)
           && (outcome == Ready ==> t.failure == Note(s.failure, s.owners[key].name, s.owners[key].future))
         else answer == Cancelled && t.failure == s.failure && t.owners.Keys == s.owners.Keys
  {
  }

  /** The same over runs, where the registry of a retired context is empty. */
  lemma PollDestroysExactly(calls: seq<Call>, key: nat, outcome: Outcome)
    ensures var (s, call) := (Run(calls), CallPoll(key, outcome));
      && (PollsInner(s, call, key) <==> key in Alive(s))
      && (Poll(s, key, outcome).1 == Cancelled <==> key !in Alive(s))
      && Destroys(s, call) == if key in Alive(s) && outcome != Pending then {key} else {}
  {
    hide Poll;
    RunKeepsInv(calls);
    PollAnswers(Run(calls), key, outcome);
  }

  /** A future that was polled to its end is never polled again. */
  lemma ReadyIsOver(calls: seq<Call>, i: nat, j: nat, key: nat)
    requires i < j < |calls| && calls[i] == CallPoll(key, Ready) && key in Alive(Run(calls[..i]))
    ensures !PollsInner(Run(calls[..j]), calls[j], key)
  {
    hide Destroys, PollsInner;
    PollDestroysExactly(calls[..i], key, Ready);
    DestroyedForEver(calls, i, j, key);
  }

  /** A future is registered, alive and under the next key, unless the context is retired or out of keys; then it is
      dropped, and only in a context that is not retired does its panic stay on record. */
  lemma TrackRegisters(s: Life, name: Text, future: Future)
    requires Inv(s)
    ensures var (t, grant) := Track(s, name, future);
      && (grant.Granted? <==> !s.retired && s.next < U64_MAX)
      && OnlyTouches(s, t.(next := s.next), s.next)
      && if grant.Granted? then
           && grant.key == s.next && t.next == s.next + 1 && t.failure == s.failure
           && s.next in t.owners && t.owners[s.next].name == name && t.owners[s.next].future == Some(future)
           && Alive(t) == Alive(s) + {s.next}
         else
           && t.owners == s.owners && t.next == s.next
           && t.failure == (if s.retired then s.failure else Note(s.failure, name, Some(future)))
           && (RETIRED <= grant.reason <==> s.retired) && (grant.reason == NO_KEYS <==> !s.retired)
  {
    assert RETIRED[10] != NO_KEYS[10];
  }

  /** Dropping a handle unregisters its operation and destroys its future, if it is still there. */
  lemma DropDestroys(s: Life, key: nat)
    ensures var t := Drop(s, key);
      && OnlyTouches(s, t, key) && key !in t.owners && Alive(t) == Alive(s) - {key}
      && t.failure == if key in s.owners then Note(s.failure, s.owners[key].name, s.owners[key].future) else s.failure
  {
  }

  ghost predicate BeginsNow(calls: seq<Call>)
    requires calls != []
  {
    calls[|calls| - 1].CallBegin? && Begin(Run(calls[..|calls| - 1])).1.Ok?
  }

  /** How many calls of `begin` succeeded. */
  ghost function Beginnings(calls: seq<Call>): nat {
    if calls == [] then 0 else Beginnings(calls[..|calls| - 1]) + if BeginsNow(calls) then 1 else 0
  }

  /** No `finish` has come since the latest `begin` that succeeded. */
  ghost predicate Open(calls: seq<Call>)
    decreases |calls|
  {
    calls != [] && (BeginsNow(calls) || (!calls[|calls| - 1].CallFinish? && Open(calls[..|calls| - 1])))
  }

  /** The counter counts the successful calls of `begin`, and the context is active exactly while one is open. */
  lemma {:induction false} GenerationCounts(calls: seq<Call>)
    ensures Run(calls).generation == Beginnings(calls) && (Run(calls).active <==> Open(calls))
  {
    hide Step, Begin;
    if calls != [] {
      GenerationCounts(calls[..|calls| - 1]);
      StepCounts(Run(calls[..|calls| - 1]), calls[|calls| - 1]);
    }
  }

  lemma StepCounts(s: Life, call: Call)
    ensures var (t, begun) := (Step(s, call), call.CallBegin? && Begin(s).1.Ok?);
      && t.generation == s.generation + (if begun then 1 else 0)
      && (t.active <==> begun || (!call.CallFinish? && s.active))
  {
  }

  /** `begin` succeeds exactly when no destructor has panicked, the context is not retired and fewer than the largest
      count have succeeded before; a refusal changes nothing and says the first of these that fails. */
  lemma BeginAnswers(calls: seq<Call>)
    ensures var (s, r) := (Run(calls), Begin(Run(calls)).1);
      && (r.Ok? <==> s.failure.None? && !s.retired && Beginnings(calls) < U64_MAX)
      && (r.Err? ==> Begin(s).0 == s)
      && (r.Err? ==> r.error == if s.failure.Some? then s.failure.value else if s.retired then RETIRED else EXHAUSTED)
  {
    GenerationCounts(calls);
  }

  // --- Histories of one operation -----------------------------------------------------

  /** After a call destroys an operation's future, no later call polls or destroys it. */
  lemma {:induction false} DestroyedForEver(calls: seq<Call>, i: nat, j: nat, key: nat)
    requires i < j < |calls|
    requires key in Destroys(Run(calls[..i]), calls[i])
    ensures !PollsInner(Run(calls[..j]), calls[j], key)
    ensures key !in Destroys(Run(calls[..j]), calls[j])
  {
    assert calls[..i + 1][..i] == calls[..i];
    RunKeepsInv(calls[..i]);
    StepKeepsGone(Run(calls[..i]), calls[i], key);
    GoneStaysGone(calls, i + 1, j, key);
    RunKeepsInv(calls[..j]);
  }

  lemma StepKeepsGone(s: Life, call: Call, key: nat)
    requires key < s.next
    ensures key < Step(s, call).next
    ensures key !in Alive(s) ==> key !in Alive(Step(s, call))
  {
  }

  /** A key below `next` whose future is gone never comes back to life. */
  lemma {:induction false} GoneStaysGone(calls: seq<Call>, i: nat, j: nat, key: nat)
    requires i <= j <= |calls|
    requires key !in Alive(Run(calls[..i])) && key < Run(calls[..i]).next
    ensures key !in Alive(Run(calls[..j])) && key < Run(calls[..j]).next
  {
    if i < j {
      GoneStaysGone(calls, i, j - 1, key);
      assert calls[..j][..j - 1] == calls[..j - 1];
      StepKeepsGone(Run(calls[..j - 1]), calls[j - 1], key);
    }
  }

  /** Keys are granted in strictly increasing order over the whole run, across clears and failures. */
  lemma {:induction false} KeysAreNeverReused(calls: seq<Call>, i: nat, j: nat, k: nat, l: nat)
    requires i < j < |calls| && calls[i].CallTrack? && calls[j].CallTrack?
    requires Track(Run(calls[..i]), calls[i].name, calls[i].future).1 == Granted(k)
    requires Track(Run(calls[..j]), calls[j].name, calls[j].future).1 == Granted(l)
    ensures k < l
  {
    assert calls[..i + 1][..i] == calls[..i];
    NextOnlyGrows(calls, i + 1, j);
  }

  lemma {:induction false} NextOnlyGrows(calls: seq<Call>, i: nat, j: nat)
    requires i <= j <= |calls|
    ensures Run(calls[..i]).next <= Run(calls[..j]).next
  {
    hide Step;
    if i < j {
      NextOnlyGrows(calls, i, j - 1);
      StepNext(Run(calls[..j - 1]), calls[j - 1]);
      assert calls[..j][..j - 1] == calls[..j - 1];
    }
  }

  lemma StepKeepsFailure(s: Life, call: Call)
    requires s.failure.Some?
    ensures Step(s, call).failure == s.failure
  {
  }

  /** A destructor panic stays on record unchanged, and every later `begin` reports it. */
  lemma {:induction false} PanicIsSticky(calls: seq<Call>, i: nat, j: nat)
    requires i <= j <= |calls|
    requires Run(calls[..i]).failure.Some?
    ensures Run(calls[..j]).failure == Run(calls[..i]).failure
    ensures Begin(Run(calls[..j])) == (Run(calls[..j]), Err(Run(calls[..i]).failure.value))
  {
    if i < j {
      PanicIsSticky(calls, i, j - 1);
      assert calls[..j][..j - 1] == calls[..j - 1];
      StepKeepsFailure(Run(calls[..j - 1]), calls[j - 1]);
    }
  }

  /** Dropping the next future in key order adds its blame only if nobody is blamed yet. */
  lemma BlameNext(failure: Option<Text>, owners: map<nat, Operation>, done: set<nat>, key: nat)
    requires key in owners && forall k :: k in done ==> k < key
    ensures Blame(failure, owners, done + {key}) ==
      Note(Blame(failure, owners, done), owners[key].name, owners[key].future)
  {
    var bad, more := Culprits(owners, done), Culprits(owners, done + {key});
    assert more == bad + if Explodes(owners[key]) then {key} else {};
    if bad != {} {
      assert Least(more) == Least(bad);
    }
  }
}

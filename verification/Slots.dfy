/**
 A reusable invocation slot (`src/server.rs`): one registry serving one request at a time,
 handed back after each or retired.

 A request is played against a client that sees every answer and chooses the next event, so
 nothing restricts what a handler does with what it observes. Operations are named by the order
 in which the request tracked them, which is all that a request can know of their keys, and the
 handles it kept from earlier requests by how far back they were tracked.
 */
module Slots {
  import opened Wrappers
  import opened Lifecycle

  datatype Category = Preparation | Vm | Stopped | Cleanup

  datatype Failure = Failure(category: Category, message: Text)

  const ALREADY_RUN := Failure(Preparation, "invocation has already run")
  const CANCELLED_RUN := Failure(Stopped, "execution cancelled")
  const SLOT_FAILED := Failure(Cleanup, "slot lifecycle failed")

  datatype Stage = Waiting | Begun | Done

  /** One request on a slot. `guard` holds while a polled run future is alive. */
  datatype Invocation = Invocation(
    life: Life,
    stage: Stage,
    guard: bool,
    failure: Option<Failure>,
    cleanup: Option<Failure>)

  datatype Event =
    | Start
    | Return(failure: Option<Failure>)
    | Cancel
    | Leak
    | TrackOp(name: Text, future: Future)
    | PollOp(index: nat, outcome: Outcome)
    | DropOp(index: nat)
    | PollEarlier(back: nat, outcome: Outcome)
    | DropEarlier(back: nat)

  datatype Observation =
    | Nothing
    | RunEnded(failure: Option<Failure>)
    | Tracked
    | NotTracked(reason: Text)
    | Polled(answer: Answer)

  function Prepare(life: Life): Invocation {
    Invocation(life, Waiting, false, None, None)
  }

  // --- Run, its drop guard and close ----------------------------------------------------

  function Started(i: Invocation): (Invocation, Observation) {
    if i.stage != Waiting then (i, RunEnded(Some(ALREADY_RUN)))
    else
      var (life, begun) := Begin(i.life);
      match begun
      case Err(error) =>
        var failure := Some(Failure(Cleanup, error));
        (i.(stage := Done, cleanup := failure, failure := failure), RunEnded(failure))
      case Ok(_) => (i.(life := life, stage := Begun, guard := true), Nothing)
  }

  /** End the generation once, as a result or as a cancellation. */
  ghost function Ended(i: Invocation, failed: bool, otherwise: Option<Failure>): Invocation {
    var life := Finish(i.life, failed);
    var settled := i.(life := life, stage := Done, guard := false);
    match Answered(life)
    case Err(error) =>
      var failure := Some(Failure(Cleanup, error));
      settled.(failure := failure, cleanup := failure)
    case Ok(_) => settled.(failure := otherwise)
  }

  /** What one event does. The request's own operations have the keys from `base` on, those of earlier requests the
      keys below, and a handle from further back belongs to another registry, which is gone. */
  ghost function Act(i: Invocation, base: nat, event: Event): (Invocation, Observation) {
    match event
    case Start => if i.guard then (i, Nothing) else Started(i)
    case Return(failure) =>
      if !i.guard then (i, Nothing)
      else var ended := Ended(i, failure.Some?, failure); (ended, RunEnded(ended.failure))
    case Cancel =>
      if !i.guard then (i, Nothing) else (Ended(i, true, Some(CANCELLED_RUN)), Nothing)
    case Leak => (i.(guard := false), Nothing)
    case TrackOp(name, future) =>
      var (life, grant) := Track(i.life, name, future);
      (i.(life := life), if grant.Granted? then Tracked else NotTracked(grant.reason))
    case PollOp(index, outcome) =>
      var (life, answer) := Poll(i.life, base + index, outcome);
      (i.(life := life), Polled(answer))
    case DropOp(index) => (i.(life := Drop(i.life, base + index)), Nothing)
    case PollEarlier(back, outcome) =>
      if back >= base then (i, Polled(Cancelled))
      else var (life, answer) := Poll(i.life, base - 1 - back, outcome); (i.(life := life), Polled(answer))
    case DropEarlier(back) =>
      if back >= base then (i, Nothing) else (i.(life := Drop(i.life, base - 1 - back)), Nothing)
  }

  datatype Closing = HandedBack(life: Life, failure: Option<Failure>) | Retired(life: Life, cause: Failure)

  ghost function RetireUnlessHealthy(life: Life, failure: Option<Failure>): Closing {
    if Reusable(life) then HandedBack(life, failure)
    else
      var closed := Close(life);
      Retired(closed, if closed.failure.Some? then Failure(Cleanup, closed.failure.value) else SLOT_FAILED)
  }

  ghost function Closed(i: Invocation): Closing {
    var cleared := Clear(i.life);
    if i.cleanup.Some? then Retired(Close(cleared), i.cleanup.value)
    else if cleared.failure.Some? then Retired(Close(cleared), Failure(Cleanup, cleared.failure.value))
    else RetireUnlessHealthy(cleared, i.failure)
  }

  // --- One invocation --------------------------------------------------------------------

  ghost predicate Sound(i: Invocation) {
    && Inv(i.life)
    && (i.life.active <==> i.stage == Begun)
    && (i.guard ==> i.stage == Begun)
    && (i.life.retired ==> i.cleanup.Some?)
  }

  ghost predicate Idle(life: Life) {
    Inv(life) && Reusable(life) && life.owners == map[]
  }

  lemma EndedKeepsSound(i: Invocation, failed: bool, otherwise: Option<Failure>)
    requires Sound(i)
    ensures Sound(Ended(i, failed, otherwise))
    ensures Ended(i, failed, otherwise).life.next == i.life.next
    ensures Ended(i, failed, otherwise).life.generation == i.life.generation
    ensures Ended(i, failed, otherwise).stage == Done
  {
    StepKeepsInv(i.life, CallFinish(failed));
  }

  predicate OnOperation(event: Event) {
    !(event.Start? || event.Return? || event.Cancel? || event.Leak?)
  }

  /** A call on an operation leaves the generation and the registry's own state alone. */
  ghost predicate Beside(a: Life, b: Life) {
    Inv(b) && b.active == a.active && b.retired == a.retired && b.generation == a.generation && b.next >= a.next
  }

  lemma TrackIsBeside(a: Life, name: Text, future: Future)
    requires Inv(a)
    ensures Beside(a, Track(a, name, future).0)
  {
    StepKeepsInv(a, CallTrack(name, future));
  }

  lemma PollIsBeside(a: Life, key: nat, outcome: Outcome)
    requires Inv(a)
    ensures Beside(a, Poll(a, key, outcome).0)
  {
    StepKeepsInv(a, CallPoll(key, outcome));
  }

  lemma DropIsBeside(a: Life, key: nat)
    requires Inv(a)
    ensures Beside(a, Drop(a, key))
  {
    StepKeepsInv(a, CallDrop(key));
  }

  lemma OperationKeepsSound(i: Invocation, base: nat, event: Event)
    requires Sound(i) && OnOperation(event)
    ensures var j := Act(i, base, event).0; Sound(j) && j == i.(life := j.life) && Beside(i.life, j.life)
  {
    hide Started, Ended, Track, Poll, Drop, Inv;
    match event
    case TrackOp(name, future) => TrackIsBeside(i.life, name, future);
    case PollOp(index, outcome) => PollIsBeside(i.life, base + index, outcome);
    case DropOp(index) => DropIsBeside(i.life, base + index);
    case PollEarlier(back, outcome) => if back < base { PollIsBeside(i.life, base - 1 - back, outcome); }
    case DropEarlier(back) => if back < base { DropIsBeside(i.life, base - 1 - back); }
  }

  /** Every event keeps an invocation sound: its generation is open exactly while its stage is `Begun`. */
  lemma ActKeepsSound(i: Invocation, base: nat, event: Event)
    requires Sound(i)
    ensures Sound(Act(i, base, event).0)
    ensures Act(i, base, event).0.life.next >= i.life.next
    ensures Act(i, base, event).0.life.generation <= i.life.generation + (if i.stage == Waiting then 1 else 0)
    ensures Act(i, base, event).0.stage == Waiting ==>
      i.stage == Waiting && Act(i, base, event).0.life.generation == i.life.generation
  {
    hide Ended, Track, Poll, Drop;
    match event
    case Start => StepKeepsInv(i.life, CallBegin);
    case Return(failure) => EndedKeepsSound(i, failure.Some?, failure);
    case Cancel => EndedKeepsSound(i, true, Some(CANCELLED_RUN));
    case Leak =>
    case _ => OperationKeepsSound(i, base, event);
  }

  /** No operation of an earlier request is registered. */
  ghost predicate Own(life: Life, base: nat) {
    base <= life.next && forall k :: k in life.owners ==> base <= k
  }

  lemma ActKeepsOwn(i: Invocation, base: nat, event: Event)
    requires Own(i.life, base)
    ensures Own(Act(i, base, event).0.life, base)
  {
    hide Blame;
  }

  lemma EarlierIsCancelled(i: Invocation, base: nat, event: Event)
    requires Own(i.life, base) && (event.PollEarlier? || event.DropEarlier?)
    ensures Act(i, base, event) == (i, if event.PollEarlier? then Polled(Cancelled) else Nothing)
  {
  }

  /** `close` hands the slot back exactly when nothing failed to clean up, no run future was leaked and a
      generation is left; what it hands back is reusable and holds no operation. Otherwise it retires it. */
  lemma CloseHandsBackExactly(i: Invocation)
    requires Sound(i) && !i.guard
    ensures Closed(i).HandedBack? <==>
      && i.cleanup.None?
      && i.stage != Begun
      && Blameless(i.life, i.life.owners.Keys)
      && i.life.generation < U64_MAX
    ensures Closed(i).HandedBack? ==> Idle(Closed(i).life) && Closed(i).failure == i.failure
    ensures Closed(i).HandedBack? ==>
      Closed(i).life.next == i.life.next && Closed(i).life.generation == i.life.generation
    ensures Closed(i).Retired? ==> Closed(i).life.retired && Closed(i).life.owners == map[]
    ensures var cleared := Clear(i.life).failure;
      Closed(i).Retired? ==>
        Closed(i).cause == (if i.cleanup.Some? then i.cleanup.value
                            else if cleared.Some? then Failure(Cleanup, cleared.value) else SLOT_FAILED)
  {
    ClearAndCloseLeaveNone(i.life);
    ClearAndCloseLeaveNone(Clear(i.life));
    StepKeepsInv(i.life, CallClear);
  }

  // --- What an event answers -----------------------------------------------------------------

  /** No destructor has panicked before, and none does when a run that failed is ended. */
  ghost predicate CleansUp(life: Life, failed: bool) {
    Blameless(life, if failed then DoomedKeys(life, false) else {})
  }

  /** A run has ended with `outcome`: a cleanup failure replaces it and is remembered, and otherwise it stands. */
  ghost predicate EndedWith(i: Invocation, j: Invocation, failed: bool, outcome: Option<Failure>) {
    && j.stage == Done && !j.guard && j.life == Finish(i.life, failed)
    && (j.life.failure.None? <==> CleansUp(i.life, failed))
    && if j.life.failure.None? then j.failure == outcome && j.cleanup == i.cleanup
       else j.failure == Some(Failure(Cleanup, j.life.failure.value)) && j.cleanup == j.failure
  }

  /** A handler that returns reports its own result, unless cleaning up failed; then it reports that. */
  lemma ReturnAnswers(i: Invocation, base: nat, result: Option<Failure>)
    requires Sound(i) && i.guard
    ensures var (j, o) := Act(i, base, Return(result));
      EndedWith(i, j, result.Some?, result) && o == RunEnded(j.failure)
  {
    EndIsExact(i.life, result.Some?);
  }

  /** A run future that is dropped leaves a cancellation, unless cleaning up failed; then it leaves that. */
  lemma CancelAnswers(i: Invocation, base: nat)
    requires Sound(i) && i.guard
    ensures var (j, o) := Act(i, base, Cancel); EndedWith(i, j, true, Some(CANCELLED_RUN)) && o == Nothing
  {
    EndIsExact(i.life, true);
  }

  lemma EndIsExact(life: Life, failed: bool)
    requires life.active
    ensures Finish(life, failed).failure.None? <==> CleansUp(life, failed)
  {
    assert DoomedKeys(life.(active := false), false) == DoomedKeys(life, false);
  }

  /** The first poll of a run begins a generation or ends the run with the reason why it cannot, which is remembered; a
      second run is refused and changes nothing. */
  lemma StartAnswers(i: Invocation, base: nat)
    requires Sound(i) && !i.guard
    ensures var ((j, o), (life, begun)) := (Act(i, base, Start), Begin(i.life));
      if i.stage != Waiting then j == i && o == RunEnded(Some(ALREADY_RUN))
      else if begun.Ok? then
        && j == i.(life := j.life, stage := Begun, guard := true) && o == Nothing
        && j.life == i.life.(generation := i.life.generation + 1, active := true)
      else
        && j == i.(stage := Done, failure := j.failure, cleanup := j.failure) && o == RunEnded(j.failure)
        && j.failure == Some(Failure(Cleanup, begun.error))
  {
  }

  /** An operation that is granted is the request's next, and its future is alive. */
  lemma TrackAnswers(i: Invocation, base: nat, name: Text, future: Future)
    requires Sound(i) && base <= i.life.next
    ensures var (j, o) := Act(i, base, TrackOp(name, future));
      && j == i.(life := j.life)
      && (o == Tracked <==> !i.life.retired && i.life.next < U64_MAX)
      && if o == Tracked then
           && j.life.next == i.life.next + 1
           && Alive(j.life) == Alive(i.life) + {base + (i.life.next - base)}
           && j.life.owners[i.life.next].name == name && j.life.owners[i.life.next].future == Some(future)
         else o.NotTracked? && j.life.owners == i.life.owners && j.life.next == i.life.next
  {
    hide Track;
    TrackRegisters(i.life, name, future);
  }

  /** A poll reaches the operation of that place in the request, and answers and destroys what that poll does. */
  lemma PollOpAnswers(i: Invocation, base: nat, index: nat, outcome: Outcome)
    requires Sound(i)
    ensures var ((j, o), key) := (Act(i, base, PollOp(index, outcome)), base + index);
      && j == i.(life := j.life) && OnlyTouches(i.life, j.life, key)
      && o == Polled(if key !in Alive(i.life) then Cancelled
                     else match outcome case Pending => StillPending case Ready => Finished case Panics => Unwound)
      && Alive(j.life) == Alive(i.life) - (if outcome != Pending then {key} else {})
  {
    hide Poll;
    PollAnswers(i.life, base + index, outcome);
  }

  /** Dropping a handle destroys the operation of that place in the request and no other. */
  lemma DropOpAnswers(i: Invocation, base: nat, index: nat)
    ensures var ((j, o), key) := (Act(i, base, DropOp(index)), base + index);
      && j == i.(life := j.life) && OnlyTouches(i.life, j.life, key) && o == Nothing
      && key !in j.life.owners && Alive(j.life) == Alive(i.life) - {key}
  {
    hide Drop;
    DropDestroys(i.life, base + index);
  }

  // --- Two owners that differ only in their counters -------------------------------------

  function Up(key: nat, shift: nat): nat { key + shift }

  ghost function Moved(keys: set<nat>, shift: nat): (moved: set<nat>)
    ensures forall k :: k in keys ==> Up(k, shift) in moved
  {
    set k | k in keys :: Up(k, shift)
  }

  lemma SameMoved(keys: set<nat>, other: set<nat>, shift: nat)
    requires forall k :: k in keys ==> Up(k, shift) in other
    requires forall m :: m in other ==> exists k :: k in keys && m == Up(k, shift)
    ensures other == Moved(keys, shift)
  {
  }

  ghost predicate SameOperation(x: Operation, y: Operation) {
    x.name == y.name && x.future == y.future
  }

  ghost predicate SameStamp(a: Life, b: Life, key: nat, shift: nat)
    requires key in a.owners && Up(key, shift) in b.owners
  {
    a.owners[key].stamp == a.generation <==> b.owners[Up(key, shift)].stamp == b.generation
  }

  ghost predicate SameOwners(a: map<nat, Operation>, b: map<nat, Operation>, shift: nat) {
    && b.Keys == Moved(a.Keys, shift)
    && forall k :: k in a ==> SameOperation(a[k], b[Up(k, shift)])
  }

  /** `b` is `a` with every key moved up by `shift` and with its own generation counter. */
  ghost predicate Alike(a: Life, b: Life, shift: nat) {
    && a.active == b.active && a.retired == b.retired && a.failure == b.failure
    && b.next == a.next + shift
    && SameOwners(a.owners, b.owners, shift)
    && (a.active ==> forall k :: k in a.owners ==> SameStamp(a, b, k, shift))
  }

  lemma LeastMoved(keys: set<nat>, shift: nat)
    requires keys != {}
    ensures Moved(keys, shift) != {} && Least(Moved(keys, shift)) == Up(Least(keys), shift)
  {
    assert Up(Least(keys), shift) in Moved(keys, shift);
  }

  /** The same destructor is blamed on both sides. */
  lemma SameBlame(failure: Option<Text>, a: map<nat, Operation>, b: map<nat, Operation>, shift: nat, doomed: set<nat>)
    requires SameOwners(a, b, shift)
    ensures Blame(failure, a, doomed) == Blame(failure, b, Moved(doomed, shift))
  {
    var bad, worse := Culprits(a, doomed), Culprits(b, Moved(doomed, shift));
    forall m | m in worse ensures exists k :: k in bad && m == Up(k, shift) {
      var k :| k in a && m == Up(k, shift);
      assert SameOperation(a[k], b[m]);
    }
    forall k | k in bad ensures Up(k, shift) in worse {
      assert SameOperation(a[k], b[Up(k, shift)]);
    }
    SameMoved(bad, worse, shift);
    if bad != {} { LeastMoved(bad, shift); }
  }

  lemma SameOwnersWithout(a: map<nat, Operation>, b: map<nat, Operation>, shift: nat, gone: set<nat>)
    requires SameOwners(a, b, shift)
    ensures SameOwners(a - gone, b - Moved(gone, shift), shift)
  {
    SameMoved((a - gone).Keys, (b - Moved(gone, shift)).Keys, shift);
  }

  lemma RevokeAlike(a: Life, b: Life, shift: nat, all: bool)
    requires Alike(a, b, shift)
    requires all || forall k :: k in a.owners ==> SameStamp(a, b, k, shift)
    ensures Alike(Revoke(a, all), Revoke(b, all), shift)
  {
    var doomed, moved := DoomedKeys(a, all), DoomedKeys(b, all);
    forall m | m in moved ensures exists k :: k in doomed && m == Up(k, shift) {
      var k :| k in a.owners && m == Up(k, shift);
      assert all || SameStamp(a, b, k, shift);
    }
    forall k | k in doomed ensures Up(k, shift) in moved {
      assert all || SameStamp(a, b, k, shift);
    }
    SameMoved(doomed, moved, shift);
    SameBlame(a.failure, a.owners, b.owners, shift, doomed);
    SameOwnersWithout(a.owners, b.owners, shift, doomed);
    var x, y := Revoke(a, all), Revoke(b, all);
    forall k | k in x.owners && a.active ensures SameStamp(x, y, k, shift) {
      assert SameStamp(a, b, k, shift);
    }
  }

  lemma RetireAlike(a: Life, b: Life, shift: nat)
    requires Alike(a, b, shift)
    ensures Alike(RetireIfFailed(a), RetireIfFailed(b), shift)
    ensures Alike(Retire(a), Retire(b), shift)
  {
    var x, y := a.(retired := true), b.(retired := true);
    forall k | k in x.owners && a.active ensures SameStamp(x, y, k, shift) {
      assert SameStamp(a, b, k, shift);
    }
    RevokeAlike(x, y, shift, true);
  }

  lemma FinishAlike(a: Life, b: Life, shift: nat, failed: bool)
    requires Alike(a, b, shift)
    ensures Alike(Finish(a, failed), Finish(b, failed), shift)
  {
    var x, y := a.(active := false), b.(active := false);
    if a.active && failed {
      forall k | k in x.owners ensures SameStamp(x, y, k, shift) {
        assert SameStamp(a, b, k, shift);
      }
      RevokeAlike(x, y, shift, false);
      RetireAlike(Revoke(x, false), Revoke(y, false), shift);
    } else {
      RetireAlike(x, y, shift);
    }
  }

  lemma BeginAlike(a: Life, b: Life, shift: nat)
    requires Alike(a, b, shift) && Inv(a) && Inv(b)
    requires a.generation < U64_MAX && b.generation < U64_MAX
    ensures Alike(Begin(a).0, Begin(b).0, shift) && Begin(a).1 == Begin(b).1
  {
    var x, y := Begin(a).0, Begin(b).0;
    if Begin(a).1.Ok? {
      forall k | k in x.owners ensures SameStamp(x, y, k, shift) {
        assert a.owners[k].stamp <= a.generation && b.owners[Up(k, shift)].stamp <= b.generation;
      }
    }
  }

  lemma TrackAlike(a: Life, b: Life, shift: nat, name: Text, future: Future)
    requires Alike(a, b, shift) && Inv(a) && Inv(b)
    requires a.retired || (a.next < U64_MAX <==> b.next < U64_MAX)
    ensures Alike(Track(a, name, future).0, Track(b, name, future).0, shift)
    ensures Track(a, name, future).1.Granted? <==> Track(b, name, future).1.Granted?
    ensures Track(a, name, future).1.Refused? ==> Track(a, name, future).1 == Track(b, name, future).1
  {
    var x, y := Track(a, name, future).0, Track(b, name, future).0;
    if Track(a, name, future).1.Granted? {
      assert b.next == Up(a.next, shift);
      SameMoved(x.owners.Keys, y.owners.Keys, shift);
      forall k | k in x.owners && a.active ensures SameStamp(x, y, k, shift) {
        if k != a.next { assert SameStamp(a, b, k, shift); }
      }
    }
  }

  lemma DisposeAlike(a: Life, b: Life, shift: nat, key: nat)
    requires Alike(a, b, shift) && key in a.owners
    ensures Alike(Dispose(a, key), Dispose(b, Up(key, shift)), shift)
  {
    var x, y := Dispose(a, key), Dispose(b, Up(key, shift));
    SameMoved(x.owners.Keys, y.owners.Keys, shift);
    forall k | k in x.owners && a.active ensures SameStamp(x, y, k, shift) {
      assert SameStamp(a, b, k, shift);
    }
  }

  lemma DropAlike(a: Life, b: Life, shift: nat, key: nat)
    requires Alike(a, b, shift)
    ensures Alike(Drop(a, key), Drop(b, Up(key, shift)), shift)
  {
    if key in a.owners { DisposeAlike(a, b, shift, key); }
  }

  lemma SameOwnersWith(a: map<nat, Operation>, b: map<nat, Operation>, shift: nat, key: nat, x: Operation, y: Operation)
    requires SameOwners(a, b, shift) && key in a && SameOperation(x, y)
    ensures SameOwners(a[key := x], b[Up(key, shift) := y], shift)
  {
    SameMoved(a[key := x].Keys, b[Up(key, shift) := y].Keys, shift);
  }

  /** Rewriting one operation on both sides, with this generation's stamp, keeps two owners alike. */
  lemma StampAlike(a: Life, b: Life, shift: nat, key: nat, future: Option<Future>)
    requires Alike(a, b, shift) && key in a.owners
    ensures Alike(a.(owners := a.owners[key := Operation(a.owners[key].name, future, a.generation)]),
                  b.(owners := b.owners[Up(key, shift) := Operation(a.owners[key].name, future, b.generation)]),
                  shift)
  {
    var x := a.(owners := a.owners[key := Operation(a.owners[key].name, future, a.generation)]);
    var y := b.(owners := b.owners[Up(key, shift) := Operation(a.owners[key].name, future, b.generation)]);
    SameOwnersWith(a.owners, b.owners, shift, key, x.owners[key], y.owners[Up(key, shift)]);
    forall k | k in x.owners && a.active ensures SameStamp(x, y, k, shift) {
      if k != key { assert SameStamp(a, b, k, shift); }
    }
  }

  lemma PollAlike(a: Life, b: Life, shift: nat, key: nat, outcome: Outcome)
    requires Alike(a, b, shift)
    ensures Alike(Poll(a, key, outcome).0, Poll(b, Up(key, shift), outcome).0, shift)
    ensures Poll(a, key, outcome).1 == Poll(b, Up(key, shift), outcome).1
  {
    if key in a.owners {
      var (x, y) := (a.owners[key], b.owners[Up(key, shift)]);
      assert SameOperation(x, y);
      if a.retired {
        DisposeAlike(a, b, shift, key);
      } else if x.future.None? || outcome == Pending {
        StampAlike(a, b, shift, key, x.future);
      } else if outcome == Ready {
        StampAlike(a, b, shift, key, x.future);
        DisposeAlike(a.(owners := a.owners[key := x.(stamp := a.generation)]),
                  b.(owners := b.owners[Up(key, shift) := y.(stamp := b.generation)]), shift, key);
      } else {
        StampAlike(a, b, shift, key, None);
      }
    }
  }

  lemma ClearAlike(a: Life, b: Life, shift: nat)
    requires Alike(a, b, shift)
    ensures Alike(Clear(a), Clear(b), shift)
  {
    RevokeAlike(a, b, shift, true);
    RetireAlike(Revoke(a, true), Revoke(b, true), shift);
  }

  // --- Two invocations that differ only in their owners' counters --------------------------

  ghost predicate SameButLife(i: Invocation, j: Invocation) {
    i.stage == j.stage && i.guard == j.guard && i.failure == j.failure && i.cleanup == j.cleanup
  }

  /** `j` is `i` on a slot whose counters have moved on. */
  ghost predicate Twin(i: Invocation, j: Invocation, shift: nat) {
    && Sound(i) && Sound(j)
    && Alike(i.life, j.life, shift)
    && SameButLife(i, j)
  }

  lemma StartTwin(i: Invocation, j: Invocation, shift: nat)
    requires Twin(i, j, shift)
    requires i.stage == Waiting ==> i.life.generation < U64_MAX && j.life.generation < U64_MAX
    ensures Alike(Started(i).0.life, Started(j).0.life, shift)
    ensures Started(i).1 == Started(j).1
    ensures SameButLife(Started(i).0, Started(j).0)
  {
    if i.stage == Waiting { BeginAlike(i.life, j.life, shift); }
  }

  lemma EndTwin(i: Invocation, j: Invocation, shift: nat, failed: bool, otherwise: Option<Failure>)
    requires Twin(i, j, shift)
    ensures Alike(Ended(i, failed, otherwise).life, Ended(j, failed, otherwise).life, shift)
    ensures SameButLife(Ended(i, failed, otherwise), Ended(j, failed, otherwise))
  {
    FinishAlike(i.life, j.life, shift, failed);
  }

  ghost predicate NeedsKey(i: Invocation, event: Event) {
    event.TrackOp? && !i.life.retired
  }

  lemma OwnAlike(a: Life, b: Life, shift: nat, base: nat)
    requires Alike(a, b, shift) && Own(a, base)
    ensures Own(b, base + shift)
  {
  }

  lemma EarlierAlike(i: Invocation, j: Invocation, shift: nat, base: nat, event: Event)
    requires Twin(i, j, shift) && Own(i.life, base) && (event.PollEarlier? || event.DropEarlier?)
    ensures Act(i, base, event).0 == i && Act(j, base + shift, event).0 == j
    ensures Act(i, base, event).1 == Act(j, base + shift, event).1
  {
    hide Act, Alike, Own;
    OwnAlike(i.life, j.life, shift, base);
    EarlierIsCancelled(i, base, event);
    EarlierIsCancelled(j, base + shift, event);
  }

  lemma OperationAlike(i: Invocation, j: Invocation, shift: nat, base: nat, event: Event)
    requires Twin(i, j, shift) && (event.TrackOp? || event.PollOp? || event.DropOp?)
    requires NeedsKey(i, event) ==> (i.life.next < U64_MAX <==> j.life.next < U64_MAX)
    ensures Alike(Act(i, base, event).0.life, Act(j, base + shift, event).0.life, shift)
    ensures SameButLife(Act(i, base, event).0, Act(j, base + shift, event).0)
    ensures Act(i, base, event).1 == Act(j, base + shift, event).1
  {
    hide Inv, Alike, Track, Poll, Drop;
    match event
    case TrackOp(name, future) => TrackAlike(i.life, j.life, shift, name, future);
    case PollOp(index, outcome) =>
      PollAlike(i.life, j.life, shift, base + index, outcome);
      assert Up(base + index, shift) == base + shift + index;
    case DropOp(index) =>
      assert Up(base + index, shift) == base + shift + index;
      DropAlike(i.life, j.life, shift, base + index);
  }

  lemma ActAlike(i: Invocation, j: Invocation, shift: nat, base: nat, event: Event)
    requires Twin(i, j, shift) && Own(i.life, base)
    requires NeedsKey(i, event) ==> (i.life.next < U64_MAX <==> j.life.next < U64_MAX)
    requires i.stage == Waiting ==> i.life.generation < U64_MAX && j.life.generation < U64_MAX
    ensures Alike(Act(i, base, event).0.life, Act(j, base + shift, event).0.life, shift)
    ensures SameButLife(Act(i, base, event).0, Act(j, base + shift, event).0)
    ensures Act(i, base, event).1 == Act(j, base + shift, event).1
  {
    hide Alike, Inv, Started, Ended, Own;
    match event
    case Start => StartTwin(i, j, shift);
    case Return(failure) => EndTwin(i, j, shift, failure.Some?, failure);
    case Cancel => EndTwin(i, j, shift, true, Some(CANCELLED_RUN));
    case Leak =>
    case PollEarlier(_, _) => EarlierAlike(i, j, shift, base, event);
    case DropEarlier(_) => EarlierAlike(i, j, shift, base, event);
    case _ => OperationAlike(i, j, shift, base, event);
  }

  lemma ActTwin(i: Invocation, j: Invocation, shift: nat, base: nat, event: Event)
    requires Twin(i, j, shift) && Own(i.life, base)
    requires NeedsKey(i, event) ==> (i.life.next < U64_MAX <==> j.life.next < U64_MAX)
    requires i.stage == Waiting ==> i.life.generation < U64_MAX && j.life.generation < U64_MAX
    ensures Twin(Act(i, base, event).0, Act(j, base + shift, event).0, shift)
    ensures Act(i, base, event).1 == Act(j, base + shift, event).1
  {
    hide Act, Sound, Alike;
    ActKeepsSound(i, base, event);
    ActKeepsSound(j, base + shift, event);
    ActAlike(i, j, shift, base, event);
  }

  lemma ClosedTwin(i: Invocation, j: Invocation, shift: nat)
    requires Twin(i, j, shift) && !i.guard
    requires i.life.generation < U64_MAX && j.life.generation < U64_MAX
    ensures Closed(i).HandedBack? == Closed(j).HandedBack?
    ensures Closed(i).HandedBack? ==> Closed(i).failure == Closed(j).failure
    ensures Closed(i).Retired? ==> Closed(i).cause == Closed(j).cause
  {
    ClearAlike(i.life, j.life, shift);
    RetireAlike(Clear(i.life), Clear(j.life), shift);
  }

  lemma TrackingTakesAKey(i: Invocation, base: nat, event: Event)
    ensures NeedsKey(i, event) && i.life.next < U64_MAX ==> Act(i, base, event).0.life.next == i.life.next + 1
  {
  }

  lemma KeysRunOut(i: Invocation, j: Invocation, base: nat, shift: nat, event: Event)
    requires NeedsKey(i, event) && NeedsKey(j, event) && i.life.next < U64_MAX && j.life.next == U64_MAX
    ensures Act(i, base, event).1 == Tracked && Act(j, base + shift, event).1.NotTracked?
  {
  }

  lemma AlikeCounts(a: Life, b: Life, shift: nat)
    requires Alike(a, b, shift)
    ensures b.next == a.next + shift && a.retired == b.retired
  {
  }

  // --- Requests ---------------------------------------------------------------------------

  /** A client decides each event from everything it has seen, for a number of events of its choosing. */
  datatype Request = Request(client: seq<Observation> -> Event, events: nat, closes: bool)

  datatype Ending = Completed(failure: Option<Failure>) | Lost(cause: Failure) | Abandoned

  datatype Report = Report(seen: seq<Observation>, ending: Ending)

  ghost function Play(i: Invocation, base: nat, client: seq<Observation> -> Event, seen: seq<Observation>, n: nat)
    : (Invocation, seq<Observation>)
    decreases n
  {
    if n == 0 then (i, seen)
    else var (j, o) := Act(i, base, client(seen)); Play(j, base, client, seen + [o], n - 1)
  }

  /** A request holding a live run future drops it before it closes or abandons the invocation. */
  ghost function Settled(i: Invocation): Invocation {
    if i.guard then Ended(i, true, Some(CANCELLED_RUN)) else i
  }

  ghost function Ends(i: Invocation, closes: bool): (Ending, Option<Life>) {
    if !closes then (Abandoned, None)
    else match Closed(Settled(i))
      case HandedBack(life, failure) => (Completed(failure), Some(life))
      case Retired(_, cause) => (Lost(cause), None)
  }

  /** What a request reports, and the slot's owner if the slot is handed back. */
  ghost function Serve(life: Life, request: Request): (Report, Option<Life>) {
    var (i, seen) := Play(Prepare(life), life.next, request.client, [], request.events);
    var (ending, back) := Ends(i, request.closes);
    (Report(seen, ending), back)
  }

  /** How many operations the request is granted on a fresh owner. */
  ghost function Grants(request: Request): int {
    Play(Prepare(Fresh), Fresh.next, request.client, [], request.events).0.life.next - Fresh.next
  }

  lemma {:induction false} PlayKeepsSound(i: Invocation, base: nat, client: seq<Observation> -> Event,
                                          seen: seq<Observation>, n: nat)
    requires Sound(i)
    ensures var j := Play(i, base, client, seen, n).0;
      && Sound(j) && j.life.next >= i.life.next
      && j.life.generation <= i.life.generation + (if i.stage == Waiting then 1 else 0)
      && (j.stage == Waiting ==> i.stage == Waiting && j.life.generation == i.life.generation)
    ensures seen <= Play(i, base, client, seen, n).1
    decreases n
  {
    if n > 0 {
      ActKeepsSound(i, base, client(seen));
      var (j, o) := Act(i, base, client(seen));
      PlayKeepsSound(j, base, client, seen + [o], n - 1);
      assert seen <= seen + [o];
    }
  }

  /** As long as keys last, a twin shows its client the same observations. */
  lemma {:induction false} PlayTwin(i: Invocation, j: Invocation, shift: nat, base: nat,
                                    client: seq<Observation> -> Event, seen: seq<Observation>, n: nat)
    requires Twin(i, j, shift) && Own(i.life, base)
    requires i.stage == Waiting ==> i.life.generation < U64_MAX && j.life.generation < U64_MAX
    requires Play(i, base, client, seen, n).0.life.next + shift <= U64_MAX
    ensures Twin(Play(i, base, client, seen, n).0, Play(j, base + shift, client, seen, n).0, shift)
    ensures Play(i, base, client, seen, n).1 == Play(j, base + shift, client, seen, n).1
    decreases n
  {
    hide Act, Alike, Own;
    AlikeCounts(i.life, j.life, shift);
    if n > 0 {
      var event := client(seen);
      var (x, o) := Act(i, base, event);
      ActKeepsSound(i, base, event);
      PlayKeepsSound(x, base, client, seen + [o], n - 1);
      ActKeepsSound(j, base + shift, event);
      TrackingTakesAKey(i, base, event);
      ActKeepsOwn(i, base, event);
      ActTwin(i, j, shift, base, event);
      PlayTwin(x, Act(j, base + shift, event).0, shift, base, client, seen + [o], n - 1);
    }
  }

  /** The same requests end the same way, as long as a generation is left to begin another. */
  lemma EndsTwin(i: Invocation, j: Invocation, shift: nat, closes: bool)
    requires Twin(i, j, shift)
    requires i.life.generation < U64_MAX && j.life.generation < U64_MAX
    ensures Ends(i, closes).0 == Ends(j, closes).0
    ensures Ends(i, closes).1.Some? <==> Ends(j, closes).1.Some?
  {
    ActTwin(i, j, shift, 0, Cancel);
    ActKeepsSound(i, 0, Cancel);
    ActKeepsSound(j, 0, Cancel);
    ClosedTwin(Settled(i), Settled(j), shift);
  }

  lemma {:induction false} PlayKeepsOwn(i: Invocation, base: nat, client: seq<Observation> -> Event,
                                        seen: seq<Observation>, n: nat)
    requires Own(i.life, base)
    ensures Own(Play(i, base, client, seen, n).0.life, base)
    decreases n
  {
    hide Act, Own;
    if n > 0 {
      ActKeepsOwn(i, base, client(seen));
      var (j, o) := Act(i, base, client(seen));
      PlayKeepsOwn(j, base, client, seen + [o], n - 1);
    }
  }

  /** Whatever a request on a handed-back slot has done so far, a handle kept from an earlier request is cancelled when
      it is polled, and neither polling nor dropping it changes anything. */
  lemma EarlierHandlesAreCancelled(life: Life, client: seq<Observation> -> Event, n: nat, event: Event)
    requires Idle(life) && (event.PollEarlier? || event.DropEarlier?)
    ensures var i := Play(Prepare(life), life.next, client, [], n).0;
      Act(i, life.next, event) == (i, if event.PollEarlier? then Polled(Cancelled) else Nothing)
  {
    hide Act;
    PlayKeepsOwn(Prepare(life), life.next, client, [], n);
    EarlierIsCancelled(Play(Prepare(life), life.next, client, [], n).0, life.next, event);
  }

  // --- What a request is told in the end ---------------------------------------------------------

  /** What became of a request's run, told by its events alone. */
  datatype Story = NeverRun | Running | Left | Over(failure: Option<Failure>)

  function Next(story: Story, event: Event): Story {
    match (story, event)
    case (NeverRun, Start) => Running
    case (Running, Return(result)) => Over(result)
    case (Running, Cancel) => Over(Some(CANCELLED_RUN))
    case (Running, Leak) => Left
    case _ => story
  }

  ghost function Told(client: seq<Observation> -> Event, seen: seq<Observation>): Story {
    if seen == [] then NeverRun
    else var before := seen[..|seen| - 1]; Next(Told(client, before), client(before))
  }

  /** As long as no cleanup has failed, the invocation stands where its events have brought it. */
  ghost predicate Matches(i: Invocation, story: Story) {
    i.cleanup.None? ==>
      match story
      case NeverRun => i.stage == Waiting && i.failure.None?
      case Running => i.stage == Begun && i.guard
      case Left => i.stage == Begun && !i.guard
      case Over(failure) => i.stage == Done && i.failure == failure
  }

  lemma ActMatches(i: Invocation, base: nat, event: Event, story: Story)
    requires Sound(i) && Matches(i, story)
    ensures Matches(Act(i, base, event).0, Next(story, event))
  {
    hide Ended, Finish, Track, Poll, Drop, Begin;
    match event
    case Start => if !i.guard { StartAnswers(i, base); }
    case Return(result) => if i.guard { ReturnAnswers(i, base, result); }
    case Cancel => if i.guard { CancelAnswers(i, base); }
    case Leak =>
    case _ => OperationKeepsSound(i, base, event);
  }

  lemma {:induction false} PlayMatches(i: Invocation, base: nat, client: seq<Observation> -> Event,
                                       seen: seq<Observation>, n: nat)
    requires Sound(i) && Matches(i, Told(client, seen))
    ensures var (j, all) := Play(i, base, client, seen, n); Matches(j, Told(client, all))
    decreases n
  {
    hide Act, Matches, Next;
    if n > 0 {
      var (j, o) := Act(i, base, client(seen));
      ActKeepsSound(i, base, client(seen));
      ActMatches(i, base, client(seen), Told(client, seen));
      assert (seen + [o])[..|seen + [o]| - 1] == seen;
      PlayMatches(j, base, client, seen + [o], n - 1);
    }
  }

  /** What `close` hands back with the slot is what became of the run: nothing if there was none, the handler's own
      result if it returned, and a cancellation if its future was dropped, before or by the end. */
  lemma CompletedTells(life: Life, request: Request)
    requires Idle(life) && Serve(life, request).0.ending.Completed?
    ensures var report := Serve(life, request).0;
      var story := Told(request.client, report.seen);
      && story != Left
      && report.ending.failure ==
        (match story case NeverRun => None case Over(failure) => failure case _ => Some(CANCELLED_RUN))
  {
    hide Act, Told;
    var (i, seen) := Play(Prepare(life), life.next, request.client, [], request.events);
    PlayKeepsSound(Prepare(life), life.next, request.client, [], request.events);
    NothingTold(request.client);
    PlayMatches(Prepare(life), life.next, request.client, [], request.events);
    SettledEnds(i);
    ActKeepsSound(i, 0, Cancel);
    CloseHandsBackExactly(Settled(i));
  }

  lemma NothingTold(client: seq<Observation> -> Event)
    ensures Told(client, []) == NeverRun
  {
  }

  lemma SettledEnds(i: Invocation)
    requires Sound(i)
    ensures Settled(i) == Act(i, 0, Cancel).0 && Sound(Settled(i)) && !Settled(i).guard
    ensures i.guard ==> EndedWith(i, Settled(i), true, Some(CANCELLED_RUN))
  {
    hide Ended, Finish;
    ActKeepsSound(i, 0, Cancel);
    if i.guard { CancelAnswers(i, 0); }
  }

  /** A request ends with the slot handed back exactly when it closes, no run future was left behind, no cleanup
      failed and a generation is left. A request that loses the slot is told the first cleanup failure, or that the
      lifecycle failed when there was none. */
  lemma CompletedExactly(life: Life, request: Request)
    requires Idle(life)
    ensures var (i, seen) := Play(Prepare(life), life.next, request.client, [], request.events);
      var j := Settled(i);
      && Serve(life, request).0.seen == seen
      && (Serve(life, request).0.ending.Completed? <==>
           && request.closes && Told(request.client, seen) != Left && j.cleanup.None?
           && Blameless(j.life, j.life.owners.Keys) && j.life.generation < U64_MAX)
      && (Serve(life, request).0.ending.Abandoned? <==> !request.closes)
      && (Serve(life, request).0.ending.Completed? <==> Serve(life, request).1.Some?)
    ensures var j := Settled(Play(Prepare(life), life.next, request.client, [], request.events).0);
      var cleared := Clear(j.life).failure;
      Serve(life, request).0.ending.Lost? ==>
        Serve(life, request).0.ending.cause == (if j.cleanup.Some? then j.cleanup.value
                                                else if cleared.Some? then Failure(Cleanup, cleared.value)
                                                else SLOT_FAILED)
  {
    hide Act, Told, Ended, Finish;
    var (i, seen) := Play(Prepare(life), life.next, request.client, [], request.events);
    PlayKeepsSound(Prepare(life), life.next, request.client, [], request.events);
    NothingTold(request.client);
    PlayMatches(Prepare(life), life.next, request.client, [], request.events);
    SettledEnds(i);
    CloseHandsBackExactly(Settled(i));
  }

  /** What a slot hands back is idle: reusable, and with no operation of the request that used it. */
  lemma ServedSlotIsIdle(life: Life, request: Request)
    requires Idle(life) && Serve(life, request).1.Some?
    ensures Idle(Serve(life, request).1.value)
    ensures Serve(life, request).1.value.generation <= life.generation + 1
    ensures Serve(life, request).1.value.next ==
      Play(Prepare(life), life.next, request.client, [], request.events).0.life.next
  {
    PlayKeepsSound(Prepare(life), life.next, request.client, [], request.events);
    var i := Play(Prepare(life), life.next, request.client, [], request.events).0;
    ActKeepsSound(i, 0, Cancel);
    CloseHandsBackExactly(Settled(i));
  }

  lemma PrepareTwin(life: Life)
    requires Idle(life)
    ensures Twin(Prepare(Fresh), Prepare(life), life.next - Fresh.next)
  {
    SameMoved({}, {}, life.next - Fresh.next);
  }

  /** A request on a handed-back slot reports exactly what it reports on a fresh owner, as long as the keys
      and generations it needs are left, and leaves the slot reusable in exactly the same cases. */
  lemma ReuseIsFresh(life: Life, request: Request)
    requires Idle(life) && life.generation + 1 < U64_MAX
    requires life.next + Grants(request) <= U64_MAX
    ensures Serve(life, request).0 == Serve(Fresh, request).0
    ensures Serve(life, request).1.Some? <==> Serve(Fresh, request).1.Some?
    ensures Serve(life, request).1.Some? ==> Serve(life, request).1.value.next == life.next + Grants(request)
  {
    var shift := life.next - Fresh.next;
    PrepareTwin(life);
    PlayTwin(Prepare(Fresh), Prepare(life), shift, Fresh.next, request.client, [], request.events);
    PlayKeepsSound(Prepare(Fresh), Fresh.next, request.client, [], request.events);
    PlayKeepsSound(Prepare(life), life.next, request.client, [], request.events);
    EndsTwin(Play(Prepare(Fresh), Fresh.next, request.client, [], request.events).0,
             Play(Prepare(life), life.next, request.client, [], request.events).0, shift, request.closes);
    if Serve(life, request).1.Some? { ServedSlotIsIdle(life, request); }
  }

  /** Once the keys run out, the client is told so: what it sees differs from a fresh owner. */
  lemma {:induction false} ExhaustionShows(i: Invocation, j: Invocation, shift: nat, base: nat,
                                           client: seq<Observation> -> Event, seen: seq<Observation>, n: nat)
    requires Twin(i, j, shift) && Own(i.life, base) && j.life.next <= U64_MAX
    requires i.stage == Waiting ==> i.life.generation < U64_MAX && j.life.generation < U64_MAX
    requires Play(i, base, client, seen, n).0.life.next + shift > U64_MAX
    ensures Play(i, base, client, seen, n).1 != Play(j, base + shift, client, seen, n).1
    decreases n
  {
    hide Act, Alike, Own;
    var event := client(seen);
    ActKeepsSound(i, base, event);
    ActKeepsSound(j, base + shift, event);
    var ((x, o), (y, p)) := (Act(i, base, event), Act(j, base + shift, event));
    AlikeCounts(i.life, j.life, shift);
    if NeedsKey(i, event) && i.life.next < U64_MAX && j.life.next == U64_MAX {
      KeysRunOut(i, j, base, shift, event);
      PlayKeepsSound(x, base, client, seen + [o], n - 1);
      PlayKeepsSound(y, base + shift, client, seen + [p], n - 1);
      assert Play(i, base, client, seen, n).1[|seen|] == o;
      assert Play(j, base + shift, client, seen, n).1[|seen|] == p;
    } else {
      ActKeepsOwn(i, base, event);
      ActTwin(i, j, shift, base, event);
      ExhaustionShows(x, y, shift, base, client, seen + [o], n - 1);
    }
  }

  lemma OperationSpendsNothing(i: Invocation, base: nat, event: Event)
    requires OnOperation(event)
    ensures Act(i, base, event).0.life.generation == i.life.generation
  {
  }

  /** Both sides spend the same generations. */
  lemma ActSpends(i: Invocation, j: Invocation, shift: nat, base: nat, event: Event)
    requires Twin(i, j, shift)
    requires i.stage == Waiting ==> i.life.generation < U64_MAX && j.life.generation < U64_MAX
    ensures Act(j, base + shift, event).0.life.generation - j.life.generation
         == Act(i, base, event).0.life.generation - i.life.generation
  {
    hide Alike, Inv;
    AlikeFails(i.life, j.life, shift);
    if OnOperation(event) {
      OperationSpendsNothing(i, base, event);
      OperationSpendsNothing(j, base + shift, event);
    }
  }

  lemma AlikeFails(a: Life, b: Life, shift: nat)
    requires Alike(a, b, shift)
    ensures a.failure == b.failure && a.retired == b.retired && a.active == b.active
  {
  }

  lemma {:induction false} PlaySpends(i: Invocation, j: Invocation, shift: nat, base: nat,
                                      client: seq<Observation> -> Event, seen: seq<Observation>, n: nat)
    requires Twin(i, j, shift) && Own(i.life, base)
    requires i.stage == Waiting ==> i.life.generation < U64_MAX && j.life.generation < U64_MAX
    requires Play(i, base, client, seen, n).0.life.next + shift <= U64_MAX
    ensures Play(j, base + shift, client, seen, n).0.life.generation - j.life.generation
         == Play(i, base, client, seen, n).0.life.generation - i.life.generation
    decreases n
  {
    hide Act, Alike, Own;
    AlikeCounts(i.life, j.life, shift);
    if n > 0 {
      var event := client(seen);
      var (x, o) := Act(i, base, event);
      ActKeepsSound(i, base, event);
      PlayKeepsSound(x, base, client, seen + [o], n - 1);
      ActKeepsSound(j, base + shift, event);
      TrackingTakesAKey(i, base, event);
      ActKeepsOwn(i, base, event);
      ActTwin(i, j, shift, base, event);
      ActSpends(i, j, shift, base, event);
      PlaySpends(x, Act(j, base + shift, event).0, shift, base, client, seen + [o], n - 1);
    }
  }

  /** How many generations the request begins on a fresh owner. */
  ghost function Begins(request: Request): nat {
    Play(Prepare(Fresh), Fresh.next, request.client, [], request.events).0.life.generation
  }

  /** With no generation left to begin, `close` loses exactly the slots it would have handed back. */
  lemma SpentTwin(i: Invocation, j: Invocation, shift: nat)
    requires Twin(i, j, shift) && !i.guard
    requires i.life.generation < U64_MAX && j.life.generation == U64_MAX
    ensures Closed(j).Retired?
    ensures Closed(i).Retired? ==> Closed(j).cause == Closed(i).cause
  {
    ClearAlike(i.life, j.life, shift);
    RetireAlike(Clear(i.life), Clear(j.life), shift);
  }

  lemma EndsSpent(i: Invocation, j: Invocation, shift: nat, closes: bool)
    requires Twin(i, j, shift) && i.life.generation < U64_MAX && j.life.generation == U64_MAX && j.stage != Waiting
    ensures Ends(i, closes).0 == Ends(j, closes).0 <==> !closes || Ends(i, closes).0.Lost?
  {
    ActTwin(i, j, shift, 0, Cancel);
    EndedKeepsSound(i, true, Some(CANCELLED_RUN));
    EndedKeepsSound(j, true, Some(CANCELLED_RUN));
    SpentTwin(Settled(i), Settled(j), shift);
  }

  /** A request on any idle slot reports what it reports on a fresh owner if and only if the slot has the keys it
      needs and, unless the request never closes or loses a fresh owner too, a generation left after it. `healthy`
      looks at no key, and only at the generation before the request. */
  lemma ReuseIsFreshExactly(life: Life, request: Request)
    requires Idle(life)
    ensures Serve(life, request).0 == Serve(Fresh, request).0 <==>
      && life.next + Grants(request) <= U64_MAX
      && (life.generation + Begins(request) < U64_MAX || !request.closes || Serve(Fresh, request).0.ending.Lost?)
  {
    hide Alike, Ends, Act;
    var shift := life.next - Fresh.next;
    PrepareTwin(life);
    PlayKeepsSound(Prepare(Fresh), Fresh.next, request.client, [], request.events);
    PlayKeepsSound(Prepare(life), life.next, request.client, [], request.events);
    if life.next + Grants(request) <= U64_MAX {
      var (i, j) := (Play(Prepare(Fresh), Fresh.next, request.client, [], request.events).0,
                     Play(Prepare(life), life.next, request.client, [], request.events).0);
      PlayTwin(Prepare(Fresh), Prepare(life), shift, Fresh.next, request.client, [], request.events);
      PlaySpends(Prepare(Fresh), Prepare(life), shift, Fresh.next, request.client, [], request.events);
      if j.life.generation < U64_MAX {
        EndsTwin(i, j, shift, request.closes);
      } else {
        EndsSpent(i, j, shift, request.closes);
      }
    } else {
      ExhaustionShows(Prepare(Fresh), Prepare(life), shift, Fresh.next, request.client, [], request.events);
    }
  }

  // --- Both counters can run out --------------------------------------------------------------

  function AlwaysTrack(seen: seq<Observation>): Event { TrackOp("a", Future(None)) }

  /** A request that tracks a number of operations and closes. */
  function Tracking(n: nat): Request { Request(AlwaysTrack, n, true) }

  ghost predicate Plain(life: Life) {
    && !life.active && !life.retired && life.failure.None? && Inv(life)
    && forall k :: k in life.owners ==> !Explodes(life.owners[k])
  }

  lemma {:induction false} TracksThemAll(i: Invocation, base: nat, seen: seq<Observation>, n: nat)
    requires Plain(i.life) && i.life.next + n <= U64_MAX
    ensures var j := Play(i, base, AlwaysTrack, seen, n).0;
      && Plain(j.life) && j.life.next == i.life.next + n && j.life.generation == i.life.generation
      && j == i.(life := j.life)
    decreases n
  {
    if n > 0 {
      var (j, o) := Act(i, base, AlwaysTrack(seen));
      TracksThemAll(j, base, seen + [o], n - 1);
    }
  }

  /** A slot whose first request was granted every key there is is handed back, and its next request is refused an
      operation that a fresh owner would grant. */
  lemma KeysCanRunOut()
    ensures var back := Serve(Fresh, Tracking(U64_MAX - 1)).1;
      && back.Some? && Idle(back.value) && back.value.next == U64_MAX
      && Serve(back.value, Tracking(1)).0 != Serve(Fresh, Tracking(1)).0
  {
    hide Act, Closed;
    TracksThemAll(Prepare(Fresh), Fresh.next, [], U64_MAX - 1);
    TracksThemAll(Prepare(Fresh), Fresh.next, [], 1);
    var i := Play(Prepare(Fresh), Fresh.next, AlwaysTrack, [], U64_MAX - 1).0;
    CloseHandsBackExactly(i);
    ReuseIsFreshExactly(Closed(i).life, Tracking(1));
  }

  function StartThenReturn(seen: seq<Observation>): Event { if seen == [] then Start else Return(None) }

  /** A request that runs its handler and closes. */
  const PLAIN_RUN := Request(StartThenReturn, 2, true)

  function Aged(generation: nat): Life { Fresh.(generation := generation) }

  lemma RunAges(g: nat)
    requires g < U64_MAX
    ensures Serve(Aged(g), PLAIN_RUN) ==
      (Report([Nothing, RunEnded(None)], if g + 1 < U64_MAX then Completed(None) else Lost(SLOT_FAILED)),
       if g + 1 < U64_MAX then Some(Aged(g + 1)) else None)
  {
    var i := Prepare(Aged(g));
    var (j, o) := Act(i, 1, Start);
    var (k, p) := Act(j, 1, Return(None));
    assert Play(j, 1, StartThenReturn, [] + [o], 1) == Play(k, 1, StartThenReturn, [] + [o] + [p], 0);
    assert [] + [o] + [p] == [Nothing, RunEnded(None)];
    assert k == Invocation(Aged(g + 1), Done, false, None, None);
    assert Clear(Aged(g + 1)) == Aged(g + 1);
  }

  /** The owner left after requests served one after another, if the slot was always handed back. */
  ghost function Kept(life: Life, requests: seq<Request>): Option<Life>
    decreases |requests|
  {
    if requests == [] then Some(life)
    else
      var back := Serve(life, requests[0]).1;
      if back.None? then None else Kept(back.value, requests[1..])
  }

  function Runs(n: nat): seq<Request> { seq(n, _ => PLAIN_RUN) }

  lemma {:induction false} RunsAge(g: nat, n: nat)
    requires g + n < U64_MAX
    ensures Kept(Aged(g), Runs(n)) == Some(Aged(g + n))
    decreases n
  {
    hide Serve;
    if n > 0 {
      RunAges(g);
      RunsAge(g + 1, n - 1);
      assert Runs(n)[1..] == Runs(n - 1);
    }
  }

  /** A slot that has served enough requests is handed back once more and then loses a request that a fresh owner
      completes, with every key still to spare. */
  lemma GenerationsCanRunOut()
    ensures var back := Kept(Fresh, Runs(U64_MAX - 1));
      && back == Some(Aged(U64_MAX - 1)) && Idle(back.value) && back.value.next == 1
      && Serve(back.value, PLAIN_RUN).0.ending == Lost(SLOT_FAILED)
      && Serve(Fresh, PLAIN_RUN).0.ending == Completed(None)
  {
    hide Serve;
    RunsAge(0, U64_MAX - 1);
    RunAges(U64_MAX - 1);
    RunAges(0);
  }

  // --- A slot's whole life -----------------------------------------------------------------

  /** Requests served one after another on one slot, until it is retired. */
  ghost function ServeAll(life: Life, requests: seq<Request>): seq<Report>
    decreases |requests|
  {
    if requests == [] then []
    else
      var (report, back) := Serve(life, requests[0]);
      [report] + if back.Some? then ServeAll(back.value, requests[1..]) else []
  }

  /** The same requests, each on an owner of its own. */
  ghost function ServeEachFresh(requests: seq<Request>): seq<Report> {
    if requests == [] then []
    else
      var (report, back) := Serve(Fresh, requests[0]);
      [report] + if back.Some? then ServeEachFresh(requests[1..]) else []
  }

  ghost function AllGrants(requests: seq<Request>): int {
    if requests == [] then 0 else Grants(requests[0]) + AllGrants(requests[1..])
  }

  lemma {:induction false} GrantsAreCounted(requests: seq<Request>)
    ensures 0 <= AllGrants(requests)
  {
    if requests != [] {
      PlayKeepsSound(Prepare(Fresh), Fresh.next, requests[0].client, [], requests[0].events);
      GrantsAreCounted(requests[1..]);
    }
  }

  /** Requests do not see each other: a whole sequence served on one slot reports what each request
      reports on an owner of its own, up to the request that retires the slot. */
  lemma {:induction false} SlotIsolatesRequests(life: Life, requests: seq<Request>)
    requires Idle(life)
    requires life.generation + |requests| < U64_MAX
    requires life.next + AllGrants(requests) <= U64_MAX
    ensures ServeAll(life, requests) == ServeEachFresh(requests)
    decreases |requests|
  {
    if requests != [] {
      GrantsAreCounted(requests[1..]);
      ReuseIsFresh(life, requests[0]);
      var back := Serve(life, requests[0]).1;
      if back.Some? {
        ServedSlotIsIdle(life, requests[0]);
        SlotIsolatesRequests(back.value, requests[1..]);
      }
    }
  }
}

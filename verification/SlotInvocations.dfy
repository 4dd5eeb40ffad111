/**
 A slot invocation as an object updated in place (`src/server.rs`): run, its drop guard, `close`
 and drop each move it to the value that `Slots` gives.
 */
module SlotInvocations {
  import opened Wrappers
  import opened Lifecycle
  import opened Registries
  import opened Slots
  import Spec = Slots

  /** One less than the largest 64-bit count. */
  const LARGEST_BUDGET: nat := U64_MAX - 1

  /** A cleanup failure on record, or else what was to be remembered. */
  function CleanupOr(recorded: Option<Text>, otherwise: Option<Failure>): Option<Failure> {
    if recorded.Some? then Some(Failure(Cleanup, recorded.value)) else otherwise
  }

  class SlotInvocation {
    /** The slot's registry, taken by `close`. */
    var slot: Option<Registry>
    var stage: Stage
    var failure: Option<Failure>
    var cleanup: Option<Failure>
    /** A polled run future is alive and will finish the generation. */
    ghost var guard: bool

    ghost predicate Valid()
      reads this
      reads if slot.Some? then {slot.value} else {}
      reads if slot.Some? then slot.value.handles else {}
    {
      slot.Some? && slot.value.Valid()
    }

    ghost function Value(): Invocation
      requires Valid()
      reads this
      reads if slot.Some? then {slot.value} else {}
      reads if slot.Some? then slot.value.handles else {}
    {
      Invocation(slot.value.Value(), stage, guard, failure, cleanup)
    }

    constructor (registry: Registry)
      requires registry.Valid()
      ensures Valid() && slot == Some(registry) && Value() == Spec.Prepare(registry.Value())
    {
      slot, stage, failure, cleanup, guard := Some(registry), Waiting, None, None, false;
    }

    /** The first poll of a run future, up to the point where the handler executes. */
    method Start() returns (o: Observation)
      requires Valid() && !guard
      modifies this`stage, this`failure, this`cleanup, this`guard, slot.value
      ensures Valid() && slot == old(slot) && (Value(), o) == Spec.Started(old(Value()))
    {
      if stage != Waiting {
        return RunEnded(Some(ALREADY_RUN));
      }
      var begun := slot.value.Begin();
      match begun
      case Err(error) =>
        stage := Done;
        var because := Some(Failure(Cleanup, error));
        cleanup, failure := because, because;
        return RunEnded(because);
      case Ok(_) =>
        stage, guard := Begun, true;
        return Nothing;
    }

    /** End the generation once: a cleanup failure replaces any other outcome. */
    method End(failed: bool, otherwise: Option<Failure>)
      requires Valid() && guard
      modifies this, slot.value, slot.value.handles
      ensures Valid() && slot == old(slot) && Value() == Spec.Ended(old(Value()), failed, otherwise)
      ensures failure == CleanupOr(slot.value.failure, otherwise)
    {
      hide Lifecycle.Finish, Registry.Value, Registry.Valid;
      stage, guard := Done, false;
      var finished := slot.value.Finish(failed);
      failure := otherwise;
      if finished.Err? {
        failure := Some(Failure(Cleanup, finished.error));
        cleanup := failure;
      }
    }

    /** The guard ends the generation with the handler's result. */
    method Finish(result: Option<Failure>) returns (o: Observation)
      requires Valid() && guard
      modifies this, slot.value, slot.value.handles
      ensures Valid() && slot == old(slot) && Value() == Spec.Ended(old(Value()), result.Some?, result)
      ensures o == RunEnded(CleanupOr(slot.value.failure, result)) && failure == CleanupOr(slot.value.failure, result)
    {
      hide Spec.Ended;
      End(result.Some?, result);
      o := RunEnded(failure);
    }

    /** The guard is dropped with the run future before the handler returned. */
    method DropGuard()
      requires Valid() && guard
      modifies this, slot.value, slot.value.handles
      ensures Valid() && slot == old(slot) && Value() == Spec.Ended(old(Value()), true, Some(CANCELLED_RUN))
      ensures failure == CleanupOr(slot.value.failure, Some(CANCELLED_RUN))
    {
      hide Spec.Ended;
      End(true, Some(CANCELLED_RUN));
    }

    /** End the request: the registry comes back, or is retired with the reason. */
    method Close() returns (back: Option<Registry>, why: Option<Failure>)
      requires Valid() && !guard
      modifies this, slot.value, slot.value.handles
      ensures slot.None? && old(slot.value).Valid()
      ensures Spec.Closed(old(Value())).life == old(slot.value).Value()
      ensures match Spec.Closed(old(Value()))
              case HandedBack(_, failed) => back == old(slot) && why == failed
              case Retired(_, cause) => back.None? && why == Some(cause)
    {
      var registry := slot.value;
      slot := None;
      var cleared := registry.Clear();
      if cleanup.Some? || cleared.Err? {
        why := if cleanup.Some? then cleanup else Some(Failure(Cleanup, cleared.error));
        var _ := registry.Close();
        return None, why;
      }
      if !registry.active && !registry.retired && registry.generation < U64_MAX && registry.failure.None? {
        return Some(registry), failure;
      }
      var closed := registry.Close();
      match closed
      case Err(error) => return None, Some(Failure(Cleanup, error));
      case Ok(_) => return None, Some(SLOT_FAILED);
    }

    /** Dropped without `close`: the slot is retired and never comes back. */
    method Abandon()
      requires Valid() && !guard
      modifies this, slot.value, slot.value.handles
      ensures slot.None? && old(slot.value).Valid()
      ensures old(slot.value).Value() == Lifecycle.Close(old(slot.value.Value()))
      ensures old(slot.value).retired && old(slot.value).owners == map[]
    {
      var registry := slot.value;
      slot := None;
      RetireLeavesNone(registry.Value());
      var _ := registry.Close();
      assert registry.Operations() == map[];
      assert registry.owners.Keys == registry.Operations().Keys;
    }
  }

  /** `prepare` refuses a budget out of range, and then hands the slot back only if it is healthy. */
  method Prepare(registry: Registry, budget: nat)
    returns (invocation: Option<SlotInvocation>, back: Option<Registry>, why: Option<Failure>)
    requires registry.Valid()
    modifies registry, registry.handles
    ensures registry.Valid()
    ensures invocation.Some? <==> 1 <= budget <= LARGEST_BUDGET
    ensures invocation.Some? ==>
      && fresh(invocation.value) && invocation.value.slot == Some(registry) && invocation.value.Valid()
      && invocation.value.Value() == Spec.Prepare(old(registry.Value())) && back.None? && why.None?
    ensures invocation.None? ==>
      && back == (if Reusable(old(registry.Value())) then Some(registry) else None)
      && why.Some? && (back.None? ==> registry.Value() == Lifecycle.Close(old(registry.Value())))
      && why.value.category == (if back.Some? then Preparation else Cleanup)
  {
    if budget == 0 || budget > LARGEST_BUDGET {
      if !registry.active && !registry.retired && registry.generation < U64_MAX && registry.failure.None? {
        return None, Some(registry), Some(Failure(Preparation, "budget must be 1 to 18446744073709551614"));
      }
      var closed := registry.Close();
      return None, None, Some(if closed.Err? then Failure(Cleanup, closed.error) else SLOT_FAILED);
    }
    var i := new SlotInvocation(registry);
    return Some(i), None, None;
  }
}

/**
 The operation registry as objects updated in place (`src/lifecycle.rs`): each method moves
 the registry to the value that the function of the same name in `Lifecycle` gives.
 */
module Registries {
  import opened Wrappers
  import opened Lifecycle
  import Spec = Lifecycle

  /** One tracked operation's owner; a caller's handle and the registry share it. */
  class Owner {
    const key: nat
    const name: Text
    var future: Option<Future>
    var stamp: nat

    constructor (key: nat, name: Text, future: Future)
      ensures this.key == key && this.name == name && this.future == Some(future) && stamp == 0
    {
      this.key := key;
      this.name := name;
      this.future := Some(future);
      this.stamp := 0;
    }

    ghost function Value(): Operation reads this { Operation(name, future, stamp) }
  }

  /** Keys are visited in ascending order: those no longer `left` are below all that are. */
  ghost predicate Passed(keys: set<nat>, left: set<nat>) {
    forall k, l :: k in keys - left && l in left ==> k < l
  }

  lemma PassedNext(keys: set<nat>, left: set<nat>, key: nat)
    requires Passed(keys, left) && key in left && forall l :: l in left ==> key <= l
    ensures Passed(keys, left - {key})
  {
    assert keys - (left - {key}) <= keys - left + {key};
  }

  /** The context's state: counters, the registered owners, and the first cleanup failure. */
  class Registry {
    var generation: nat
    var active: bool
    var next: nat
    var retired: bool
    var owners: map<nat, Owner>
    var failure: Option<Text>
    /** Every owner this registry has handed out and that a caller may still hold. */
    ghost var handles: set<Owner>

    ghost predicate Valid()
      reads this, handles
    {
      && (forall k :: k in owners ==> owners[k] in handles && owners[k].key == k)
      && (forall h :: h in handles ==> h.key < next)
      && (forall h :: h in handles ==> Registered(h) || h.future.None?)
    }

    ghost predicate Registered(h: Owner)
      reads this
    {
      h.key in owners && owners[h.key] == h
    }

    ghost function Operations(): map<nat, Operation>
      reads this`owners, owners.Values
    {
      map k | k in owners :: owners[k].Value()
    }

    ghost function Value(): Life
      reads this, owners.Values
    {
      Life(generation, active, next, retired, Operations(), failure)
    }

    constructor ()
      ensures Valid() && Value() == Fresh && handles == {}
    {
      generation, active, next, retired, owners, failure := 0, false, 1, false, map[], None;
      handles := {};
    }

    method Track(name: Text, future: Future) returns (owner: Option<Owner>, grant: Grant)
      requires Valid()
      modifies this
      ensures Valid() && (Value(), grant) == Spec.Track(old(Value()), name, future)
      ensures owner.Some? <==> grant.Granted?
      ensures owner.Some? ==> fresh(owner.value) && owner.value.key == grant.key
      ensures handles == old(handles) + (if owner.Some? then {owner.value} else {})
    {
      owner := None;
      if retired {
        grant := Refused(if future.panic.None? then RETIRED
                         else RETIRED + "; " + Message(name, future.panic.value));
      } else if next < U64_MAX {
        var o := new Owner(next, name, future);
        grant := Granted(next);
        owners := owners[next := o];
        next := next + 1;
        handles := handles + {o};
        owner := Some(o);
        assert Operations() == old(Operations())[o.key := o.Value()];
      } else {
        failure := Note(failure, name, Some(future));
        grant := Refused(NO_KEYS);
      }
    }

    /** Take an owner's future, unregister it and drop the future. */
    method Dispose(o: Owner)
      requires Valid() && o in handles
      modifies this`owners, this`failure, o`future
      ensures Valid() && o.future.None?
      ensures Value() == (if old(Registered(o)) then Spec.Dispose(old(Value()), o.key) else old(Value()))
      ensures owners == (if old(Registered(o)) then old(owners) - {o.key} else old(owners))
      ensures Operations() == (if old(Registered(o)) then old(Operations()) - {o.key} else old(Operations()))
    {
      var taken := o.future;
      o.future := None;
      if o.key in owners && owners[o.key] == o {
        owners := owners - {o.key};
      }
      failure := Note(failure, o.name, taken);
      assert Operations() == if old(Registered(o)) then old(Operations()) - {o.key} else old(Operations());
    }

    method Poll(o: Owner, outcome: Outcome) returns (answer: Answer)
      requires Valid() && o in handles
      modifies this`owners, this`failure, o
      ensures Valid()
      ensures old(Registered(o)) ==> (Value(), answer) == Spec.Poll(old(Value()), o.key, outcome)
      ensures !old(Registered(o)) ==> Value() == old(Value()) && answer == Cancelled
      ensures !old(retired) && old(o.future).Some? ==>
        match outcome
        case Pending => answer == StillPending && o.future == old(o.future) && Registered(o)
        case Ready => answer == Finished && o.future.None? && !Registered(o)
        case Panics => answer == Unwound && o.future.None?
      ensures old(retired) || old(o.future).None? ==> answer == Cancelled && o.future.None?
    {
      if retired {
        Dispose(o);
        return Cancelled;
      }
      o.stamp := generation;
      assert Operations() ==
        if old(Registered(o)) then old(Operations())[o.key := o.Value()] else old(Operations());
      if o.future.None? {
        return Cancelled;
      }
      match outcome
      case Pending => return StillPending;
      case Ready =>
        Dispose(o);
        return Finished;
      case Panics =>
        o.future := None;
        assert Operations() == old(Operations())[o.key := o.Value()];
        return Unwound;
    }

    /** A revocation of `was` has passed every registered key except those still `left`. */
    ghost predicate Midway(was: Life, all: bool, left: set<nat>)
      reads this, handles
    {
      && Valid() && left <= was.owners.Keys
      && var gone := DoomedKeys(was, all) - left;
      && Value() == was.(owners := was.owners - gone, failure := Blame(was.failure, was.owners, gone))
    }

    /** Visit the next owner in key order. */
    method RevokeNext(key: nat, all: bool, ghost was: Life, ghost left: set<nat>)
      requires Midway(was, all, left)
      requires Passed(was.owners.Keys, left) && key in left
      modifies this`owners, this`failure, handles
      ensures Midway(was, all, left - {key})
    {
      assert key in Operations();
      var o := owners[key];
      ghost var gone := DoomedKeys(was, all) - left;
      if all || o.stamp == generation {
        assert gone <= was.owners.Keys - left;
        BlameNext(was.failure, was.owners, gone, key);
        assert DoomedKeys(was, all) - (left - {key}) == gone + {key};
        Dispose(o);
        assert Operations() == was.owners - (gone + {key});
      } else {
        assert DoomedKeys(was, all) - (left - {key}) == gone;
      }
    }

    /** Revoke every owner, or those stamped with this generation, in key order. */
    method Revoke(all: bool)
      requires Valid()
      modifies this`owners, this`failure, handles
      ensures Valid() && Value() == Spec.Revoke(old(Value()), all)
    {
      ghost var was := Value();
      var left := owners.Keys;
      assert DoomedKeys(was, all) - left == {};
      while left != {}
        invariant Midway(was, all, left)
        invariant Passed(was.owners.Keys, left)
        decreases left
      {
        LeastExists(left);
        var key :| key in left && forall l :: l in left ==> key <= l;
        RevokeNext(key, all, was, left);
        PassedNext(was.owners.Keys, left, key);
        left := left - {key};
      }
      assert DoomedKeys(was, all) - left == DoomedKeys(was, all);
    }

    method Retire()
      requires Valid()
      modifies this`owners, this`failure, this`retired, handles
      ensures Valid() && Value() == Spec.Retire(old(Value()))
    {
      retired := true;
      Revoke(true);
    }

    method Begin() returns (r: Result<(), Text>)
      requires Valid()
      modifies this`generation, this`active
      ensures Valid() && (Value(), r) == Spec.Begin(old(Value()))
    {
      if failure.Some? { return Err(failure.value); }
      if retired { return Err(RETIRED); }
      if generation >= U64_MAX { return Err(EXHAUSTED); }
      generation := generation + 1;
      active := true;
      return Ok(());
    }

    method Finish(failed: bool) returns (r: Result<(), Text>)
      requires Valid()
      modifies this, handles
      ensures Valid() && Value() == Spec.Finish(old(Value()), failed) && r == Answered(Value())
      ensures failure == if r.Err? then Some(r.error) else None
      ensures handles == old(handles)
    {
      var was := active;
      active := false;
      if was && failed { Revoke(false); }
      if failure.Some? { Retire(); }
      r := if failure.Some? then Err(failure.value) else Ok(());
    }

    method Clear() returns (r: Result<(), Text>)
      requires Valid()
      modifies this, handles
      ensures Valid() && Value() == Spec.Clear(old(Value())) && r == Answered(Value())
      ensures handles == old(handles)
    {
      Revoke(true);
      if failure.Some? { Retire(); }
      r := if failure.Some? then Err(failure.value) else Ok(());
    }

    method Close() returns (r: Result<(), Text>)
      requires Valid()
      modifies this, handles
      ensures Valid() && Value() == Spec.Close(old(Value())) && r == Answered(Value())
      ensures handles == old(handles)
    {
      Retire();
      r := if failure.Some? then Err(failure.value) else Ok(());
    }
  }
}

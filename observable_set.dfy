/**
 * The observable wrapper over a set delegate (a `HashSet`). The wrapper logic
 * is that of `ObservableCollection`; what differs is the delegate: adding an
 * element already present, or removing one that is absent, changes nothing
 * and therefore fires nothing.
 */
module ObservableSet {
  import opened Wrappers
  import opened Lists
  import opened ObservableCollection

  /** The contents a listener reconstructs by applying `change` to `s`. */
  function Apply<T>(s: set<T>, change: Change<T>): set<T> {
    s - Elems(change.elementsRemoved) + Elems(change.elementsAdded)
  }

  /** The contents a listener reconstructs from `initial` and every change it received, in order. */
  function Replay<T>(initial: set<T>, log: seq<Change<T>>): set<T>
    decreases |log|
  {
    if log == [] then initial else Apply(Replay(initial, log[..|log| - 1]), log[|log| - 1])
  }

  lemma ApplyAddition<T>(s: set<T>, c: seq<T>)
    ensures Apply(s, AdditionChange(c)) == s + Elems(c)
  {
    assert Elems(AdditionChange(c).elementsRemoved) == {};
  }

  lemma ApplyRemoval<T>(s: set<T>, c: seq<T>)
    ensures Apply(s, RemovalChange(c)) == s - Elems(c)
  {
    assert Elems(RemovalChange(c).elementsAdded) == {};
  }

  lemma ReplayStep<T>(initial: set<T>, log: seq<Change<T>>, change: Change<T>)
    ensures Replay(initial, log + [change]) == Apply(Replay(initial, log), change)
  {
    assert (log + [change])[..|log|] == log;
  }

  lemma ReplayNothing<T>(initial: set<T>, log: seq<Change<T>>, change: Change<T>)
    ensures Replay(initial, log + FiredIf(false, change)) == Replay(initial, log)
  {
    assert log + FiredIf(false, change) == log;
  }

  /*
   * A listener that applies every change it receives to the contents it saw
   * at registration stays in step with the set: for each mutator, given the
   * contents `d` before the call and the events the mutator's contract says
   * it fires, replaying gives the contents after the call.
   */

  /** `add(e)`: what `Add` fires turns `d` into `d + {e}`. */
  lemma {:induction false} AddKeepsReplay<T>(initial: set<T>, log: seq<Change<T>>, d: set<T>, e: T)
    requires Replay(initial, log) == d
    ensures Replay(initial, log + FiredIf(e !in d, AdditionChange([e]))) == d + {e}
  {
    if e in d {
      ReplayNothing(initial, log, AdditionChange([e]));
    } else {
      assert Elems([e]) == {e};
      ApplyAddition(d, [e]);
      ReplayStep(initial, log, AdditionChange([e]));
    }
  }

  /** `remove(o)`: what `Remove` fires turns `d` into `d - {o}`. */
  lemma {:induction false} RemoveKeepsReplay<T>(initial: set<T>, log: seq<Change<T>>, d: set<T>, o: T)
    requires Replay(initial, log) == d
    ensures Replay(initial, log + FiredIf(o in d, RemovalChange([o]))) == d - {o}
  {
    if o !in d {
      ReplayNothing(initial, log, RemovalChange([o]));
    } else {
      assert Elems([o]) == {o};
      ApplyRemoval(d, [o]);
      ReplayStep(initial, log, RemovalChange([o]));
    }
  }

  /** `addAll(c)`: what `AddAll` fires, the whole of `c`, turns `d` into `d` with `c`'s elements. */
  lemma {:induction false} AddAllKeepsReplay<T>(initial: set<T>, log: seq<Change<T>>, d: set<T>, c: seq<T>)
    requires Replay(initial, log) == d
    ensures Replay(initial, log + FiredIf(!(Elems(c) <= d), AdditionChange(c))) == d + Elems(c)
  {
    if Elems(c) <= d {
      ReplayNothing(initial, log, AdditionChange(c));
    } else {
      ApplyAddition(d, c);
      ReplayStep(initial, log, AdditionChange(c));
    }
  }

  /** `removeAll(c)`: what `RemoveAll` fires, the whole of `c`, turns `d` into `d` without `c`'s elements. */
  lemma {:induction false} RemoveAllKeepsReplay<T>(initial: set<T>, log: seq<Change<T>>, d: set<T>, c: seq<T>)
    requires Replay(initial, log) == d
    ensures Replay(initial, log + FiredIf(!(d !! Elems(c)), RemovalChange(c))) == d - Elems(c)
  {
    if d !! Elems(c) {
      ReplayNothing(initial, log, RemovalChange(c));
    } else {
      ApplyRemoval(d, c);
      ReplayStep(initial, log, RemovalChange(c));
    }
  }

  /** `retainAll(c)`: what `RetainAll` fires, a listing of the lost elements, turns `d` into the retained elements. */
  lemma {:induction false} RetainAllKeepsReplay<T>(initial: set<T>, log: seq<Change<T>>, d: set<T>, c: seq<T>, lost: seq<T>)
    requires Replay(initial, log) == d && Enumerates(lost, d - Elems(c))
    ensures Replay(initial, log + FiredIf(!(d <= Elems(c)), RemovalChange(lost))) == d * Elems(c)
  {
    if d <= Elems(c) {
      ReplayNothing(initial, log, RemovalChange(lost));
    } else {
      EnumeratesFacts(lost, d - Elems(c));
      ApplyRemoval(d, lost);
      ReplayStep(initial, log, RemovalChange(lost));
    }
  }

  /** `clear()`: what `Clear` fires, a listing of the former elements, leaves nothing. */
  lemma {:induction false} ClearKeepsReplay<T>(initial: set<T>, log: seq<Change<T>>, d: set<T>, removed: seq<T>)
    requires Replay(initial, log) == d && Enumerates(removed, d)
    ensures Replay(initial, log + FiredIf(d != {}, RemovalChange(removed))) == {}
  {
    EnumeratesFacts(removed, d);
    if d == {} {
      ReplayNothing(initial, log, RemovalChange(removed));
    } else {
      ApplyRemoval(d, removed);
      ReplayStep(initial, log, RemovalChange(removed));
    }
  }

  /**
   * What `retainAll(c)` fires: a copy of the set taken before the change,
   * filtered by `c`, lists exactly the elements the change loses.
   */
  method LostListing<T(==)>(current: set<T>, c: seq<T>) returns (lost: seq<T>)
    ensures Enumerates(lost, current - Elems(c))
  {
    var before := Enumerate(current);
    lost := LostElements(before, c);
    WithoutEnumerates(before, current, c);
  }

  /**
   * An observable set. `events` is every change fired so far; `initial` is
   * the delegate's contents when it was wrapped. The `it` fields are the
   * state of the iterator most recently returned by `Iterator()`; its order
   * is the set's unspecified iteration order.
   */
  class ObservableSet<T(==)> {
    var delegate: set<T>
    var events: seq<Change<T>>
    ghost var initial: set<T>
    var itOpen: bool           // false once the set changed other than through this iterator
    var itRemaining: set<T>    // the elements next() has not returned yet
    var itCanRemove: bool      // next() was called since the last remove()
    var itCurrent: Option<T>   // the element most recently returned by next()

    /** Every fired change is well formed, and the iterator state describes the current contents. */
    ghost predicate Valid()
      reads this
    {
      && (forall i :: 0 <= i < |events| ==> events[i].WellFormed())
      && (itOpen ==> itRemaining <= delegate)
      && (itOpen && itCanRemove ==> itCurrent.Some? && itCurrent.value in delegate && itCurrent.value !in itRemaining)
    }

    /** A listener registered at wrapping time, replaying every change, sees the current contents. */
    ghost predicate InSync()
      reads this
    {
      Replay(initial, events) == delegate
    }

    /** A mutator that changes the set other than through the iterator ends the iteration when `bumped`. */
    twostate predicate IteratorInvalidatedIf(bumped: bool)
      reads this
    {
      && itOpen == (old(itOpen) && !bumped)
      && itRemaining == old(itRemaining) && itCanRemove == old(itCanRemove) && itCurrent == old(itCurrent)
    }

    constructor (s: set<T>)
      ensures Valid() && InSync()
      ensures delegate == s && initial == s && events == []
      ensures !itOpen && !itCanRemove
    {
      delegate, initial, events := s, s, [];
      itOpen, itRemaining, itCanRemove, itCurrent := false, {}, false, None;
    }

    /** The factory: a null set is rejected before anything is wrapped. */
    static method NewObservableSet(collection: Option<set<T>>) returns (r: Result<ObservableSet<T>>)
      ensures collection.None? ==> r == Err(NullPointer)
      ensures collection.Some? ==> r.Ok? && fresh(r.value) && r.value.Valid() && r.value.InSync()
      ensures collection.Some? ==> r.value.delegate == collection.value && r.value.events == []
    {
      if collection.None? {
        return Err(NullPointer);
      }
      var s := new ObservableSet(collection.value);
      r := Ok(s);
    }

    /** A wrapper over a new, empty hash set. */
    static method NewObservableHashSet() returns (s: ObservableSet<T>)
      ensures fresh(s) && s.Valid() && s.InSync() && s.delegate == {} && s.events == []
    {
      s := new ObservableSet({});
    }

    /** A wrapper over a new, empty tree set (its sorted iteration order is not modelled). */
    static method NewObservableTreeSet() returns (s: ObservableSet<T>)
      ensures fresh(s) && s.Valid() && s.InSync() && s.delegate == {} && s.events == []
    {
      s := new ObservableSet({});
    }

    /**
     * Equality as generated for the base class: only the delegates are
     * compared, by the delegate's own `equals`, which for a set is "the same
     * size, and every element of this one is in the other".
     */
    function Equals(other: ObservableSet<T>): (r: bool)
      reads this`delegate, other`delegate
      ensures r <==> |delegate| == |other.delegate| && delegate <= other.delegate
      ensures r <==> delegate == other.delegate
    {
      if |delegate| == |other.delegate| && delegate <= other.delegate then
        SubsetOfSameSize(delegate, other.delegate);
        true
      else false
    }

    method Add(e: T) returns (changed: bool)
      requires Valid()
      modifies this
      ensures Valid()
      ensures changed == (e !in old(delegate))
      ensures delegate == old(delegate) + {e}
      ensures events == old(events) + FiredIf(changed, AdditionChange([e]))
      ensures initial == old(initial) && IteratorInvalidatedIf(changed)
      ensures old(InSync()) ==> InSync()
    {
      if InSync() {
        AddKeepsReplay(initial, events, delegate, e);
      }
      changed := e !in delegate;
      delegate := delegate + {e};
      if changed {
        events := events + [AdditionChange([e])];
        itOpen := false;
      }
    }

    method Remove(o: T) returns (changed: bool)
      requires Valid()
      modifies this
      ensures Valid()
      ensures changed == (o in old(delegate))
      ensures delegate == old(delegate) - {o}
      ensures events == old(events) + FiredIf(changed, RemovalChange([o]))
      ensures initial == old(initial) && IteratorInvalidatedIf(changed)
      ensures old(InSync()) ==> InSync()
    {
      if InSync() {
        RemoveKeepsReplay(initial, events, delegate, o);
      }
      changed := o in delegate;
      delegate := delegate - {o};
      if changed {
        events := events + [RemovalChange([o])];
        itOpen := false;
      }
    }

    method AddAll(c: seq<T>) returns (changed: bool)
      requires Valid()
      modifies this
      ensures Valid()
      ensures changed == !(Elems(c) <= old(delegate))
      ensures delegate == old(delegate) + Elems(c)
      ensures events == old(events) + FiredIf(changed, AdditionChange(c))
      ensures initial == old(initial) && IteratorInvalidatedIf(changed)
      ensures old(InSync()) ==> InSync()
    {
      if InSync() {
        AddAllKeepsReplay(initial, events, delegate, c);
      }
      changed := !(Elems(c) <= delegate);
      delegate := delegate + Elems(c);
      if changed {
        events := events + [AdditionChange(c)];
        itOpen := false;
      }
    }

    method RemoveAll(c: seq<T>) returns (changed: bool)
      requires Valid()
      modifies this
      ensures Valid()
      ensures changed == !(old(delegate) !! Elems(c))
      ensures delegate == old(delegate) - Elems(c)
      ensures events == old(events) + FiredIf(changed, RemovalChange(c))
      ensures initial == old(initial) && IteratorInvalidatedIf(changed)
      ensures old(InSync()) ==> InSync()
    {
      if InSync() {
        RemoveAllKeepsReplay(initial, events, delegate, c);
      }
      changed := !(delegate !! Elems(c));
      delegate := delegate - Elems(c);
      if changed {
        events := events + [RemovalChange(c)];
        itOpen := false;
      }
    }

    /** `removed` is the listing of the lost elements that the fired change carries. */
    method RetainAll(c: seq<T>) returns (changed: bool, ghost removed: seq<T>)
      requires Valid()
      modifies this
      ensures Valid()
      ensures changed == !(old(delegate) <= Elems(c))
      ensures delegate == old(delegate) * Elems(c)
      ensures Enumerates(removed, old(delegate) - Elems(c))
      ensures events == old(events) + FiredIf(changed, RemovalChange(removed))
      ensures initial == old(initial) && IteratorInvalidatedIf(changed)
      ensures old(InSync()) ==> InSync()
    {
      changed := !(delegate <= Elems(c));
      if changed {
        var lost := LostListing(delegate, c);
        removed := lost;
        Lose(c, lost);
      } else {
        removed := [];
        assert delegate * Elems(c) == delegate && delegate - Elems(c) == {};
      }
    }

    /** The changing half of `retainAll`: the elements outside `c`, listed by `lost`, go and are fired. */
    method Lose(c: seq<T>, lost: seq<T>)
      requires Valid() && Enumerates(lost, delegate - Elems(c)) && !(delegate <= Elems(c))
      modifies this
      ensures Valid()
      ensures delegate == old(delegate) * Elems(c)
      ensures events == old(events) + [RemovalChange(lost)]
      ensures initial == old(initial) && IteratorInvalidatedIf(true)
      ensures old(InSync()) ==> InSync()
    {
      if InSync() {
        RetainAllKeepsReplay(initial, events, delegate, c, lost);
      }
      delegate, events, itOpen := delegate * Elems(c), events + [RemovalChange(lost)], false;
    }

    /** `removed` is the listing of the former elements that the fired change carries. */
    method Clear() returns (ghost removed: seq<T>)
      requires Valid()
      modifies this
      ensures Valid()
      ensures delegate == {}
      ensures Enumerates(removed, old(delegate))
      ensures events == old(events) + FiredIf(old(delegate) != {}, RemovalChange(removed))
      ensures initial == old(initial) && IteratorInvalidatedIf(true)
      ensures old(InSync()) ==> InSync()
    {
      var before := Enumerate(delegate);
      removed := before;
      if InSync() {
        ClearKeepsReplay(initial, events, delegate, before);
      }
      assert before != [] <==> delegate != {} by {
        EnumeratesFacts(before, delegate);
      }
      if before != [] {
        events := events + [RemovalChange(before)];
      }
      delegate := {};
      itOpen := false;
    }

    /** Starts a fresh iteration over the set. */
    method Iterator()
      requires Valid()
      modifies this
      ensures Valid()
      ensures delegate == old(delegate) && events == old(events) && initial == old(initial)
      ensures itOpen && itRemaining == delegate && !itCanRemove && itCurrent == None
      ensures old(InSync()) ==> InSync()
    {
      itOpen, itRemaining, itCanRemove, itCurrent := true, delegate, false, None;
    }

    method HasNext() returns (b: bool)
      ensures b == (itRemaining != {})
    {
      b := itRemaining != {};
    }

    method Next() returns (r: Result<T>)
      requires Valid()
      modifies this
      ensures Valid()
      ensures delegate == old(delegate) && events == old(events) && initial == old(initial) && itOpen == old(itOpen)
      ensures old(InSync()) ==> InSync()
      ensures !itOpen ==> r == Err(ConcurrentModification)
      ensures itOpen && old(itRemaining) == {} ==> r == Err(NoSuchElement)
      ensures r.Err? ==> itRemaining == old(itRemaining) && itCanRemove == old(itCanRemove) && itCurrent == old(itCurrent)
      ensures itOpen && old(itRemaining) != {} ==>
        && r.Ok? && r.value in old(itRemaining)
        && itRemaining == old(itRemaining) - {r.value} && itCanRemove && itCurrent == Some(r.value)
    {
      if !itOpen {
        return Err(ConcurrentModification);
      }
      if itRemaining == {} {
        return Err(NoSuchElement);
      }
      var x :| x in itRemaining;
      itRemaining, itCanRemove, itCurrent := itRemaining - {x}, true, Some(x);
      r := Ok(x);
    }

    /** The iterator's remove(): deletes the element last returned by next() and reports it. */
    method IteratorRemove() returns (r: Outcome)
      requires Valid()
      modifies this
      ensures Valid()
      ensures !old(itCanRemove) ==> r == Fail(IllegalState)
      ensures old(itCanRemove) && !old(itOpen) ==> r == Fail(ConcurrentModification)
      ensures r.Fail? ==> unchanged(this)
      ensures old(itCanRemove) && old(itOpen) ==>
        && r == Pass
        && old(itCurrent).Some? && old(itCurrent).value in old(delegate)
        && delegate == old(delegate) - {old(itCurrent).value}
        && events == old(events) + [RemovalChange([old(itCurrent).value])]
        && initial == old(initial)
        && itOpen && itRemaining == old(itRemaining) && !itCanRemove && itCurrent == old(itCurrent)
      ensures old(InSync()) ==> InSync()
    {
      if !itCanRemove {
        return Fail(IllegalState);
      }
      if !itOpen {
        return Fail(ConcurrentModification);
      }
      var x := itCurrent.value;
      if InSync() {
        RemoveKeepsReplay(initial, events, delegate, x);
      }
      delegate := delegate - {x};
      itCanRemove := false;
      events := events + [RemovalChange([x])];
      r := Pass;
    }
  }
}

/**
 * A list wrapped so that its changes can be observed: each mutator works on
 * the delegate list and then fires one `Change` describing what it did, or
 * nothing when the delegate reported that it did not change.
 */
module ObservableCollection {
  import opened Wrappers
  import opened Lists

  /** One notification: the elements added, the elements removed, and which of the two happened. */
  datatype Change<T> = Change(elementsAdded: seq<T>, elementsRemoved: seq<T>, wasAdded: bool, wasRemoved: bool)
  {
    /** An addition with nothing removed, or a removal with nothing added. */
    predicate WellFormed() {
      || (wasAdded && !wasRemoved && elementsRemoved == [])
      || (!wasAdded && wasRemoved && elementsAdded == [])
    }
  }

  /** The change fired when `added` went in. */
  function AdditionChange<T>(added: seq<T>): (c: Change<T>)
    ensures c.WellFormed() && c.wasAdded && c.elementsAdded == added
  {
    Change(added, [], true, false)
  }

  /** The change fired when `removed` went out. */
  function RemovalChange<T>(removed: seq<T>): (c: Change<T>)
    ensures c.WellFormed() && c.wasRemoved && c.elementsRemoved == removed
  {
    Change([], removed, false, true)
  }

  /** What a mutator fires: `change` when the delegate reported a change, nothing otherwise. */
  function FiredIf<T>(changed: bool, change: Change<T>): seq<Change<T>> {
    if changed then [change] else []
  }

  /** The elements of the snapshot `before` that `c` does not contain, in snapshot order. */
  method LostElements<T(==)>(before: seq<T>, c: seq<T>) returns (lost: seq<T>)
    ensures lost == Without(before, c)
  {
    lost := [];
    for i := 0 to |before|
      invariant lost == Without(before[..i], c)
    {
      assert before[..i + 1] == before[..i] + [before[i]];
      WithoutSnoc(before[..i], before[i], c);
      if before[i] !in c {
        lost := lost + [before[i]];
      }
    }
    assert before[..|before|] == before;
  }

  /**
   * An observable list. `delegate` is the wrapped `ArrayList`; `events` is
   * every change fired so far, in order, which is what each registered
   * listener receives; `initial` is the delegate's contents when it was
   * wrapped. The `it` fields are the state of the iterator most
   * recently returned by `Iterator()`.
   */
  class ObservableCollection<T(==)> {
    var delegate: seq<T>
    var events: seq<Change<T>>
    ghost var initial: multiset<T>
    var itOpen: bool          // false once the list changed other than through this iterator
    var itCursor: nat         // index of the element next() returns
    var itCanRemove: bool     // next() was called since the last remove()
    var itCurrent: Option<T>  // the element most recently returned by next()

    ghost predicate Valid()
      reads this
    {
      && (forall i :: 0 <= i < |events| ==> events[i].WellFormed())
      && (itOpen ==> itCursor <= |delegate|)
      && (itOpen && itCanRemove ==> 0 < itCursor && itCurrent == Some(delegate[itCursor - 1]))
    }

    /** A listener registered at wrapping time, keeping a tally of every change, counts the current contents. */
    ghost predicate Tallied()
      reads this
    {
      ReplayTally(initial, events) == multiset(delegate)
    }

    /** A mutator that changes the list other than through the iterator ends the iteration when `bumped`. */
    twostate predicate IteratorInvalidatedIf(bumped: bool)
      reads this
    {
      && itOpen == (old(itOpen) && !bumped)
      && itCursor == old(itCursor) && itCanRemove == old(itCanRemove) && itCurrent == old(itCurrent)
    }

    constructor (delegate: seq<T>)
      ensures Valid() && Tallied()
      ensures this.delegate == delegate && initial == multiset(delegate) && events == []
      ensures !itOpen && !itCanRemove
    {
      this.delegate := delegate;
      initial := multiset(delegate);
      events := [];
      itOpen, itCursor, itCanRemove, itCurrent := false, 0, false, None;
    }

    /** The factory: a null collection is rejected before anything is wrapped. */
    static method NewObservableCollection(collection: Option<seq<T>>) returns (r: Result<ObservableCollection<T>>)
      ensures collection.None? ==> r == Err(NullPointer)
      ensures collection.Some? ==> r.Ok? && fresh(r.value) && r.value.Valid() && r.value.Tallied()
      ensures collection.Some? ==> r.value.delegate == collection.value && r.value.events == []
    {
      if collection.None? {
        return Err(NullPointer);
      }
      var c := new ObservableCollection(collection.value);
      r := Ok(c);
    }

    /**
     * Equality as generated for the class: only the delegates are compared,
     * by the delegate's own `equals`, which for a list is "the same length,
     * and equal elements position by position".
     */
    function Equals(other: ObservableCollection<T>): (r: bool)
      reads this`delegate, other`delegate
      ensures r <==> |delegate| == |other.delegate| && forall i :: 0 <= i < |delegate| ==> delegate[i] == other.delegate[i]
    {
      delegate == other.delegate
    }

    method Add(e: T) returns (changed: bool)
      requires Valid()
      modifies this
      ensures Valid()
      ensures changed && delegate == old(delegate) + [e]
      ensures events == old(events) + FiredIf(changed, AdditionChange([e]))
      ensures initial == old(initial) && IteratorInvalidatedIf(true)
      ensures old(Tallied()) ==> Tallied()
    {
      if Tallied() {
        AddKeepsTally(initial, events, delegate, e);
      }
      delegate := delegate + [e];
      changed := true;  // a list always accepts an element
      if changed {
        events := events + [AdditionChange([e])];
      }
      itOpen := false;
    }

    method Remove(o: T) returns (changed: bool)
      requires Valid()
      modifies this
      ensures Valid()
      ensures changed == (o in old(delegate))
      ensures delegate == RemoveFirst(old(delegate), o)
      ensures events == old(events) + FiredIf(changed, RemovalChange([o]))
      ensures initial == old(initial) && IteratorInvalidatedIf(changed)
      ensures old(Tallied()) ==> Tallied()
    {
      changed := o in delegate;
      if changed {
        RemovePresent(o);
      }
    }

    /** The changing half of `remove(o)`: the first occurrence of `o` goes and is fired. */
    method RemovePresent(o: T)
      requires Valid() && o in delegate
      modifies this
      ensures Valid()
      ensures delegate == RemoveFirst(old(delegate), o)
      ensures events == old(events) + [RemovalChange([o])]
      ensures initial == old(initial) && IteratorInvalidatedIf(true)
      ensures old(Tallied()) ==> Tallied()
    {
      if Tallied() {
        RemoveKeepsTally(initial, events, delegate, o);
      }
      delegate, events, itOpen := RemoveFirst(delegate, o), events + [RemovalChange([o])], false;
    }

    method AddAll(c: seq<T>) returns (changed: bool)
      requires Valid()
      modifies this
      ensures Valid()
      ensures changed == (c != [])
      ensures delegate == old(delegate) + c
      ensures events == old(events) + FiredIf(changed, AdditionChange(c))
      ensures initial == old(initial) && IteratorInvalidatedIf(true)
      ensures old(Tallied()) ==> Tallied()
    {
      if Tallied() {
        AddAllKeepsTally(initial, events, delegate, c);
      }
      changed := c != [];
      delegate := delegate + c;
      if changed {
        events := events + [AdditionChange(c)];
      }
      itOpen := false;
    }

    method RemoveAll(c: seq<T>) returns (changed: bool)
      requires Valid()
      modifies this
      ensures Valid()
      ensures changed == !(Elems(old(delegate)) !! Elems(c))
      ensures delegate == Without(old(delegate), c)
      ensures events == old(events) + FiredIf(changed, RemovalChange(c))
      ensures initial == old(initial) && IteratorInvalidatedIf(changed)
      ensures old(Tallied()) && NamesEveryOccurrence(c, old(delegate)) ==> Tallied()
    {
      if Tallied() && NamesEveryOccurrence(c, delegate) {
        RemoveAllKeepsTally(initial, events, delegate, c);
      }
      var after := Without(delegate, c);
      WithoutUnchanged(delegate, c);
      changed := after != delegate;
      delegate := after;
      if changed {
        events := events + [RemovalChange(c)];
        itOpen := false;
      }
    }

    method RetainAll(c: seq<T>) returns (changed: bool)
      requires Valid()
      modifies this
      ensures Valid()
      ensures changed == !(Elems(old(delegate)) <= Elems(c))
      ensures delegate == Within(old(delegate), c)
      ensures events == old(events) + FiredIf(changed, RemovalChange(Without(old(delegate), c)))
      ensures initial == old(initial) && IteratorInvalidatedIf(changed)
      ensures old(Tallied()) ==> Tallied()
    {
      WithinUnchanged(delegate, c);
      changed := !(Elems(delegate) <= Elems(c));
      if changed {
        var lost := LostElements(delegate, c);
        Lose(c, lost);
      }
    }

    /** The changing half of `retainAll(c)`: the elements outside `c` go, and `lost`, which lists them, is fired. */
    method Lose(c: seq<T>, lost: seq<T>)
      requires Valid() && lost == Without(delegate, c) && !(Elems(delegate) <= Elems(c))
      modifies this
      ensures Valid()
      ensures delegate == Within(old(delegate), c)
      ensures events == old(events) + [RemovalChange(lost)]
      ensures initial == old(initial) && IteratorInvalidatedIf(true)
      ensures old(Tallied()) ==> Tallied()
    {
      if Tallied() {
        RetainAllKeepsTally(initial, events, delegate, c);
      }
      delegate, events, itOpen := Within(delegate, c), events + [RemovalChange(lost)], false;
    }

    method Clear()
      requires Valid()
      modifies this
      ensures Valid()
      ensures delegate == []
      ensures events == old(events) + FiredIf(old(delegate) != [], RemovalChange(old(delegate)))
      ensures initial == old(initial) && IteratorInvalidatedIf(true)
      ensures old(Tallied()) ==> Tallied()
    {
      if Tallied() {
        ClearKeepsTally(initial, events, delegate);
      }
      var before := delegate;
      delegate := [];
      if before != [] {
        events := events + [RemovalChange(before)];
      }
      itOpen := false;
    }

    /** Starts a fresh iteration over the list. */
    method Iterator()
      requires Valid()
      modifies this
      ensures Valid()
      ensures delegate == old(delegate) && events == old(events) && initial == old(initial)
      ensures itOpen && itCursor == 0 && !itCanRemove && itCurrent == None
      ensures old(Tallied()) ==> Tallied()
    {
      itOpen, itCursor, itCanRemove, itCurrent := true, 0, false, None;
    }

    method HasNext() returns (b: bool)
      ensures b == (itCursor != |delegate|)
    {
      b := itCursor != |delegate|;
    }

    method Next() returns (r: Result<T>)
      requires Valid()
      modifies this
      ensures Valid()
      ensures delegate == old(delegate) && events == old(events) && itOpen == old(itOpen)
      ensures initial == old(initial) && (old(Tallied()) ==> Tallied())
      ensures !itOpen ==> r == Err(ConcurrentModification)
      ensures itOpen && old(itCursor) >= |delegate| ==> r == Err(NoSuchElement)
      ensures r.Err? ==> itCursor == old(itCursor) && itCanRemove == old(itCanRemove) && itCurrent == old(itCurrent)
      ensures itOpen && old(itCursor) < |delegate| ==>
        && r == Ok(delegate[old(itCursor)])
        && itCursor == old(itCursor) + 1 && itCanRemove && itCurrent == Some(r.value)
    {
      if !itOpen {
        return Err(ConcurrentModification);
      }
      if itCursor >= |delegate| {
        return Err(NoSuchElement);
      }
      var x := delegate[itCursor];
      itCursor, itCanRemove, itCurrent := itCursor + 1, true, Some(x);
      r := Ok(x);
    }

    /** The iterator's remove(): deletes the element last returned by next() and reports it. */
    method IteratorRemove() returns (r: Outcome)
      requires Valid()
      modifies this
      ensures Valid()
      ensures !old(itCanRemove) ==> r == Fail(IllegalState)
      ensures old(itCanRemove) && !old(itOpen) ==> r == Fail(ConcurrentModification)
      ensures r.Fail? ==> unchanged(this)
      ensures old(itCanRemove) && old(itOpen) ==>
        && r == Pass
        && old(itCurrent).Some?
        && delegate == old(delegate)[..old(itCursor) - 1] + old(delegate)[old(itCursor)..]
        && multiset(delegate) == multiset(old(delegate)) - multiset{old(itCurrent).value}
        && events == old(events) + [RemovalChange([old(itCurrent).value])]
        && itOpen && itCursor == old(itCursor) - 1 && !itCanRemove && itCurrent == old(itCurrent)
      ensures initial == old(initial) && (old(Tallied()) ==> Tallied())
    {
      if !itCanRemove {
        return Fail(IllegalState);
      }
      if !itOpen {
        return Fail(ConcurrentModification);
      }
      ghost var d, i := delegate, itCursor - 1;
      RemoveReturned();
      MultisetRemoveAt(d, i);
      r := Pass;
    }

    /** The changing half of the iterator's remove(): the element last returned goes and is fired. */
    method RemoveReturned()
      requires Valid() && itCanRemove && itOpen
      modifies this
      ensures Valid()
      ensures delegate == old(delegate)[..old(itCursor) - 1] + old(delegate)[old(itCursor)..]
      ensures events == old(events) + [RemovalChange([old(itCurrent).value])]
      ensures initial == old(initial) && itOpen && itCursor == old(itCursor) - 1 && !itCanRemove && itCurrent == old(itCurrent)
      ensures old(Tallied()) ==> Tallied()
    {
      var i := itCursor - 1;
      if Tallied() {
        IteratorRemoveKeepsTally(initial, events, delegate, i);
      }
      delegate, itCursor, itCanRemove, events := delegate[..i] + delegate[i + 1..], i, false, events + [RemovalChange([itCurrent.value])];
    }
  }

  /*
   * A listener over a list can only keep a tally of the elements: how many
   * of each the list holds. It starts from the contents it saw at
   * registration and applies every change it receives.
   */

  /** The tally after applying `change` to `m`. */
  function Tally<T>(m: multiset<T>, change: Change<T>): multiset<T> {
    m - multiset(change.elementsRemoved) + multiset(change.elementsAdded)
  }

  /** The tally a listener keeps from `initial` and every change it received, in order. */
  function ReplayTally<T>(initial: multiset<T>, log: seq<Change<T>>): multiset<T>
    decreases |log|
  {
    if log == [] then initial else Tally(ReplayTally(initial, log[..|log| - 1]), log[|log| - 1])
  }

  lemma ReplayTallyStep<T>(initial: multiset<T>, log: seq<Change<T>>, change: Change<T>)
    ensures ReplayTally(initial, log + [change]) == Tally(ReplayTally(initial, log), change)
  {
    assert (log + [change])[..|log|] == log;
  }

  lemma ReplayTallyNothing<T>(initial: multiset<T>, log: seq<Change<T>>, change: Change<T>)
    ensures ReplayTally(initial, log + FiredIf(false, change)) == ReplayTally(initial, log)
  {
    assert log + FiredIf(false, change) == log;
  }

  /** `add(e)`: the addition `Add` fires counts the appended element. */
  lemma {:induction false} AddKeepsTally<T>(initial: multiset<T>, log: seq<Change<T>>, d: seq<T>, e: T)
    requires ReplayTally(initial, log) == multiset(d)
    ensures ReplayTally(initial, log + FiredIf(true, AdditionChange([e]))) == multiset(d + [e])
  {
    ReplayTallyStep(initial, log, AdditionChange([e]));
  }

  /** `remove(o)`: the removal `Remove` fires uncounts the one occurrence the list lost. */
  lemma {:induction false} RemoveKeepsTally<T>(initial: multiset<T>, log: seq<Change<T>>, d: seq<T>, o: T)
    requires ReplayTally(initial, log) == multiset(d)
    ensures ReplayTally(initial, log + FiredIf(o in d, RemovalChange([o]))) == multiset(RemoveFirst(d, o))
  {
    if o in d {
      ReplayTallyStep(initial, log, RemovalChange([o]));
    } else {
      ReplayTallyNothing(initial, log, RemovalChange([o]));
    }
  }

  /** `addAll(c)`: the addition `AddAll` fires counts every appended element. */
  lemma {:induction false} AddAllKeepsTally<T>(initial: multiset<T>, log: seq<Change<T>>, d: seq<T>, c: seq<T>)
    requires ReplayTally(initial, log) == multiset(d)
    ensures ReplayTally(initial, log + FiredIf(c != [], AdditionChange(c))) == multiset(d + c)
  {
    if c != [] {
      ReplayTallyStep(initial, log, AdditionChange(c));
    } else {
      assert d + c == d;
      ReplayTallyNothing(initial, log, AdditionChange(c));
    }
  }

  /** `retainAll(c)`: the lost elements `RetainAll` fires, every occurrence of them, uncount exactly what went. */
  lemma {:induction false} RetainAllKeepsTally<T>(initial: multiset<T>, log: seq<Change<T>>, d: seq<T>, c: seq<T>)
    requires ReplayTally(initial, log) == multiset(d)
    ensures ReplayTally(initial, log + FiredIf(!(Elems(d) <= Elems(c)), RemovalChange(Without(d, c))))
      == multiset(Within(d, c))
  {
    WithinWithoutPartition(d, c);
    if Elems(d) <= Elems(c) {
      WithinUnchanged(d, c);
      ReplayTallyNothing(initial, log, RemovalChange(Without(d, c)));
    } else {
      ReplayTallyStep(initial, log, RemovalChange(Without(d, c)));
    }
  }

  /** `clear()`: the removal `Clear` fires, the whole former list, leaves an empty tally. */
  lemma {:induction false} ClearKeepsTally<T>(initial: multiset<T>, log: seq<Change<T>>, d: seq<T>)
    requires ReplayTally(initial, log) == multiset(d)
    ensures ReplayTally(initial, log + FiredIf(d != [], RemovalChange(d))) == multiset{}
  {
    if d != [] {
      ReplayTallyStep(initial, log, RemovalChange(d));
    } else {
      ReplayTallyNothing(initial, log, RemovalChange(d));
    }
  }

  /** The iterator's remove(): the single-element removal uncounts the element it deleted at `i`. */
  lemma {:induction false} IteratorRemoveKeepsTally<T>(initial: multiset<T>, log: seq<Change<T>>, d: seq<T>, i: nat)
    requires ReplayTally(initial, log) == multiset(d) && i < |d|
    ensures ReplayTally(initial, log + [RemovalChange([d[i]])]) == multiset(d[..i] + d[i + 1..])
  {
    assert d == d[..i] + [d[i]] + d[i + 1..];
    ReplayTallyStep(initial, log, RemovalChange([d[i]]));
  }

  /** `c` names each of its elements at least as often as the list `d` holds it. */
  ghost predicate NamesEveryOccurrence<T>(c: seq<T>, d: seq<T>) {
    forall x :: x in c ==> multiset(d)[x] <= multiset(c)[x]
  }

  /**
   * `removeAll(c)`: the removal names the argument verbatim, so it uncounts
   * exactly what went when `c` names every occurrence of its elements.
   */
  lemma {:induction false} RemoveAllKeepsTally<T>(initial: multiset<T>, log: seq<Change<T>>, d: seq<T>, c: seq<T>)
    requires ReplayTally(initial, log) == multiset(d) && NamesEveryOccurrence(c, d)
    ensures ReplayTally(initial, log + FiredIf(!(Elems(d) !! Elems(c)), RemovalChange(c))) == multiset(Without(d, c))
  {
    if Elems(d) !! Elems(c) {
      WithoutUnchanged(d, c);
      ReplayTallyNothing(initial, log, RemovalChange(c));
    } else {
      ReplayTallyStep(initial, log, RemovalChange(c));
      forall x
        ensures (multiset(d) - multiset(c))[x] == multiset(Without(d, c))[x]
      {
        WithoutCount(d, c, x);
      }
      MultisetExt(multiset(d) - multiset(c), multiset(Without(d, c)));
    }
  }

  /**
   * `removeAll(c)` is the exception: the list loses every occurrence of each
   * element of `c`, but the change names the argument's elements only as
   * often as the argument does. An element the list holds more often than
   * `c` names it stays in the listener's tally.
   */
  lemma RemoveAllUndercounts<T>(initial: multiset<T>, log: seq<Change<T>>, d: seq<T>, c: seq<T>, x: T)
    requires ReplayTally(initial, log) == multiset(d)
    requires x in c && multiset(d)[x] > multiset(c)[x]
    ensures ReplayTally(initial, log + FiredIf(!(Elems(d) !! Elems(c)), RemovalChange(c))) != multiset(Without(d, c))
  {
    WithoutCount(d, c, x);
    assert x in Elems(d) * Elems(c) by {
      assert multiset(d)[x] > 0;
    }
    ReplayTallyStep(initial, log, RemovalChange(c));
    assert ReplayTally(initial, log + [RemovalChange(c)])[x] > 0;
  }
}

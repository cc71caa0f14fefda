/**
 * `com.github.fommil.beans.VetoableChangeListenerAdapter`: a vetoable-change
 * listener that asks `isVetoed` about each proposed change, and that ignores
 * the "rollback" event `java.beans.VetoableChangeSupport` sends to the
 * listeners it has already told when a later listener vetoes.
 */
module Vetoable {
  import opened Wrappers

  /** A `java.beans.PropertyChangeEvent`: a source (never null), and a property name and values that may be null. */
  datatype PropertyChangeEvent<S, V> = PropertyChangeEvent(
    source: S,
    propertyName: Option<string>,
    oldValue: Option<V>,
    newValue: Option<V>)

  /** The event that undoes `evt`: what VetoableChangeSupport fires after a veto of `evt`. */
  function Reverse<S, V>(evt: PropertyChangeEvent<S, V>): PropertyChangeEvent<S, V> {
    PropertyChangeEvent(evt.source, evt.propertyName, evt.newValue, evt.oldValue)
  }

  /** `evt` looks like the rollback of `last`: same source and property, and it restores `last`'s old value. */
  predicate IsRollback<S(==), V(==)>(last: Option<PropertyChangeEvent<S, V>>, evt: PropertyChangeEvent<S, V>)
    ensures IsRollback(last, evt) ==> last.Some? && evt.newValue == last.value.oldValue
    ensures last.Some? && evt == Reverse(last.value) ==> IsRollback(last, evt)
  {
    last.Some? &&
    last.value.source == evt.source &&
    last.value.propertyName == evt.propertyName &&
    last.value.oldValue == evt.newValue
  }

  /**
   * What vetoableChange does with `evt` given the event remembered so far:
   * the remembered event afterwards, and whether the call returns or
   * throws PropertyVetoException.
   */
  function Respond<S(==), V(==)>(
    isVetoed: PropertyChangeEvent<S, V> -> bool,
    last: Option<PropertyChangeEvent<S, V>>,
    evt: PropertyChangeEvent<S, V>): (r: (Option<PropertyChangeEvent<S, V>>, Outcome))
    ensures r.1 == Pass || r.1 == Fail(PropertyVeto)
    ensures IsRollback(last, evt) ==> r.0 == last && r.1 == Pass
    ensures !IsRollback(last, evt) ==> r.0 == Some(evt) && (r.1 == Fail(PropertyVeto) <==> isVetoed(evt))
  {
    if IsRollback(last, evt) then (last, Pass)
    else if isVetoed(evt) then (Some(evt), Fail(PropertyVeto))
    else (Some(evt), Pass)
  }

  /** Before any event is remembered, nothing is a rollback: the first event is always put to `isVetoed`. */
  lemma FirstEventNeverRollback<S, V>(isVetoed: PropertyChangeEvent<S, V> -> bool, evt: PropertyChangeEvent<S, V>)
    ensures !IsRollback(None, evt)
    ensures Respond(isVetoed, None, evt).0 == Some(evt)
    ensures Respond(isVetoed, None, evt).1 == Fail(PropertyVeto) <==> isVetoed(evt)
  {
  }

  /**
   * The rollback protocol: a listener that has just been asked about `evt`
   * (accepting it or not) ignores the reverse event, keeps `evt` as its last
   * event and raises no veto, whatever `isVetoed` says about the reverse.
   */
  lemma RollbackIgnored<S, V>(
    isVetoed: PropertyChangeEvent<S, V> -> bool,
    last: Option<PropertyChangeEvent<S, V>>,
    evt: PropertyChangeEvent<S, V>)
    requires !IsRollback(last, evt)
    ensures var after := Respond(isVetoed, last, evt).0;
      Respond(isVetoed, after, Reverse(evt)) == (Some(evt), Pass)
  {
    var after := Respond(isVetoed, last, evt).0;
    assert after == Some(evt);
    assert IsRollback(after, Reverse(evt));
  }

  /**
   * After the rollback of `evt` has been ignored, proposing `evt` again is a
   * real change (unless it changes nothing) and is put to `isVetoed` again.
   */
  lemma RetryAfterRollbackConsulted<S, V>(
    isVetoed: PropertyChangeEvent<S, V> -> bool,
    evt: PropertyChangeEvent<S, V>)
    requires evt.oldValue != evt.newValue
    ensures var after := Respond(isVetoed, Respond(isVetoed, Some(evt), Reverse(evt)).0, evt);
      after.0 == Some(evt) && (after.1 == Fail(PropertyVeto) <==> isVetoed(evt))
  {
    assert IsRollback(Some(evt), Reverse(evt));
    assert !IsRollback(Some(evt), evt);
  }

  /**
   * A genuine change that reverts the last one cannot be told apart from a
   * rollback: it is ignored and never put to `isVetoed`.
   */
  lemma RevertingChangeNotConsulted<S, V>(
    isVetoed: PropertyChangeEvent<S, V> -> bool,
    previous: PropertyChangeEvent<S, V>,
    next: PropertyChangeEvent<S, V>)
    requires next.source == previous.source && next.propertyName == previous.propertyName
    requires next.newValue == previous.oldValue
    requires isVetoed(next)
    ensures Respond(isVetoed, Some(previous), next).1 == Pass
  {
    assert IsRollback(Some(previous), next);
  }

  /** The listener; `isVetoed`, abstract in the source, is supplied at construction. */
  class VetoableChangeListenerAdapter<S(==), V(==)> {
    /** The last event put to `isVetoed`, if any. */
    var last: Option<PropertyChangeEvent<S, V>>
    const isVetoed: PropertyChangeEvent<S, V> -> bool

    constructor (isVetoed: PropertyChangeEvent<S, V> -> bool)
      ensures this.isVetoed == isVetoed && last == None
    {
      this.isVetoed := isVetoed;
      last := None;
    }

    /** vetoableChange: a rollback returns at once; anything else is remembered, then vetoed or let through. */
    method VetoableChange(evt: PropertyChangeEvent<S, V>) returns (outcome: Outcome)
      modifies this
      ensures (last, outcome) == Respond(isVetoed, old(last), evt)
    {
      if last.Some? {
        if last.value.source == evt.source
          && last.value.propertyName == evt.propertyName
          && last.value.oldValue == evt.newValue {
          return Pass;
        }
      }
      last := Some(evt);
      if isVetoed(evt) {
        return Fail(PropertyVeto);
      }
      return Pass;
    }
  }
}

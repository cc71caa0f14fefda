/**
 * The observable wrapper over a key-to-value map (a `HashMap`). Each mutator
 * works on the delegate and fires one `Change` made of entries; the key,
 * value and entry views wrap the delegate's own live views and turn what
 * their wrappers report into changes of the map.
 */
module ObservableMap {
  import opened Wrappers
  import opened Lists
  import ObservableSet

  /** A map entry as listeners see it; the value is `None` where Java's is `null`. */
  type Entry<K, V> = (K, Option<V>)

  /**
   * One notification: the entries added, the entries removed, and which of
   * the two happened. The parts are Java collections whose iteration order
   * is that of a hash set or of the caller's list, so only how often each
   * entry occurs is kept.
   */
  datatype Change<K(==), V(==)> = Change(
    entriesAdded: multiset<Entry<K, V>>,
    entriesRemoved: multiset<Entry<K, V>>,
    wasAdded: bool,
    wasRemoved: bool)
  {
    /** At least one flag is set, and a part whose flag is clear is empty. */
    predicate WellFormed() {
      && (wasAdded || wasRemoved)
      && (!wasAdded ==> entriesAdded == multiset{})
      && (!wasRemoved ==> entriesRemoved == multiset{})
    }
  }

  /** The change fired when `added` went in. */
  function AdditionChange<K(==), V(==)>(added: multiset<Entry<K, V>>): (c: Change<K, V>)
    ensures c.WellFormed() && c.wasAdded && !c.wasRemoved && c.entriesAdded == added
  {
    Change(added, multiset{}, true, false)
  }

  /** The change fired when `removed` went out. */
  function RemovalChange<K(==), V(==)>(removed: multiset<Entry<K, V>>): (c: Change<K, V>)
    ensures c.WellFormed() && !c.wasAdded && c.wasRemoved && c.entriesRemoved == removed
  {
    Change(multiset{}, removed, false, true)
  }

  /** The change fired when `removed` was replaced by `added`; both flags are set even if both parts are empty. */
  function UpdateChange<K(==), V(==)>(removed: multiset<Entry<K, V>>, added: multiset<Entry<K, V>>): (c: Change<K, V>)
    ensures c.WellFormed() && c.wasAdded && c.wasRemoved
    ensures c.entriesRemoved == removed && c.entriesAdded == added
  {
    Change(added, removed, true, true)
  }

  /** What a mutator fires: `change` when the delegate reported a change, nothing otherwise. */
  function FiredIf<K(==), V(==)>(changed: bool, change: Change<K, V>): seq<Change<K, V>> {
    if changed then [change] else []
  }

  /** The entries of a map: `entrySet()`. */
  function EntriesOf<K(==), V(==)>(m: map<K, V>): set<Entry<K, V>> {
    set k | k in m :: (k, Some(m[k]))
  }

  /** `m.get(k)`: the value, or `None` (Java's `null`) for a key that is absent. */
  function Lookup<K(==), V(==)>(m: map<K, V>, k: K): Option<V> {
    if k in m then Some(m[k]) else None
  }

  /** The entries the key view reports for the removed `keys`: each key with its value in `before`, in order. */
  function KeyEntries<K(==), V(==)>(before: map<K, V>, keys: seq<K>): (r: seq<Entry<K, V>>)
    ensures |r| == |keys|
    ensures forall i :: 0 <= i < |keys| ==> r[i] == (keys[i], Lookup(before, keys[i]))
  {
    if keys == [] then [] else [(keys[0], Lookup(before, keys[0]))] + KeyEntries(before, keys[1..])
  }

  /** The entries of `m` whose keys are in `keys`. */
  function RestrictKeys<K(==), V(==)>(m: map<K, V>, keys: set<K>): (r: map<K, V>)
    ensures r.Keys == m.Keys * keys
    ensures EntriesOf(r) <= EntriesOf(m)
  {
    var r := map k | k in m && k in keys :: m[k];
    assert EntriesOf(r) <= EntriesOf(m) by {
      forall e | e in EntriesOf(r) ensures e in EntriesOf(m) {
        EntriesOfMembership(r, e);
        EntriesOfMembership(m, e);
      }
    }
    r
  }

  /** The entries of `m` that `c` does not contain: `entrySet().removeAll(c)`. */
  function EntriesWithout<K(==), V(==)>(m: map<K, V>, c: seq<Entry<K, V>>): (r: map<K, V>)
    ensures r.Keys <= m.Keys
    ensures EntriesOf(r) == EntriesOf(m) - Elems(c)
  {
    var r := map k | k in m && (k, Some(m[k])) !in c :: m[k];
    assert EntriesOf(r) == EntriesOf(m) - Elems(c) by {
      forall e ensures e in EntriesOf(r) <==> e in EntriesOf(m) && e !in c {
        EntriesOfMembership(r, e);
        EntriesOfMembership(m, e);
      }
    }
    r
  }

  /** The entries of `m` that `c` contains: `entrySet().retainAll(c)`. */
  function EntriesWithin<K(==), V(==)>(m: map<K, V>, c: seq<Entry<K, V>>): (r: map<K, V>)
    ensures r.Keys <= m.Keys
    ensures EntriesOf(r) == EntriesOf(m) * Elems(c)
  {
    var r := map k | k in m && (k, Some(m[k])) in c :: m[k];
    assert EntriesOf(r) == EntriesOf(m) * Elems(c) by {
      forall e ensures e in EntriesOf(r) <==> e in EntriesOf(m) && e in c {
        EntriesOfMembership(r, e);
        EntriesOfMembership(m, e);
      }
    }
    r
  }

  /** The entries of `m` whose values `c` does not contain: `values().removeAll(c)`. */
  function ValuesWithout<K(==), V(==)>(m: map<K, V>, c: seq<V>): (r: map<K, V>)
    ensures EntriesOf(r) <= EntriesOf(m)
    ensures forall k :: k in m && m[k] !in Elems(c) ==> k in r
    ensures r.Values == m.Values - Elems(c)
  {
    var r := map k | k in m && m[k] !in c :: m[k];
    assert EntriesOf(r) <= EntriesOf(m) by {
      forall e | e in EntriesOf(r) ensures e in EntriesOf(m) {
        EntriesOfMembership(r, e);
        EntriesOfMembership(m, e);
      }
    }
    assert r.Values == m.Values - Elems(c) by {
      forall v | v in m.Values - Elems(c) ensures v in r.Values {
        var k :| k in m && m[k] == v;
        assert r[k] == v;
      }
    }
    r
  }

  /** The entries of `m` whose values `c` contains: `values().retainAll(c)`. */
  function ValuesWithin<K(==), V(==)>(m: map<K, V>, c: seq<V>): (r: map<K, V>)
    ensures EntriesOf(r) <= EntriesOf(m)
    ensures forall k :: k in m && m[k] in Elems(c) ==> k in r
    ensures r.Values == m.Values * Elems(c)
  {
    var r := map k | k in m && m[k] in c :: m[k];
    assert EntriesOf(r) <= EntriesOf(m) by {
      forall e | e in EntriesOf(r) ensures e in EntriesOf(m) {
        EntriesOfMembership(r, e);
        EntriesOfMembership(m, e);
      }
    }
    assert r.Values == m.Values * Elems(c) by {
      forall v | v in m.Values * Elems(c) ensures v in r.Values {
        var k :| k in m && m[k] == v;
        assert r[k] == v;
      }
    }
    r
  }

  /** The distinct entries of a part of a change. */
  function Support<E(==)>(ms: multiset<E>): set<E> {
    set e | e in ms
  }

  /** The entries a listener reconstructs by applying `change` to `s`: the removed part goes, then the added part comes. */
  function ApplyEntries<K(==), V(==)>(s: set<Entry<K, V>>, change: Change<K, V>): set<Entry<K, V>> {
    s - Support(change.entriesRemoved) + Support(change.entriesAdded)
  }

  /** The entries a listener reconstructs from `initial` and every change it received, in order. */
  function ReplayEntries<K(==), V(==)>(initial: set<Entry<K, V>>, log: seq<Change<K, V>>): set<Entry<K, V>>
    decreases |log|
  {
    if log == [] then initial else ApplyEntries(ReplayEntries(initial, log[..|log| - 1]), log[|log| - 1])
  }

  /** The key-view listener's loop: each removed key paired with its value in the snapshot. */
  method BridgeKeyEntries<K(==), V(==)>(before: map<K, V>, keys: seq<K>) returns (entries: seq<Entry<K, V>>)
    ensures entries == KeyEntries(before, keys)
  {
    entries := [];
    for i := 0 to |keys|
      invariant |entries| == i
      invariant forall j :: 0 <= j < i ==> entries[j] == (keys[j], Lookup(before, keys[j]))
    {
      entries := entries + [(keys[i], Lookup(before, keys[i]))];
    }
  }

  /** `putAll`'s first loop: the current entries for the keys of `m` that are already present. */
  method OldEntries<K(==), V(==)>(current: map<K, V>, m: map<K, V>) returns (prior: map<K, V>)
    ensures prior == RestrictKeys(current, m.Keys)
  {
    prior := map[];
    var rest := m.Keys;
    while rest != {}
      invariant rest <= m.Keys
      invariant prior == RestrictKeys(current, m.Keys - rest)
      decreases rest
    {
      var k :| k in rest;
      if k in current {
        prior := prior[k := current[k]];
      }
      rest := rest - {k};
    }
    assert m.Keys - rest == m.Keys;
  }

  /** The state of a key view: the copy of the map taken when `keySet()` was called. */
  datatype KeyView<K(==), V(==)> = KeyView(before: map<K, V>)

  /**
   * An observable map. `events` is every change fired so far, in order, which
   * is what each registered listener receives; `initial` is the delegate's
   * contents when it was wrapped.
   */
  class ObservableMap<K(==), V(==)> {
    var delegate: map<K, V>
    var events: seq<Change<K, V>>
    ghost var initial: map<K, V>

    /** Every fired change is well formed. */
    ghost predicate Valid()
      reads this
    {
      forall i :: 0 <= i < |events| ==> events[i].WellFormed()
    }

    /** A listener registered at wrapping time, replaying every change, sees the current entries. */
    ghost predicate InSync()
      reads this
    {
      ReplayEntries(EntriesOf(initial), events) == EntriesOf(delegate)
    }

    constructor (m: map<K, V>)
      ensures Valid() && InSync()
      ensures delegate == m && initial == m && events == []
    {
      delegate, initial, events := m, m, [];
    }

    /** The factory. Unlike the collection factories it does not check its argument for `null`. */
    static method NewObservableMap(m: map<K, V>) returns (r: ObservableMap<K, V>)
      ensures fresh(r) && r.Valid() && r.InSync() && r.delegate == m && r.events == []
    {
      r := new ObservableMap(m);
    }

    /** A wrapper over a new, empty hash map. */
    static method NewObservableHashMap() returns (r: ObservableMap<K, V>)
      ensures fresh(r) && r.Valid() && r.InSync() && r.delegate == map[] && r.events == []
    {
      r := new ObservableMap(map[]);
    }

    /** A wrapper over a new, empty tree map (its sorted iteration order is not modelled). */
    static method NewObservableTreeMap() returns (r: ObservableMap<K, V>)
      ensures fresh(r) && r.Valid() && r.InSync() && r.delegate == map[] && r.events == []
    {
      r := new ObservableMap(map[]);
    }

    /**
     * Equality as generated: only the delegates are compared, by the map's own
     * `equals`, which is "the same size, and every entry of this one is an
     * entry of the other".
     */
    function Equals(other: ObservableMap<K, V>): (r: bool)
      reads this`delegate, other`delegate
      ensures r <==> |delegate| == |other.delegate| && EntriesOf(delegate) <= EntriesOf(other.delegate)
      ensures r <==> delegate == other.delegate
    {
      if |delegate| == |other.delegate| && EntriesOf(delegate) <= EntriesOf(other.delegate) then
        EntriesOfSize(delegate);
        EntriesOfSize(other.delegate);
        SubsetOfSameSize(EntriesOf(delegate), EntriesOf(other.delegate));
        EntriesOfInjective(delegate, other.delegate);
        true
      else false
    }

    /** `put(k, v)`: always fires; an addition for a new key, an update (even to an equal value) otherwise. */
    method Put(k: K, v: V) returns (prior: Option<V>)
      requires Valid()
      modifies this
      ensures Valid()
      ensures prior == Lookup(old(delegate), k)
      ensures delegate == old(delegate)[k := v]
      ensures prior.None? ==> events == old(events) + [AdditionChange(multiset{(k, Some(v))})]
      ensures prior.Some? ==> events == old(events) + [UpdateChange(multiset{(k, prior)}, multiset{(k, Some(v))})]
      ensures initial == old(initial)
      ensures old(InSync()) ==> InSync()
    {
      if InSync() {
        PutKeepsReplay(EntriesOf(initial), events, delegate, k, v);
      }
      prior := Lookup(delegate, k);
      delegate := delegate[k := v];
      if prior.None? {
        events := events + [AdditionChange(multiset{(k, Some(v))})];
      } else {
        events := events + [UpdateChange(multiset{(k, prior)}, multiset{(k, Some(v))})];
      }
    }

    /** `remove(k)`: fires the removed entry only if `k` was present. */
    method Remove(k: K) returns (prior: Option<V>)
      requires Valid()
      modifies this
      ensures Valid()
      ensures prior == Lookup(old(delegate), k)
      ensures delegate == old(delegate) - {k}
      ensures events == old(events) + FiredIf(k in old(delegate), RemovalChange(multiset{(k, prior)}))
      ensures initial == old(initial)
      ensures old(InSync()) ==> InSync()
    {
      if InSync() {
        RemoveKeepsReplay(EntriesOf(initial), events, delegate, k);
      }
      prior := Lookup(delegate, k);
      if k in delegate {
        delegate := delegate - {k};
        events := events + [RemovalChange(multiset{(k, prior)})];
      } else {
        assert delegate - {k} == delegate;
      }
    }

    /** `putAll(m)`: always fires one update, the replaced entries against every entry of `m`. */
    method PutAll(m: map<K, V>)
      requires Valid()
      modifies this
      ensures Valid()
      ensures delegate == old(delegate) + m
      ensures events == old(events) + [UpdateChange(multiset(EntriesOf(RestrictKeys(old(delegate), m.Keys))), multiset(EntriesOf(m)))]
      ensures initial == old(initial)
      ensures old(InSync()) ==> InSync()
    {
      if InSync() {
        PutAllKeepsReplay(EntriesOf(initial), events, delegate, m);
      }
      var prior := OldEntries(delegate, m);
      delegate := delegate + m;
      events := events + [UpdateChange(multiset(EntriesOf(prior)), multiset(EntriesOf(m)))];
    }

    /** `clear()`: always fires the former entries, even when there were none. */
    method Clear()
      requires Valid()
      modifies this
      ensures Valid()
      ensures delegate == map[]
      ensures events == old(events) + [RemovalChange(multiset(EntriesOf(old(delegate))))]
      ensures initial == old(initial)
      ensures old(InSync()) ==> InSync()
    {
      if InSync() {
        ClearKeepsReplay(EntriesOf(initial), events, delegate);
      }
      events := events + [RemovalChange(multiset(EntriesOf(delegate)))];
      delegate := map[];
    }

    /** `keySet()`: a view whose listener remembers the map as it is now. */
    method KeySet() returns (view: KeyView<K, V>)
      ensures view.before == delegate
    {
      view := KeyView(delegate);
    }

    /** `keySet().add(k)`: the map's key view refuses additions before anything changes. */
    method KeyViewAdd(view: KeyView<K, V>, k: K) returns (r: Result<bool>)
      ensures r == Err(UnsupportedOperation)
    {
      r := Err(UnsupportedOperation);
    }

    /** `keySet().addAll(c)`: nothing to add reports no change; anything else is refused before anything changes. */
    method KeyViewAddAll(view: KeyView<K, V>, c: seq<K>) returns (r: Result<bool>)
      ensures c == [] ==> r == Ok(false)
      ensures c != [] ==> r == Err(UnsupportedOperation)
    {
      if c == [] {
        return Ok(false);
      }
      r := Err(UnsupportedOperation);
    }

    /** `keySet().remove(o)`: a present key goes, and the map fires it with its value in the view's copy. */
    method KeyViewRemove(view: KeyView<K, V>, o: K) returns (changed: bool)
      requires Valid()
      modifies this
      ensures Valid()
      ensures changed == (o in old(delegate))
      ensures delegate == old(delegate) - {o}
      ensures events == old(events) + FiredIf(changed, RemovalChange(multiset(KeyEntries(view.before, [o]))))
      ensures initial == old(initial)
      ensures old(InSync()) && SnapshotAgrees(view.before, old(delegate), {o}) ==> InSync()
    {
      if InSync() && SnapshotAgrees(view.before, delegate, {o}) {
        KeyViewRemoveKeepsReplay(EntriesOf(initial), events, delegate, view.before, o);
      }
      changed := o in delegate;
      if changed {
        var entries := BridgeKeyEntries(view.before, [o]);
        delegate := delegate - {o};
        events := events + [RemovalChange(multiset(entries))];
      } else {
        assert delegate - {o} == delegate;
      }
    }

    /** `keySet().removeAll(c)`: the map fires every key of `c`, present or not, with its value in the view's copy. */
    method KeyViewRemoveAll(view: KeyView<K, V>, c: seq<K>) returns (changed: bool)
      requires Valid()
      modifies this
      ensures Valid()
      ensures changed == !(old(delegate).Keys !! Elems(c))
      ensures delegate == old(delegate) - Elems(c)
      ensures events == old(events) + FiredIf(changed, RemovalChange(multiset(KeyEntries(view.before, c))))
      ensures initial == old(initial)
      ensures old(InSync()) && SnapshotAgrees(view.before, old(delegate), Elems(c)) ==> InSync()
    {
      if InSync() && SnapshotAgrees(view.before, delegate, Elems(c)) {
        KeyViewRemoveAllKeepsReplay(EntriesOf(initial), events, delegate, view.before, c);
      }
      changed := !(delegate.Keys !! Elems(c));
      if changed {
        var entries := BridgeKeyEntries(view.before, c);
        delegate := delegate - Elems(c);
        events := events + [RemovalChange(multiset(entries))];
      } else {
        assert delegate - Elems(c) == delegate;
      }
    }

    /** `keySet().retainAll(c)`: `lost` lists the keys that went; the map fires them with their values in the view's copy. */
    method KeyViewRetainAll(view: KeyView<K, V>, c: seq<K>) returns (changed: bool, ghost lost: seq<K>)
      requires Valid()
      modifies this
      ensures Valid()
      ensures changed == !(old(delegate).Keys <= Elems(c))
      ensures delegate == RestrictKeys(old(delegate), Elems(c))
      ensures Enumerates(lost, old(delegate).Keys - Elems(c))
      ensures events == old(events) + FiredIf(changed, RemovalChange(multiset(KeyEntries(view.before, lost))))
      ensures initial == old(initial)
      ensures old(InSync()) && SnapshotAgrees(view.before, old(delegate), old(delegate).Keys - Elems(c)) ==> InSync()
    {
      changed := !(delegate.Keys <= Elems(c));
      if changed {
        var keys := ObservableSet.LostListing(delegate.Keys, c);
        lost := keys;
        KeyViewLose(view, c, keys);
      } else {
        lost := [];
        assert RestrictKeys(delegate, Elems(c)) == delegate && delegate.Keys - Elems(c) == {};
      }
    }

    /** The changing half of `keySet().retainAll(c)`: the keys outside `c`, listed by `lost`, go and are fired with their values in the view's copy. */
    method KeyViewLose(view: KeyView<K, V>, c: seq<K>, lost: seq<K>)
      requires Valid() && Enumerates(lost, delegate.Keys - Elems(c)) && !(delegate.Keys <= Elems(c))
      modifies this
      ensures Valid()
      ensures delegate == RestrictKeys(old(delegate), Elems(c))
      ensures events == old(events) + [RemovalChange(multiset(KeyEntries(view.before, lost)))]
      ensures initial == old(initial)
      ensures old(InSync()) && SnapshotAgrees(view.before, old(delegate), old(delegate).Keys - Elems(c)) ==> InSync()
    {
      if InSync() && SnapshotAgrees(view.before, delegate, delegate.Keys - Elems(c)) {
        KeyViewRetainAllKeepsReplay(EntriesOf(initial), events, delegate, view.before, c, lost);
      }
      var entries := BridgeKeyEntries(view.before, lost);
      delegate := RestrictKeys(delegate, Elems(c));
      events := events + [RemovalChange(multiset(entries))];
    }

    /** `keySet().clear()`: `removed` lists the former keys; the map fires them, if any, with their values in the view's copy. */
    method KeyViewClear(view: KeyView<K, V>) returns (ghost removed: seq<K>)
      requires Valid()
      modifies this
      ensures Valid()
      ensures delegate == map[]
      ensures Enumerates(removed, old(delegate).Keys)
      ensures events == old(events) + FiredIf(old(delegate) != map[], RemovalChange(multiset(KeyEntries(view.before, removed))))
      ensures initial == old(initial)
      ensures old(InSync()) && SnapshotAgrees(view.before, old(delegate), old(delegate).Keys) ==> InSync()
    {
      var keys := Enumerate(delegate.Keys);
      removed := keys;
      assert keys != [] <==> delegate != map[] by {
        EnumeratesFacts(keys, delegate.Keys);
        if delegate != map[] {
          var k :| k in delegate;
          assert k in delegate.Keys;
        }
      }
      if keys != [] {
        KeyViewEmpty(view, keys);
      }
    }

    /** The changing half of `keySet().clear()`: every key, listed by `removed`, goes and is fired with its value in the view's copy. */
    method KeyViewEmpty(view: KeyView<K, V>, removed: seq<K>)
      requires Valid() && Enumerates(removed, delegate.Keys) && delegate != map[]
      modifies this
      ensures Valid()
      ensures delegate == map[]
      ensures events == old(events) + [RemovalChange(multiset(KeyEntries(view.before, removed)))]
      ensures initial == old(initial)
      ensures old(InSync()) && SnapshotAgrees(view.before, old(delegate), old(delegate).Keys) ==> InSync()
    {
      if InSync() && SnapshotAgrees(view.before, delegate, delegate.Keys) {
        KeyViewClearKeepsReplay(EntriesOf(initial), events, delegate, view.before, removed);
      }
      var entries := BridgeKeyEntries(view.before, removed);
      events := events + [RemovalChange(multiset(entries))];
      delegate := map[];
    }

    /** `entrySet().add(e)`: the map's entry view refuses additions before anything changes. */
    method EntryViewAdd(e: Entry<K, V>) returns (r: Result<bool>)
      ensures r == Err(UnsupportedOperation)
    {
      r := Err(UnsupportedOperation);
    }

    /** `entrySet().addAll(c)`: nothing to add reports no change; anything else is refused before anything changes. */
    method EntryViewAddAll(c: seq<Entry<K, V>>) returns (r: Result<bool>)
      ensures c == [] ==> r == Ok(false)
      ensures c != [] ==> r == Err(UnsupportedOperation)
    {
      if c == [] {
        return Ok(false);
      }
      r := Err(UnsupportedOperation);
    }

    /** `entrySet().remove(e)`: an entry goes only if its key maps to its value; that entry is fired. */
    method EntryViewRemove(e: Entry<K, V>) returns (changed: bool)
      requires Valid()
      modifies this
      ensures Valid()
      ensures changed == (e in EntriesOf(old(delegate)))
      ensures delegate == if changed then old(delegate) - {e.0} else old(delegate)
      ensures events == old(events) + FiredIf(changed, RemovalChange(multiset{e}))
      ensures initial == old(initial)
      ensures old(InSync()) ==> InSync()
    {
      if InSync() {
        EntryViewRemoveKeepsReplay(EntriesOf(initial), events, delegate, e);
      }
      changed := e.0 in delegate && e.1 == Some(delegate[e.0]);
      assert changed == (e in EntriesOf(delegate)) by {
        if e in EntriesOf(delegate) {
          var k :| k in delegate && e == (k, Some(delegate[k]));
        }
      }
      if changed {
        delegate := delegate - {e.0};
        events := events + [RemovalChange(multiset{e})];
      }
    }

    /** `entrySet().removeAll(c)`: the map fires all of `c`, present or not. */
    method EntryViewRemoveAll(c: seq<Entry<K, V>>) returns (changed: bool)
      requires Valid()
      modifies this
      ensures Valid()
      ensures changed == !(EntriesOf(old(delegate)) !! Elems(c))
      ensures delegate == EntriesWithout(old(delegate), c)
      ensures events == old(events) + FiredIf(changed, RemovalChange(multiset(c)))
      ensures initial == old(initial)
      ensures old(InSync()) ==> InSync()
    {
      if InSync() {
        EntryViewRemoveAllKeepsReplay(EntriesOf(initial), events, delegate, c);
      }
      changed := exists k :: k in delegate && (k, Some(delegate[k])) in c;
      assert changed == !(EntriesOf(delegate) !! Elems(c)) by {
        if !(EntriesOf(delegate) !! Elems(c)) {
          var e :| e in EntriesOf(delegate) && e in Elems(c);
          var k :| k in delegate && e == (k, Some(delegate[k]));
          assert (k, Some(delegate[k])) in c;
        }
        if changed {
          var k :| k in delegate && (k, Some(delegate[k])) in c;
          assert (k, Some(delegate[k])) in EntriesOf(delegate) * Elems(c);
        }
      }
      if changed {
        delegate := EntriesWithout(delegate, c);
        events := events + [RemovalChange(multiset(c))];
      } else {
        assert EntriesWithout(delegate, c) == delegate;
      }
    }

    /** `entrySet().retainAll(c)`: the map fires the entries that went. */
    method EntryViewRetainAll(c: seq<Entry<K, V>>) returns (changed: bool)
      requires Valid()
      modifies this
      ensures Valid()
      ensures changed == !(EntriesOf(old(delegate)) <= Elems(c))
      ensures delegate == EntriesWithin(old(delegate), c)
      ensures events == old(events) + FiredIf(changed, RemovalChange(multiset(EntriesOf(old(delegate)) - Elems(c))))
      ensures initial == old(initial)
      ensures old(InSync()) ==> InSync()
    {
      if InSync() {
        EntryViewRetainAllKeepsReplay(EntriesOf(initial), events, delegate, c);
      }
      changed := exists k :: k in delegate && (k, Some(delegate[k])) !in c;
      assert changed == !(EntriesOf(delegate) <= Elems(c)) by {
        if !(EntriesOf(delegate) <= Elems(c)) {
          var e :| e in EntriesOf(delegate) && e !in Elems(c);
          var k :| k in delegate && e == (k, Some(delegate[k]));
          assert (k, Some(delegate[k])) !in c;
        }
        if changed {
          var k :| k in delegate && (k, Some(delegate[k])) !in c;
          assert (k, Some(delegate[k])) in EntriesOf(delegate) - Elems(c);
        }
      }
      if !changed {
        assert EntriesWithin(delegate, c) == delegate;
        return;
      }
      var lost := ObservableSet.LostListing(EntriesOf(delegate), c);
      delegate := EntriesWithin(delegate, c);
      events := events + [RemovalChange(multiset(lost))];
    }

    /** `entrySet().clear()`: the map fires the former entries, if there were any. */
    method EntryViewClear()
      requires Valid()
      modifies this
      ensures Valid()
      ensures delegate == map[]
      ensures events == old(events) + FiredIf(old(delegate) != map[], RemovalChange(multiset(EntriesOf(old(delegate)))))
      ensures initial == old(initial)
      ensures old(InSync()) ==> InSync()
    {
      if InSync() {
        EntryViewClearKeepsReplay(EntriesOf(initial), events, delegate);
      }
      var before := Enumerate(EntriesOf(delegate));
      assert before != [] <==> delegate != map[] by {
        EnumeratesFacts(before, EntriesOf(delegate));
        if delegate != map[] {
          var k :| k in delegate;
          assert (k, Some(delegate[k])) in EntriesOf(delegate);
        }
      }
      if before != [] {
        events := events + [RemovalChange(multiset(before))];
      }
      delegate := map[];
    }
    /** `values().add(v)`: refused by the delegate's value view before anything changes. */
    method ValuesAdd(v: V) returns (r: Result<bool>)
      ensures r == Err(UnsupportedOperation)
    {
      r := Err(UnsupportedOperation);
    }

    /** `values().addAll(c)`: nothing to add reports no change; anything else is refused before anything changes. */
    method ValuesAddAll(c: seq<V>) returns (r: Result<bool>)
      ensures c == [] ==> r == Ok(false)
      ensures c != [] ==> r == Err(UnsupportedOperation)
    {
      if c == [] {
        return Ok(false);
      }
      r := Err(UnsupportedOperation);
    }

    /**
     * `values().remove(o)` as written: the delegate's value view removes an
     * entry holding `o` (which one depends on the hash order), and only then
     * does the bridge listener refuse the change. The map has changed, the
     * caller sees an error, and the map's listeners hear nothing.
     */
    method ValuesRemove(o: V) returns (r: Result<bool>)
      requires Valid()
      modifies this
      ensures Valid()
      ensures o !in old(delegate).Values ==> r == Ok(false) && delegate == old(delegate)
      ensures o in old(delegate).Values ==>
        && r == Err(UnsupportedOperation)
        && exists k :: k in old(delegate) && old(delegate)[k] == o && delegate == old(delegate) - {k}
      ensures events == old(events) && initial == old(initial)
    {
      if o !in delegate.Values {
        return Ok(false);
      }
      var k :| k in delegate && delegate[k] == o;
      delegate := delegate - {k};
      r := Err(UnsupportedOperation);
    }

    /** `values().removeAll(c)` as written: every entry holding a value of `c` goes, then the change is refused. */
    method ValuesRemoveAll(c: seq<V>) returns (r: Result<bool>)
      requires Valid()
      modifies this
      ensures Valid()
      ensures delegate == ValuesWithout(old(delegate), c)
      ensures r == if old(delegate).Values !! Elems(c) then Ok(false) else Err(UnsupportedOperation)
      ensures events == old(events) && initial == old(initial)
    {
      var changed := !(delegate.Values !! Elems(c));
      if !changed {
        ValuesWithoutUnchanged(delegate, c);
        return Ok(false);
      }
      delegate := ValuesWithout(delegate, c);
      r := Err(UnsupportedOperation);
    }

    /** `values().retainAll(c)` as written: every entry holding a value outside `c` goes, then the change is refused. */
    method ValuesRetainAll(c: seq<V>) returns (r: Result<bool>)
      requires Valid()
      modifies this
      ensures Valid()
      ensures delegate == ValuesWithin(old(delegate), c)
      ensures r == if old(delegate).Values <= Elems(c) then Ok(false) else Err(UnsupportedOperation)
      ensures events == old(events) && initial == old(initial)
    {
      var changed := !(delegate.Values <= Elems(c));
      if !changed {
        ValuesWithinUnchanged(delegate, c);
        return Ok(false);
      }
      delegate := ValuesWithin(delegate, c);
      r := Err(UnsupportedOperation);
    }

    /** `values().clear()` as written: the map is emptied, then a non-empty clear is refused. */
    method ValuesClear() returns (r: Outcome)
      requires Valid()
      modifies this
      ensures Valid()
      ensures delegate == map[]
      ensures r == if old(delegate) == map[] then Pass else Fail(UnsupportedOperation)
      ensures events == old(events) && initial == old(initial)
    {
      r := if delegate == map[] then Pass else Fail(UnsupportedOperation);
      delegate := map[];
    }

    /*
     * The values view as its bridge listener means it: a call is refused
     * exactly when the as-written call above would have changed the map, and
     * the map is refused before it is touched, so the delegate, the events and
     * with them a listener's view stay as they were.
     */

    /** `values().remove(o)`: refused exactly when some mapping holds `o`, which is when the as-written call removes one. */
    method ValuesRemoveGuarded(o: V) returns (r: Result<bool>)
      ensures r == Err(UnsupportedOperation) <==> exists k :: k in delegate && delegate[k] == o
      ensures r == Err(UnsupportedOperation) ==> forall k :: k in delegate && delegate[k] == o ==> delegate - {k} != delegate
      ensures r != Err(UnsupportedOperation) ==> r == Ok(false)
      ensures unchanged(this) && (old(InSync()) ==> InSync())
    {
      ValuesRemoveChanges(delegate, o);
      r := if o in delegate.Values then Err(UnsupportedOperation) else Ok(false);
    }

    /** `values().removeAll(c)`: refused exactly when removing the mappings that hold a value of `c` would change the map. */
    method ValuesRemoveAllGuarded(c: seq<V>) returns (r: Result<bool>)
      ensures r == Err(UnsupportedOperation) <==> ValuesWithout(delegate, c) != delegate
      ensures r != Err(UnsupportedOperation) ==> r == Ok(false)
      ensures unchanged(this) && (old(InSync()) ==> InSync())
    {
      ValuesWithoutUnchanged(delegate, c);
      r := if delegate.Values !! Elems(c) then Ok(false) else Err(UnsupportedOperation);
    }

    /** `values().retainAll(c)`: refused exactly when keeping only the mappings that hold a value of `c` would change the map. */
    method ValuesRetainAllGuarded(c: seq<V>) returns (r: Result<bool>)
      ensures r == Err(UnsupportedOperation) <==> ValuesWithin(delegate, c) != delegate
      ensures r != Err(UnsupportedOperation) ==> r == Ok(false)
      ensures unchanged(this) && (old(InSync()) ==> InSync())
    {
      ValuesWithinUnchanged(delegate, c);
      r := if delegate.Values <= Elems(c) then Ok(false) else Err(UnsupportedOperation);
    }

    /** `values().clear()`: refused exactly when emptying the map would change it. */
    method ValuesClearGuarded() returns (r: Outcome)
      ensures r == Fail(UnsupportedOperation) <==> map[] != delegate
      ensures r != Fail(UnsupportedOperation) ==> r == Pass
      ensures unchanged(this) && (old(InSync()) ==> InSync())
    {
      r := if delegate == map[] then Pass else Fail(UnsupportedOperation);
    }
  }

  /* Facts about the values view. */

  /** Removing the mappings that hold a value of `c` leaves the map as it is exactly when no value of the map is in `c`. */
  lemma ValuesWithoutUnchanged<K, V>(m: map<K, V>, c: seq<V>)
    ensures (m.Values !! Elems(c)) <==> ValuesWithout(m, c) == m
  {
    if !(m.Values !! Elems(c)) {
      var v :| v in m.Values && v in Elems(c);
      var k :| k in m && m[k] == v;
      assert k !in ValuesWithout(m, c);
    } else {
      forall k | k in m ensures m[k] !in c {
        assert m[k] in m.Values;
      }
      assert ValuesWithout(m, c) == m;
    }
  }

  /** Keeping only the mappings that hold a value of `c` leaves the map as it is exactly when every value of the map is in `c`. */
  lemma ValuesWithinUnchanged<K, V>(m: map<K, V>, c: seq<V>)
    ensures m.Values <= Elems(c) <==> ValuesWithin(m, c) == m
  {
    if !(m.Values <= Elems(c)) {
      var v :| v in m.Values && v !in Elems(c);
      var k :| k in m && m[k] == v;
      assert k !in ValuesWithin(m, c);
    } else {
      forall k | k in m ensures m[k] in c {
        assert m[k] in m.Values;
      }
      assert ValuesWithin(m, c) == m;
    }
  }

  /** Some mapping holds `o` exactly when `o` is a value of the map, and taking any mapping out changes the map. */
  lemma ValuesRemoveChanges<K, V>(m: map<K, V>, o: V)
    ensures o in m.Values <==> exists k :: k in m && m[k] == o
    ensures forall k :: k in m ==> k !in m - {k}
  {
    if o in m.Values {
      var k :| k in m && m[k] == o;
    }
  }

  /* Facts about entry sets. */

  /** An entry is in a map's entry set exactly when its key is in the map with its value. */
  lemma EntriesOfMembership<K, V>(m: map<K, V>, e: Entry<K, V>)
    ensures e in EntriesOf(m) <==> e.0 in m && e.1 == Some(m[e.0])
  {
    if e.0 in m && e.1 == Some(m[e.0]) {
      assert e == (e.0, Some(m[e.0]));
    }
  }

  /** A map has exactly as many entries as keys: a change holding all of them has the map's size. */
  lemma {:induction false} EntriesOfSize<K, V>(m: map<K, V>)
    ensures |EntriesOf(m)| == |m|
    decreases |m|
  {
    if m != map[] {
      var k :| k in m;
      var rest := m - {k};
      EntriesOfSize(rest);
      forall e ensures e in EntriesOf(m) <==> e in EntriesOf(rest) + {(k, Some(m[k]))} {
        EntriesOfMembership(m, e);
        EntriesOfMembership(rest, e);
      }
      assert EntriesOf(m) == EntriesOf(rest) + {(k, Some(m[k]))};
      EntriesOfMembership(rest, (k, Some(m[k])));
      assert |m| == |rest| + 1 by {
        assert m.Keys == rest.Keys + {k};
      }
    }
  }

  /** Maps with the same entries are the same map. */
  lemma EntriesOfInjective<K, V>(a: map<K, V>, b: map<K, V>)
    requires EntriesOf(a) == EntriesOf(b)
    ensures a == b
  {
    forall k | k in a ensures k in b && b[k] == a[k] {
      assert (k, Some(a[k])) in EntriesOf(b);
    }
    forall k | k in b ensures k in a {
      assert (k, Some(b[k])) in EntriesOf(a);
    }
  }

  lemma SupportOfSet<E>(s: set<E>)
    ensures Support(multiset(s)) == s
  {
  }

  lemma SupportOfSeq<E>(s: seq<E>)
    ensures Support(multiset(s)) == Elems(s)
  {
  }

  lemma SupportSingleton<E>(x: E)
    ensures Support(multiset{x}) == {x}
  {
  }

  lemma ReplayEntriesStep<K, V>(initial: set<Entry<K, V>>, log: seq<Change<K, V>>, change: Change<K, V>)
    ensures ReplayEntries(initial, log + [change]) == ApplyEntries(ReplayEntries(initial, log), change)
  {
    assert (log + [change])[..|log|] == log;
  }

  lemma ReplayEntriesNothing<K, V>(initial: set<Entry<K, V>>, log: seq<Change<K, V>>, change: Change<K, V>)
    ensures ReplayEntries(initial, log + FiredIf(false, change)) == ReplayEntries(initial, log)
  {
    assert log + FiredIf(false, change) == log;
  }

  /*
   * A listener that applies every change it receives to the entries it saw
   * at registration stays in step with the map: for each mutator, given the
   * contents `d` before the call and the events the mutator's contract says
   * it fires, replaying gives the entries after the call.
   */

  /** `put(k, v)`: the addition or update `Put` fires turns `d`'s entries into those of `d[k := v]`. */
  lemma {:induction false} PutKeepsReplay<K, V>(initial: set<Entry<K, V>>, log: seq<Change<K, V>>, d: map<K, V>, k: K, v: V)
    requires ReplayEntries(initial, log) == EntriesOf(d)
    ensures ReplayEntries(initial, log + [
      if k in d then UpdateChange(multiset{(k, Some(d[k]))}, multiset{(k, Some(v))})
      else AdditionChange(multiset{(k, Some(v))})]) == EntriesOf(d[k := v])
  {
    var change := if k in d then UpdateChange(multiset{(k, Some(d[k]))}, multiset{(k, Some(v))})
      else AdditionChange(multiset{(k, Some(v))});
    ReplayEntriesStep(initial, log, change);
    SupportSingleton((k, Some(v)));
    if k in d {
      SupportSingleton((k, Some(d[k])));
    }
    forall e ensures e in EntriesOf(d[k := v]) <==> e in ApplyEntries(EntriesOf(d), change) {
      EntriesOfMembership(d[k := v], e);
      EntriesOfMembership(d, e);
    }
  }

  /** `remove(k)`: what `Remove` fires turns `d`'s entries into those of `d - {k}`. */
  lemma {:induction false} RemoveKeepsReplay<K, V>(initial: set<Entry<K, V>>, log: seq<Change<K, V>>, d: map<K, V>, k: K)
    requires ReplayEntries(initial, log) == EntriesOf(d)
    ensures ReplayEntries(initial, log + FiredIf(k in d, RemovalChange(multiset{(k, Lookup(d, k))}))) == EntriesOf(d - {k})
  {
    var change := RemovalChange(multiset{(k, Lookup(d, k))});
    if k !in d {
      ReplayEntriesNothing(initial, log, change);
      assert d - {k} == d;
    } else {
      ReplayEntriesStep(initial, log, change);
      SupportSingleton((k, Lookup(d, k)));
      forall e ensures e in EntriesOf(d - {k}) <==> e in ApplyEntries(EntriesOf(d), change) {
        EntriesOfMembership(d - {k}, e);
        EntriesOfMembership(d, e);
      }
    }
  }

  /** `putAll(m)`: the update `PutAll` fires turns `d`'s entries into those of `d + m`. */
  lemma {:induction false} PutAllKeepsReplay<K, V>(initial: set<Entry<K, V>>, log: seq<Change<K, V>>, d: map<K, V>, m: map<K, V>)
    requires ReplayEntries(initial, log) == EntriesOf(d)
    ensures ReplayEntries(initial, log + [UpdateChange(multiset(EntriesOf(RestrictKeys(d, m.Keys))), multiset(EntriesOf(m)))])
      == EntriesOf(d + m)
  {
    var change := UpdateChange(multiset(EntriesOf(RestrictKeys(d, m.Keys))), multiset(EntriesOf(m)));
    ReplayEntriesStep(initial, log, change);
    SupportOfSet(EntriesOf(RestrictKeys(d, m.Keys)));
    SupportOfSet(EntriesOf(m));
    EntriesOfMerge(d, m);
  }

  /** Merging `m` into `d` replaces `d`'s entries for the keys of `m` by the entries of `m`. */
  lemma EntriesOfMerge<K, V>(d: map<K, V>, m: map<K, V>)
    ensures EntriesOf(d + m) == EntriesOf(d) - EntriesOf(RestrictKeys(d, m.Keys)) + EntriesOf(m)
  {
    forall e ensures e in EntriesOf(d + m) <==> e in EntriesOf(d) - EntriesOf(RestrictKeys(d, m.Keys)) + EntriesOf(m) {
      EntriesOfMembership(d + m, e);
      EntriesOfMembership(d, e);
      EntriesOfMembership(m, e);
      EntriesOfMembership(RestrictKeys(d, m.Keys), e);
    }
  }

  /** `clear()`: the removal `Clear` fires leaves no entries. */
  lemma {:induction false} ClearKeepsReplay<K, V>(initial: set<Entry<K, V>>, log: seq<Change<K, V>>, d: map<K, V>)
    requires ReplayEntries(initial, log) == EntriesOf(d)
    ensures ReplayEntries(initial, log + [RemovalChange(multiset(EntriesOf(d)))]) == EntriesOf(map[])
  {
    ReplayEntriesStep(initial, log, RemovalChange(multiset(EntriesOf(d))));
    SupportOfSet(EntriesOf(d));
    var empty: map<K, V> := map[];
    assert EntriesOf(empty) == {};
  }

  /** The key view's copy `before` still holds the current value of every key of `keys` that `d` has. */
  ghost predicate SnapshotAgrees<K, V>(before: map<K, V>, d: map<K, V>, keys: set<K>) {
    forall k :: k in keys && k in d ==> Lookup(before, k) == Some(d[k])
  }

  /** With a current copy, removing the keys of `c` removes exactly the entries the key view reports for them. */
  lemma EntriesOfWithoutKeys<K, V>(d: map<K, V>, before: map<K, V>, c: seq<K>)
    requires SnapshotAgrees(before, d, Elems(c))
    ensures EntriesOf(d - Elems(c)) == EntriesOf(d) - Elems(KeyEntries(before, c))
  {
    forall e ensures e in EntriesOf(d - Elems(c)) <==> e in EntriesOf(d) - Elems(KeyEntries(before, c)) {
      EntriesOfMembership(d - Elems(c), e);
      EntriesOfMembership(d, e);
      if e.0 in c {
        var i :| 0 <= i < |c| && c[i] == e.0;
        assert KeyEntries(before, c)[i] == (e.0, Lookup(before, e.0));
      } else {
        assert e !in Elems(KeyEntries(before, c));
      }
    }
  }

  /**
   * `keySet().removeAll(c)`: when the view's copy is current on the keys that
   * go, what `KeyViewRemoveAll` fires turns `d`'s entries into those of
   * `d - Elems(c)`.
   */
  lemma {:induction false} KeyViewRemoveAllKeepsReplay<K, V>(initial: set<Entry<K, V>>, log: seq<Change<K, V>>, d: map<K, V>, before: map<K, V>, c: seq<K>)
    requires ReplayEntries(initial, log) == EntriesOf(d)
    requires SnapshotAgrees(before, d, Elems(c))
    ensures ReplayEntries(initial, log + FiredIf(!(d.Keys !! Elems(c)), RemovalChange(multiset(KeyEntries(before, c)))))
      == EntriesOf(d - Elems(c))
  {
    var change := RemovalChange(multiset(KeyEntries(before, c)));
    if d.Keys !! Elems(c) {
      ReplayEntriesNothing(initial, log, change);
      assert d - Elems(c) == d;
    } else {
      ReplayEntriesStep(initial, log, change);
      SupportOfSeq(KeyEntries(before, c));
      EntriesOfWithoutKeys(d, before, c);
    }
  }

  /** `keySet().remove(o)`: the single-key case of `keySet().removeAll`. */
  lemma KeyViewRemoveKeepsReplay<K, V>(initial: set<Entry<K, V>>, log: seq<Change<K, V>>, d: map<K, V>, before: map<K, V>, o: K)
    requires ReplayEntries(initial, log) == EntriesOf(d)
    requires o in d ==> Lookup(before, o) == Some(d[o])
    ensures ReplayEntries(initial, log + FiredIf(o in d, RemovalChange(multiset(KeyEntries(before, [o]))))) == EntriesOf(d - {o})
  {
    assert Elems([o]) == {o};
    KeyViewRemoveAllKeepsReplay(initial, log, d, before, [o]);
  }

  /** `keySet().retainAll(c)`: with the view's copy current on the lost keys, the fired removal leaves the retained entries. */
  lemma KeyViewRetainAllKeepsReplay<K, V>(initial: set<Entry<K, V>>, log: seq<Change<K, V>>, d: map<K, V>, before: map<K, V>, c: seq<K>, lost: seq<K>)
    requires ReplayEntries(initial, log) == EntriesOf(d)
    requires Enumerates(lost, d.Keys - Elems(c)) && SnapshotAgrees(before, d, d.Keys - Elems(c))
    ensures ReplayEntries(initial, log + FiredIf(!(d.Keys <= Elems(c)), RemovalChange(multiset(KeyEntries(before, lost)))))
      == EntriesOf(RestrictKeys(d, Elems(c)))
  {
    assert Elems(lost) == d.Keys - Elems(c) by {
      EnumeratesFacts(lost, d.Keys - Elems(c));
    }
    assert (d.Keys <= Elems(c)) == (d.Keys !! Elems(lost));
    assert d - Elems(lost) == RestrictKeys(d, Elems(c)) by {
      forall k ensures k in d - Elems(lost) <==> k in RestrictKeys(d, Elems(c)) {
        assert k in Elems(lost) <==> k in d && k !in Elems(c);
      }
    }
    KeyViewRemoveAllKeepsReplay(initial, log, d, before, lost);
  }

  /** `keySet().clear()`: with the view's copy current, the fired removal leaves no entries. */
  lemma KeyViewClearKeepsReplay<K, V>(initial: set<Entry<K, V>>, log: seq<Change<K, V>>, d: map<K, V>, before: map<K, V>, removed: seq<K>)
    requires ReplayEntries(initial, log) == EntriesOf(d)
    requires Enumerates(removed, d.Keys) && SnapshotAgrees(before, d, d.Keys)
    ensures ReplayEntries(initial, log + FiredIf(d != map[], RemovalChange(multiset(KeyEntries(before, removed))))) == EntriesOf(map[])
  {
    EnumeratesFacts(removed, d.Keys);
    KeyViewRemoveAllKeepsReplay(initial, log, d, before, removed);
    assert d - Elems(removed) == map[];
    assert d != map[] <==> !(d.Keys !! Elems(removed)) by {
      if d != map[] {
        var k :| k in d;
        assert k in d.Keys * Elems(removed);
      }
    }
  }

  /**
   * A stale view: when the view's copy no longer holds the current value of a
   * present key `o` (the key was put again after `keySet()`), removing `o`
   * through the view fires an entry the map does not have, and a listener
   * keeps `o`'s entry although the map no longer does.
   */
  lemma KeyViewStaleSnapshotDesyncs<K, V>(initial: set<Entry<K, V>>, log: seq<Change<K, V>>, d: map<K, V>, before: map<K, V>, o: K)
    requires ReplayEntries(initial, log) == EntriesOf(d)
    requires o in d && Lookup(before, o) != Some(d[o])
    ensures ReplayEntries(initial, log + [RemovalChange(multiset(KeyEntries(before, [o])))]) != EntriesOf(d - {o})
  {
    var change := RemovalChange(multiset(KeyEntries(before, [o])));
    ReplayEntriesStep(initial, log, change);
    SupportOfSeq(KeyEntries(before, [o]));
    assert KeyEntries(before, [o]) == [(o, Lookup(before, o))];
    EntriesOfMembership(d, (o, Some(d[o])));
    assert (o, Some(d[o])) in ReplayEntries(initial, log + [change]);
    EntriesOfMembership(d - {o}, (o, Some(d[o])));
  }

  /** `entrySet().remove(e)`: what `EntryViewRemove` fires takes `e` out of the entries. */
  lemma {:induction false} EntryViewRemoveKeepsReplay<K, V>(initial: set<Entry<K, V>>, log: seq<Change<K, V>>, d: map<K, V>, e: Entry<K, V>)
    requires ReplayEntries(initial, log) == EntriesOf(d)
    ensures ReplayEntries(initial, log + FiredIf(e in EntriesOf(d), RemovalChange(multiset{e})))
      == EntriesOf(if e in EntriesOf(d) then d - {e.0} else d)
  {
    var change := RemovalChange(multiset{e});
    if e !in EntriesOf(d) {
      ReplayEntriesNothing(initial, log, change);
    } else {
      ReplayEntriesStep(initial, log, change);
      SupportSingleton(e);
      forall x ensures x in EntriesOf(d - {e.0}) <==> x in ApplyEntries(EntriesOf(d), change) {
        EntriesOfMembership(d - {e.0}, x);
        EntriesOfMembership(d, x);
        EntriesOfMembership(d, e);
      }
    }
  }

  /** `entrySet().removeAll(c)`: all of `c` fired, present or not, leaves the entries outside `c`. */
  lemma {:induction false} EntryViewRemoveAllKeepsReplay<K, V>(initial: set<Entry<K, V>>, log: seq<Change<K, V>>, d: map<K, V>, c: seq<Entry<K, V>>)
    requires ReplayEntries(initial, log) == EntriesOf(d)
    ensures ReplayEntries(initial, log + FiredIf(!(EntriesOf(d) !! Elems(c)), RemovalChange(multiset(c))))
      == EntriesOf(EntriesWithout(d, c))
  {
    var change := RemovalChange(multiset(c));
    assert EntriesOf(EntriesWithout(d, c)) == EntriesOf(d) - Elems(c) by {
      forall x ensures x in EntriesOf(EntriesWithout(d, c)) <==> x in EntriesOf(d) - Elems(c) {
        EntriesOfMembership(EntriesWithout(d, c), x);
        EntriesOfMembership(d, x);
      }
    }
    if EntriesOf(d) !! Elems(c) {
      ReplayEntriesNothing(initial, log, change);
    } else {
      ReplayEntriesStep(initial, log, change);
      SupportOfSeq(c);
    }
  }

  /** `entrySet().retainAll(c)`: the fired removal of the entries outside `c` leaves the entries in `c`. */
  lemma {:induction false} EntryViewRetainAllKeepsReplay<K, V>(initial: set<Entry<K, V>>, log: seq<Change<K, V>>, d: map<K, V>, c: seq<Entry<K, V>>)
    requires ReplayEntries(initial, log) == EntriesOf(d)
    ensures ReplayEntries(initial, log + FiredIf(!(EntriesOf(d) <= Elems(c)), RemovalChange(multiset(EntriesOf(d) - Elems(c)))))
      == EntriesOf(EntriesWithin(d, c))
  {
    var change := RemovalChange(multiset(EntriesOf(d) - Elems(c)));
    assert EntriesOf(EntriesWithin(d, c)) == EntriesOf(d) * Elems(c) by {
      forall x ensures x in EntriesOf(EntriesWithin(d, c)) <==> x in EntriesOf(d) * Elems(c) {
        EntriesOfMembership(EntriesWithin(d, c), x);
        EntriesOfMembership(d, x);
      }
    }
    if EntriesOf(d) <= Elems(c) {
      ReplayEntriesNothing(initial, log, change);
    } else {
      ReplayEntriesStep(initial, log, change);
      SupportOfSet(EntriesOf(d) - Elems(c));
    }
  }

  /** `entrySet().clear()`: the fired removal of every entry, if there were any, leaves none. */
  lemma {:induction false} EntryViewClearKeepsReplay<K, V>(initial: set<Entry<K, V>>, log: seq<Change<K, V>>, d: map<K, V>)
    requires ReplayEntries(initial, log) == EntriesOf(d)
    ensures ReplayEntries(initial, log + FiredIf(d != map[], RemovalChange(multiset(EntriesOf(d))))) == EntriesOf(map[])
  {
    var empty: map<K, V> := map[];
    assert EntriesOf(empty) == {};
    if d == map[] {
      ReplayEntriesNothing(initial, log, RemovalChange(multiset(EntriesOf(d))));
      assert EntriesOf(d) == {};
    } else {
      ClearKeepsReplay(initial, log, d);
    }
  }

  /**
   * The value view as written: it changes the delegate and fires nothing, so
   * a listener that was in step with the map no longer is.
   */
  lemma SilentChangeDesyncs<K, V>(initial: set<Entry<K, V>>, log: seq<Change<K, V>>, d: map<K, V>, after: map<K, V>)
    requires ReplayEntries(initial, log) == EntriesOf(d) && after != d
    ensures ReplayEntries(initial, log) != EntriesOf(after)
  {
    if EntriesOf(d) == EntriesOf(after) {
      EntriesOfInjective(d, after);
    }
  }
}

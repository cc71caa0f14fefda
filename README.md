# Observable containers, modelled in Dafny

This project models the observable-container core of `com.github.fommil`. It also
models two smaller helpers that live beside it.

- `ObservableCollection` wraps a mutable collection. Each mutator works on the
  wrapped delegate, then fires one `Change` to the registered listeners. A
  `Change` holds the elements added, the elements removed, and the two flags
  `wasAdded` and `wasRemoved`. When the delegate reports that it did not change,
  no `Change` is fired.
- `ObservableSet` is the same wrapper over a set delegate.
- `ObservableMap` does the same for a map, with `(key, value)` entries. Its key,
  value and entry views are observable collections whose bridge listeners
  re-fire their changes as map changes, or refuse them.
- `Convenience` provides `upperOuter` (the loop over the pairs of a list's upper
  triangle), `NO_EMPTIES`, `isSubset` and `disjointify` (merging the sets that
  share an entry).
- `VetoableChangeListenerAdapter` is a JavaBeans vetoable-change listener. It
  asks an abstract `isVetoed` about each proposed change and ignores the
  "rollback" event that `VetoableChangeSupport` sends after a veto.

The files:

- `wrappers.dfy`: `Option` (Java's `null`), `Result`/`Outcome` (a return or a
  thrown exception) and `Failure` (the exceptions).
- `lists.dfy`: what the `ArrayList` and `HashSet` delegates do
  (`Without` = `removeAll`, `Within` = `retainAll`, `RemoveFirst` = `remove`),
  plus listings of sets.
- `observable_collection.dfy`: the `Change` value, its builders, and class
  `ObservableCollection` over a `seq` delegate (an `ArrayList`).
- `observable_set.dfy`: class `ObservableSet` over a `set` delegate (a `HashSet`).
- `observable_map.dfy`: the map `Change`, class `ObservableMap` over a `map`
  delegate (a `HashMap`), and the three views as methods of the map.
- `convenience.dfy`: the `Convenience` helpers; `disjointify` works in place on an
  array of sets.
- `vetoable.dfy`: the adapter as a class with its one field `last`.
- `scenarios.dfy`: the unit tests of the three containers, as client methods
  whose contracts state what each test asserts.

How the model is built:

- The listener registry is an `events` field: the list of every change fired,
  in order. Every registered listener receives exactly that sequence.
- The relation between a log of changes and the container a listener can
  rebuild from it is a function:
  - `Replay` for sets;
  - `ReplayEntries` for maps;
  - `ReplayTally` for lists, where a listener can only count occurrences.
- For each mutator, a `...KeepsReplay` or `...KeepsTally` lemma proves that the
  change the method fires takes the listener from the old contents to the new
  ones. Where that fails, a lemma shows the failure.
- The list class holds this as `Tallied()`: a listener counting occurrences
  from the wrapped contents counts the current list. Every list mutator keeps
  it, except `removeAll` when the list holds an element of its argument more
  often than the argument names it.
- The set and map classes hold this as `InSync()`: the wrapping listener's
  replay equals the current contents. The constructors and factories establish
  it. Every set and map mutator keeps it, except the as-written values view.
  The key view keeps it only while its snapshot is current.
- An iterator is state on its container: an open flag, a cursor or remaining
  set, the last element returned, and whether `remove()` is allowed. A mutation
  that would bump Java's `modCount` closes it, and using it afterwards returns
  `ConcurrentModification`.

Two behaviours of the map views deserve a note.

- **Key view snapshot.** `keySet()` copies the map into `before` when it is
  called (`ObservableMap.java:225`). The key view's bridge listener pairs each
  removed key with its value in that copy. A listener therefore hears the
  right values only while the map still agrees with the copy on those keys.
  `ObservableMap.KeyViewStaleSnapshotDesyncs` shows what a stale copy does to
  a listener.
- **Values view.** The bridge listener of `values()` refuses every change with
  "Changes to Map.values() are not supported by ObservableMap"
  (`ObservableMap.java:250`). But `HashMap.values()` has already removed the
  mapping when the listener runs (`ObservableMap.java:244-254`), so the map
  changes and no map listener hears of it. See "## Findings".

## Model

| member | source | states |
|---|---|---|
| Lists.Without | src/main/java/com/github/fommil/collections/ObservableCollection.java:236 | `removeAll` keeps exactly the elements of the list that the argument lacks, and never lengthens it |
| Lists.Within | src/main/java/com/github/fommil/collections/ObservableCollection.java:246 | `retainAll` keeps exactly the elements of the list that the argument has, and never lengthens it |
| Lists.RemoveFirst | src/main/java/com/github/fommil/collections/ObservableCollection.java:216 | `remove(o)` on a list drops one occurrence of `o` when there is one (one shorter, one fewer `o`), and otherwise leaves the list as it was |
| Lists.RemoveFirstAt | src/main/java/com/github/fommil/collections/ObservableCollection.java:216 | the occurrence `remove(o)` drops is the first one: the list loses the element at a position holding `o` with no `o` before it, and nothing else |
| Lists.FirstIndex | src/main/java/com/github/fommil/collections/ObservableCollection.java:216 | when `o` is in the list, the position `remove(o)` deletes holds `o`, no earlier position does, and the rest of the list is kept on both sides |
| Lists.WithoutSnoc | src/main/java/com/github/fommil/collections/ObservableCollection.java:236 | `removeAll` keeps the survivors in list order: one more element at the end survives, at the end, exactly when `c` lacks it |
| Lists.WithinSnoc | src/main/java/com/github/fommil/collections/ObservableCollection.java:246 | `retainAll` keeps the survivors in list order: one more element at the end is kept, at the end, exactly when `c` holds it |
| Lists.WithoutUnchanged | src/main/java/com/github/fommil/collections/ObservableCollection.java:236 | `removeAll(c)` leaves the list unchanged if and only if the list and `c` share no element, so its boolean result means "something was removed" |
| Lists.WithinUnchanged | src/main/java/com/github/fommil/collections/ObservableCollection.java:246 | `retainAll(c)` leaves the list unchanged if and only if every element is in `c` |
| Lists.WithinWithoutPartition | src/main/java/com/github/fommil/collections/ObservableCollection.java:244-257 | the elements `retainAll` keeps and the `lost` list it reports together are exactly the former contents, counted with multiplicity |
| Lists.WithoutCount | src/main/java/com/github/fommil/collections/ObservableCollection.java:235-241 | after `removeAll(c)`, an element of `c` occurs 0 times, and any other element occurs as often as before |
| Lists.Enumerate | src/main/java/com/github/fommil/collections/ObservableCollection.java:245 | the snapshot `Lists.newArrayList` takes of a set lists each element exactly once |
| ObservableCollection.AdditionChange | src/main/java/com/github/fommil/collections/ObservableCollection.java:162-168 | an addition change carries the added elements and nothing removed, with `wasAdded` set and `wasRemoved` clear |
| ObservableCollection.RemovalChange | src/main/java/com/github/fommil/collections/ObservableCollection.java:170-176 | a removal change carries the removed elements and nothing added, with only `wasRemoved` set |
| ObservableCollection.LostElements | src/main/java/com/github/fommil/collections/ObservableCollection.java:247-252 | the loop over the snapshot collects exactly the snapshot's elements that `c` lacks, in snapshot order |
| ObservableCollection.ObservableCollection.constructor | src/main/java/com/github/fommil/collections/ObservableCollection.java:65-69 | a new wrapper holds the given delegate, has fired nothing, and has no open iterator; a listener registered now counts exactly the delegate's elements |
| ObservableCollection.ObservableCollection.NewObservableCollection | src/main/java/com/github/fommil/collections/ObservableCollection.java:76-79 | a null collection is rejected with NullPointerException; otherwise the result is a fresh wrapper over it, with a counting listener in step |
| ObservableCollection.ObservableCollection.Add | src/main/java/com/github/fommil/collections/ObservableCollection.java:205-211 | a list always accepts: `e` is appended, `true` is returned, and exactly the addition of `[e]` is fired. A counting listener that was in step before the call is still in step after it |
| ObservableCollection.ObservableCollection.Remove | src/main/java/com/github/fommil/collections/ObservableCollection.java:215-221 | returns whether `o` was present; the first occurrence is removed; the removal of `[o]` is fired exactly when something was removed. A counting listener that was in step before the call is still in step after it |
| ObservableCollection.ObservableCollection.RemovePresent | src/main/java/com/github/fommil/collections/ObservableCollection.java:215-221 | the changing half of `remove(o)` when `o` is present: the first occurrence goes, the removal of `[o]` is fired, the iteration ends, and a counting listener stays in step |
| ObservableCollection.ObservableCollection.AddAll | src/main/java/com/github/fommil/collections/ObservableCollection.java:225-231 | `c` is appended; it returns `true` and fires the addition of `c` exactly when `c` is non-empty. A counting listener that was in step before the call is still in step after it |
| ObservableCollection.ObservableCollection.RemoveAll | src/main/java/com/github/fommil/collections/ObservableCollection.java:235-241 | every occurrence of `c`'s elements is removed; when something went, the removal change carries the argument `c` verbatim, absent elements included. A counting listener in step before the call stays in step when `c` names each of its elements at least as often as the list holds it |
| ObservableCollection.ObservableCollection.RetainAll | src/main/java/com/github/fommil/collections/ObservableCollection.java:244-257 | only `c`'s elements are kept; when something went, the removal change carries the lost elements of the pre-call snapshot, in order. A counting listener that was in step before the call is still in step after it |
| ObservableCollection.ObservableCollection.Lose | src/main/java/com/github/fommil/collections/ObservableCollection.java:246-254 | the changing half of `retainAll(c)`: only `c`'s elements are kept, the listed lost elements are fired, the iteration ends, and a counting listener stays in step |
| ObservableCollection.ObservableCollection.Clear | src/main/java/com/github/fommil/collections/ObservableCollection.java:260-266 | the list is emptied; the removal of the full former contents is fired only if they were non-empty. A counting listener that was in step before the call is still in step after it |
| ObservableCollection.ObservableCollection.Iterator | src/main/java/com/github/fommil/collections/ObservableCollection.java:180-181 | opens a fresh iteration at the start of the list, changing neither the contents nor the events. A counting listener that was in step before the call is still in step after it |
| ObservableCollection.ObservableCollection.HasNext | src/main/java/com/github/fommil/collections/ObservableCollection.java:186-188 | true exactly when the cursor has not reached the end |
| ObservableCollection.ObservableCollection.Next | src/main/java/com/github/fommil/collections/ObservableCollection.java:191-194 | returns the element at the cursor, records it as `current` and advances; fails with NoSuchElement at the end, or with ConcurrentModification after an outside change. A counting listener that was in step before the call is still in step after it |
| ObservableCollection.ObservableCollection.IteratorRemove | src/main/java/com/github/fommil/collections/ObservableCollection.java:196-200 | deletes the element `next()` last returned and fires its single-element removal; fails with IllegalState when there is no such element, or with ConcurrentModification after an outside change, leaving everything unchanged. A counting listener that was in step before the call is still in step after it |
| ObservableCollection.ObservableCollection.RemoveReturned | src/main/java/com/github/fommil/collections/ObservableCollection.java:196-200 | the changing half of the iterator's `remove()`: the element before the cursor goes, its single-element removal is fired, the cursor steps back, and a counting listener stays in step |
| ObservableCollection.AddKeepsTally | src/main/java/com/github/fommil/collections/ObservableCollection.java:205-211 | a listener counting occurrences stays in step with `add` |
| ObservableCollection.RemoveKeepsTally | src/main/java/com/github/fommil/collections/ObservableCollection.java:215-221 | a listener counting occurrences stays in step with `remove` |
| ObservableCollection.AddAllKeepsTally | src/main/java/com/github/fommil/collections/ObservableCollection.java:225-231 | a listener counting occurrences stays in step with `addAll` |
| ObservableCollection.RetainAllKeepsTally | src/main/java/com/github/fommil/collections/ObservableCollection.java:244-257 | a listener counting occurrences stays in step with `retainAll`, because the lost list has every lost occurrence |
| ObservableCollection.RemoveAllKeepsTally | src/main/java/com/github/fommil/collections/ObservableCollection.java:235-241 | when `c` names each of its elements at least as often as the list holds it, the verbatim `c` that `removeAll` fires keeps a counting listener in step |
| ObservableCollection.ClearKeepsTally | src/main/java/com/github/fommil/collections/ObservableCollection.java:260-266 | a listener counting occurrences is left with nothing after `clear` |
| ObservableCollection.IteratorRemoveKeepsTally | src/main/java/com/github/fommil/collections/ObservableCollection.java:196-200 | a listener counting occurrences stays in step with the iterator's `remove` |
| ObservableCollection.RemoveAllUndercounts | src/main/java/com/github/fommil/collections/ObservableCollection.java:130-134 | the bulk-update caveat on a list: when the list holds an element of `c` more often than `c` names it, a counting listener is left out of step by `removeAll` |
| ObservableCollection.ObservableCollection.Equals | src/main/java/com/github/fommil/collections/ObservableCollection.java:68 | wrappers are compared only by their delegates, with the list's own `equals`: they are equal if and only if the lists have the same length and equal elements at each position, whatever the wrappers have fired |
| ObservableSet.AddKeepsReplay | src/main/java/com/github/fommil/collections/ObservableCollection.java:205-211 | what `add` fires on a set takes a replaying listener from `d` to `d + {e}` |
| ObservableSet.RemoveKeepsReplay | src/main/java/com/github/fommil/collections/ObservableCollection.java:215-221 | what `remove` fires takes a replaying listener from `d` to `d - {o}` |
| ObservableSet.AddAllKeepsReplay | src/main/java/com/github/fommil/collections/ObservableCollection.java:225-231 | `addAll` reports all of `c`, duplicates included, and a replaying listener still reaches `d` plus `c`'s elements |
| ObservableSet.RemoveAllKeepsReplay | src/main/java/com/github/fommil/collections/ObservableCollection.java:235-241 | `removeAll` reports all of `c`, absent elements included, and a replaying listener still reaches `d` minus `c`'s elements |
| ObservableSet.RetainAllKeepsReplay | src/main/java/com/github/fommil/collections/ObservableCollection.java:244-257 | the lost-element listing that `retainAll` fires takes a replaying listener to the retained elements |
| ObservableSet.ClearKeepsReplay | src/main/java/com/github/fommil/collections/ObservableCollection.java:260-266 | the listing that `clear` fires leaves a replaying listener with the empty set |
| ObservableSet.LostListing | src/main/java/com/github/fommil/collections/ObservableCollection.java:245-252 | the snapshot-and-filter loop over a set lists each lost element exactly once |
| ObservableSet.ObservableSet.constructor | src/main/java/com/github/fommil/collections/ObservableSet.java:47-49 | a new set wrapper holds the given set, has fired nothing, and its listener starts in sync |
| ObservableSet.ObservableSet.NewObservableSet | src/main/java/com/github/fommil/collections/ObservableSet.java:26-29 | a null set is rejected with NullPointerException; otherwise the result is a fresh wrapper over it |
| ObservableSet.ObservableSet.NewObservableHashSet | src/main/java/com/github/fommil/collections/ObservableSet.java:35-37 | a fresh wrapper over an empty set |
| ObservableSet.ObservableSet.NewObservableTreeSet | src/main/java/com/github/fommil/collections/ObservableSet.java:43-45 | a fresh wrapper over an empty set |
| ObservableSet.ObservableSet.Add | src/main/java/com/github/fommil/collections/ObservableCollection.java:205-211 | returns whether `e` was absent; `e` is in the set afterwards; the addition of `[e]` is fired only when it was absent. A listener that was in step before the call is still in step after it. |
| ObservableSet.ObservableSet.Remove | src/main/java/com/github/fommil/collections/ObservableCollection.java:215-221 | returns whether `o` was present; `o` is gone afterwards; its removal is fired only when it was present. A listener that was in step before the call is still in step after it. |
| ObservableSet.ObservableSet.AddAll | src/main/java/com/github/fommil/collections/ObservableCollection.java:225-231 | the set gains `c`'s elements; it fires the addition of `c` verbatim exactly when some element was new. A listener that was in step before the call is still in step after it. |
| ObservableSet.ObservableSet.RemoveAll | src/main/java/com/github/fommil/collections/ObservableCollection.java:235-241 | the set loses `c`'s elements; it fires the removal of `c` verbatim exactly when some element was present. A listener that was in step before the call is still in step after it. |
| ObservableSet.ObservableSet.RetainAll | src/main/java/com/github/fommil/collections/ObservableCollection.java:244-257 | the set keeps only `c`'s elements; it fires a listing of exactly the lost elements, and only when there were some. A listener that was in step before the call is still in step after it. |
| ObservableSet.ObservableSet.Lose | src/main/java/com/github/fommil/collections/ObservableCollection.java:246-254 | the changing half of `retainAll`: the set keeps only `c`'s elements and fires the listing of the lost ones, keeping a listener in step |
| ObservableSet.ObservableSet.Clear | src/main/java/com/github/fommil/collections/ObservableCollection.java:260-266 | the set is emptied; a listing of the former elements is fired only if there were some. A listener that was in step before the call is still in step after it. |
| ObservableSet.ObservableSet.Iterator | src/main/java/com/github/fommil/collections/ObservableCollection.java:180-181 | opens a fresh iteration over all current elements. A listener that was in step before the call is still in step after it. |
| ObservableSet.ObservableSet.HasNext | src/main/java/com/github/fommil/collections/ObservableCollection.java:186-188 | true exactly when some element has not yet been returned |
| ObservableSet.ObservableSet.Next | src/main/java/com/github/fommil/collections/ObservableCollection.java:191-194 | returns some element not yet returned and records it as `current`; fails with NoSuchElement when none is left, or with ConcurrentModification after an outside change. A listener that was in step before the call is still in step after it. |
| ObservableSet.ObservableSet.IteratorRemove | src/main/java/com/github/fommil/collections/ObservableCollection.java:196-200 | deletes the element `next()` last returned and fires its single-element removal; fails with IllegalState or ConcurrentModification, leaving everything unchanged. A listener that was in step before the call is still in step after it. |
| ObservableSet.ObservableSet.Equals | src/main/java/com/github/fommil/collections/ObservableCollection.java:68 | set wrappers are compared only by their delegates, with the set's own `equals`: they are equal if and only if the sets have the same size and every element of this one is in the other, which holds exactly when the two sets are equal |
| ObservableMap.AdditionChange | src/main/java/com/github/fommil/collections/ObservableMap.java:154-156 | a map addition change carries the added entries and nothing removed, with only `wasAdded` set |
| ObservableMap.RemovalChange | src/main/java/com/github/fommil/collections/ObservableMap.java:162-164 | a map removal change carries the removed entries and nothing added, with only `wasRemoved` set |
| ObservableMap.UpdateChange | src/main/java/com/github/fommil/collections/ObservableMap.java:170-172 | an update change carries both parts and sets both flags |
| ObservableMap.RestrictKeys | src/main/java/com/github/fommil/collections/ObservableMap.java:203-207 | the `oldEntries` map of `putAll`: exactly the keys of both the map and the given key set, each with its value in the map |
| ObservableMap.EntriesWithout | src/main/java/com/github/fommil/collections/ObservableMap.java:257-270 | `entrySet().removeAll(c)` leaves exactly the entries of the map that `c` does not contain, with no key added |
| ObservableMap.EntriesWithin | src/main/java/com/github/fommil/collections/ObservableMap.java:257-270 | `entrySet().retainAll(c)` leaves exactly the entries of the map that `c` contains, with no key added |
| ObservableMap.ValuesWithout | src/main/java/com/github/fommil/collections/ObservableMap.java:244-254 | `values().removeAll(c)` keeps every mapping whose value `c` lacks and drops the rest; the values left are the old values minus those in `c` |
| ObservableMap.ValuesWithin | src/main/java/com/github/fommil/collections/ObservableMap.java:244-254 | `values().retainAll(c)` keeps every mapping whose value `c` has and drops the rest; the values left are the old values that are in `c` |
| ObservableMap.KeyEntries | src/main/java/com/github/fommil/collections/ObservableMap.java:232-236 | the key view pairs each removed key, in order, with its value in the snapshot, or with null when the snapshot lacks the key |
| ObservableMap.BridgeKeyEntries | src/main/java/com/github/fommil/collections/ObservableMap.java:232-236 | the bridge listener's loop builds exactly those pairs |
| ObservableMap.OldEntries | src/main/java/com/github/fommil/collections/ObservableMap.java:203-208 | the loop in `putAll` collects exactly the current mappings of the keys of `m` that are already present |
| ObservableMap.ObservableMap.constructor | src/main/java/com/github/fommil/collections/ObservableMap.java:29 | a new map wrapper holds the given map, has fired nothing, and its listener starts in sync |
| ObservableMap.ObservableMap.NewObservableMap | src/main/java/com/github/fommil/collections/ObservableMap.java:41-43 | a fresh wrapper over the given map, with no null check |
| ObservableMap.ObservableMap.NewObservableHashMap | src/main/java/com/github/fommil/collections/ObservableMap.java:50-52 | a fresh wrapper over an empty map |
| ObservableMap.ObservableMap.NewObservableTreeMap | src/main/java/com/github/fommil/collections/ObservableMap.java:59-61 | a fresh wrapper over an empty map |
| ObservableMap.ObservableMap.Put | src/main/java/com/github/fommil/collections/ObservableMap.java:175-187 | returns the old value; `k` maps to `v` afterwards; it always fires: an addition of `(k, v)` when the key was absent, otherwise an update from `(k, old)` to `(k, v)`, even when `old == v`. A listener that was in step before the call is still in step after it. |
| ObservableMap.ObservableMap.Remove | src/main/java/com/github/fommil/collections/ObservableMap.java:191-198 | returns the old value; the key is gone; the removal of `(k, old)` is fired only when the key was present. A listener that was in step before the call is still in step after it. |
| ObservableMap.ObservableMap.PutAll | src/main/java/com/github/fommil/collections/ObservableMap.java:202-212 | the map gains `m`'s mappings; it always fires one update whose removed part is the replaced mappings and whose added part is all of `m`. A listener that was in step before the call is still in step after it. |
| ObservableMap.ObservableMap.Clear | src/main/java/com/github/fommil/collections/ObservableMap.java:215-219 | the map is emptied; the removal of all former entries is fired, even when there were none. A listener that was in step before the call is still in step after it. |
| ObservableMap.ObservableMap.KeySet | src/main/java/com/github/fommil/collections/ObservableMap.java:222-225 | the key view's snapshot is the map as it is when `keySet()` is called |
| ObservableMap.ObservableMap.KeyViewAdd | src/main/java/com/github/fommil/collections/ObservableMap.java:229-231 | adding a key through the key view is refused with UnsupportedOperationException |
| ObservableMap.ObservableMap.KeyViewAddAll | src/main/java/com/github/fommil/collections/ObservableMap.java:229-231 | adding keys through the key view is refused, except that an empty argument returns `false` |
| ObservableMap.ObservableMap.KeyViewRemove | src/main/java/com/github/fommil/collections/ObservableMap.java:226-238 | removing a present key deletes its mapping and fires a map removal of the key paired with its snapshot value. When the view's copy still holds the current values of the keys that go, a listener that was in step before the call is still in step after it. |
| ObservableMap.ObservableMap.KeyViewRemoveAll | src/main/java/com/github/fommil/collections/ObservableMap.java:226-238 | removes the keys of `c`; when some was present, it fires a map removal that pairs every key of `c` with its snapshot value. When the view's copy still holds the current values of the keys that go, a listener that was in step before the call is still in step after it. |
| ObservableMap.ObservableMap.KeyViewRetainAll | src/main/java/com/github/fommil/collections/ObservableMap.java:226-238 | keeps only the keys in `c`; when some went, it fires the lost keys paired with their snapshot values. When the view's copy still holds the current values of the keys that go, a listener that was in step before the call is still in step after it. |
| ObservableMap.ObservableMap.KeyViewLose | src/main/java/com/github/fommil/collections/ObservableMap.java:226-238 | the changing half of the key view's `retainAll`: the lost keys go and are fired with their snapshot values, keeping a listener in step when the snapshot is current |
| ObservableMap.ObservableMap.KeyViewClear | src/main/java/com/github/fommil/collections/ObservableMap.java:226-238 | empties the map; unless it was already empty, it fires every former key paired with its snapshot value. When the view's copy still holds the current values of the keys that go, a listener that was in step before the call is still in step after it. |
| ObservableMap.ObservableMap.KeyViewEmpty | src/main/java/com/github/fommil/collections/ObservableMap.java:226-238 | the changing half of the key view's `clear`: every key goes and is fired with its snapshot value, keeping a listener in step when the snapshot is current |
| ObservableMap.ObservableMap.EntryViewAdd | src/main/java/com/github/fommil/collections/ObservableMap.java:263-265 | adding an entry through the entry view is refused with UnsupportedOperationException |
| ObservableMap.ObservableMap.EntryViewAddAll | src/main/java/com/github/fommil/collections/ObservableMap.java:263-265 | adding entries through the entry view is refused, except that an empty argument returns `false` |
| ObservableMap.ObservableMap.EntryViewRemove | src/main/java/com/github/fommil/collections/ObservableMap.java:257-270 | removing a present entry deletes that mapping and fires that entry as a map removal; any other entry changes nothing. A listener that was in step before the call is still in step after it. |
| ObservableMap.ObservableMap.EntryViewRemoveAll | src/main/java/com/github/fommil/collections/ObservableMap.java:257-270 | removes the entries in `c`; when some was present, it forwards the argument `c` verbatim as a map removal. A listener that was in step before the call is still in step after it. |
| ObservableMap.ObservableMap.EntryViewRetainAll | src/main/java/com/github/fommil/collections/ObservableMap.java:257-270 | keeps only the entries in `c`; when some went, it forwards exactly the lost entries as a map removal. A listener that was in step before the call is still in step after it. |
| ObservableMap.ObservableMap.EntryViewClear | src/main/java/com/github/fommil/collections/ObservableMap.java:257-270 | empties the map; unless it was already empty, it fires all former entries as a map removal. A listener that was in step before the call is still in step after it. |
| ObservableMap.ObservableMap.ValuesAdd | src/main/java/com/github/fommil/collections/ObservableMap.java:244-254 | adding through the values view is refused |
| ObservableMap.ObservableMap.ValuesAddAll | src/main/java/com/github/fommil/collections/ObservableMap.java:244-254 | adding through the values view is refused, except that an empty argument returns `false` |
| ObservableMap.ObservableMap.ValuesRemove | src/main/java/com/github/fommil/collections/ObservableMap.java:244-254 | as written: an absent value returns `false`; a present value first loses one mapping holding it, then the call fails with UnsupportedOperationException; no map change is fired either way |
| ObservableMap.ObservableMap.ValuesRemoveAll | src/main/java/com/github/fommil/collections/ObservableMap.java:244-254 | as written: the mappings whose values are in `c` are removed and none is reported; the call fails whenever something went |
| ObservableMap.ObservableMap.ValuesRetainAll | src/main/java/com/github/fommil/collections/ObservableMap.java:244-254 | as written: only the mappings whose values are in `c` are kept and none is reported; the call fails whenever something went |
| ObservableMap.ObservableMap.ValuesClear | src/main/java/com/github/fommil/collections/ObservableMap.java:244-254 | as written: the map is emptied and nothing is reported; the call fails unless the map was already empty |
| ObservableMap.ObservableMap.ValuesRemoveGuarded | src/main/java/com/github/fommil/collections/ObservableMap.java:244-254 | corrected: refused if and only if some key maps to `o`, which is exactly when the as-written call would remove a mapping, and any such removal changes the map; otherwise `false`; the map, the events and a listener's view stay as they were |
| ObservableMap.ObservableMap.ValuesRemoveAllGuarded | src/main/java/com/github/fommil/collections/ObservableMap.java:244-254 | corrected: refused if and only if the as-written result `ValuesWithout(delegate, c)` differs from the map; otherwise `false`; the map, the events and a listener's view stay as they were |
| ObservableMap.ObservableMap.ValuesRetainAllGuarded | src/main/java/com/github/fommil/collections/ObservableMap.java:244-254 | corrected: refused if and only if the as-written result `ValuesWithin(delegate, c)` differs from the map; otherwise `false`; the map, the events and a listener's view stay as they were |
| ObservableMap.ObservableMap.ValuesClearGuarded | src/main/java/com/github/fommil/collections/ObservableMap.java:244-254 | corrected: refused if and only if emptying the map, as the as-written call does, would change it; the map, the events and a listener's view stay as they were |
| ObservableMap.ValuesWithoutUnchanged | src/main/java/com/github/fommil/collections/ObservableMap.java:244-254 | `values().removeAll(c)` leaves the map unchanged if and only if no value of the map is in `c` |
| ObservableMap.ValuesWithinUnchanged | src/main/java/com/github/fommil/collections/ObservableMap.java:244-254 | `values().retainAll(c)` leaves the map unchanged if and only if every value of the map is in `c` |
| ObservableMap.ValuesRemoveChanges | src/main/java/com/github/fommil/collections/ObservableMap.java:244-254 | `o` is a value of the map if and only if some key maps to it, and taking out any mapping changes the map |
| ObservableMap.EntriesOfMembership | src/main/java/com/github/fommil/collections/ObservableMap.java:216 | an entry is in the map's entry set if and only if its key is mapped to its value |
| ObservableMap.EntriesOfSize | src/main/java/com/github/fommil/collections/ObservableMap.java:216-218 | the entry set has as many entries as the map has keys, so `clear` reports `size()` entries |
| ObservableMap.EntriesOfInjective | src/main/java/com/github/fommil/collections/ObservableMap.java:216 | maps with the same entry set are the same map, so a listener that rebuilds the entries rebuilds the map |
| ObservableMap.PutKeepsReplay | src/main/java/com/github/fommil/collections/ObservableMap.java:175-187 | the addition or update that `put` fires takes a replaying listener from the entries of `d` to those of `d[k := v]` |
| ObservableMap.RemoveKeepsReplay | src/main/java/com/github/fommil/collections/ObservableMap.java:191-198 | what `remove` fires takes a replaying listener to the entries without `k` |
| ObservableMap.PutAllKeepsReplay | src/main/java/com/github/fommil/collections/ObservableMap.java:202-212 | the update `putAll` fires (replaced mappings out, all of `m` in) takes a replaying listener to the entries of `d + m` |
| ObservableMap.ClearKeepsReplay | src/main/java/com/github/fommil/collections/ObservableMap.java:215-219 | the removal `clear` fires leaves a replaying listener with no entries |
| ObservableMap.KeyViewRemoveKeepsReplay | src/main/java/com/github/fommil/collections/ObservableMap.java:226-238 | when the snapshot still agrees on the removed key, the key view's removal keeps a replaying listener in step |
| ObservableMap.KeyViewRemoveAllKeepsReplay | src/main/java/com/github/fommil/collections/ObservableMap.java:226-238 | when the snapshot agrees on the keys of `c`, the key view's `removeAll` keeps a replaying listener in step |
| ObservableMap.KeyViewRetainAllKeepsReplay | src/main/java/com/github/fommil/collections/ObservableMap.java:226-238 | when the snapshot agrees on the lost keys, the key view's `retainAll` keeps a replaying listener in step |
| ObservableMap.KeyViewClearKeepsReplay | src/main/java/com/github/fommil/collections/ObservableMap.java:226-238 | when the snapshot agrees on every key, the key view's `clear` leaves a replaying listener with no entries |
| ObservableMap.KeyViewStaleSnapshotDesyncs | src/main/java/com/github/fommil/collections/ObservableMap.java:225-237 | when the key's value changed after `keySet()` took its snapshot, the reported pair is wrong and a replaying listener falls out of step |
| ObservableMap.EntryViewRemoveKeepsReplay | src/main/java/com/github/fommil/collections/ObservableMap.java:257-270 | the entry view's `remove` keeps a replaying listener in step |
| ObservableMap.EntryViewRemoveAllKeepsReplay | src/main/java/com/github/fommil/collections/ObservableMap.java:257-270 | the entry view's `removeAll`, forwarding `c` verbatim, keeps a replaying listener in step |
| ObservableMap.EntryViewRetainAllKeepsReplay | src/main/java/com/github/fommil/collections/ObservableMap.java:257-270 | the entry view's `retainAll` keeps a replaying listener in step |
| ObservableMap.EntryViewClearKeepsReplay | src/main/java/com/github/fommil/collections/ObservableMap.java:257-270 | the entry view's `clear` leaves a replaying listener with no entries |
| ObservableMap.SilentChangeDesyncs | src/main/java/com/github/fommil/collections/ObservableMap.java:244-254 | a change to the map that fires nothing, as a values-view mutation does, leaves a replaying listener out of step |
| ObservableMap.ObservableMap.Equals | src/main/java/com/github/fommil/collections/ObservableMap.java:32 | map wrappers are compared only by their delegates, with the map's own `equals`: they are equal if and only if the maps have the same size and every entry of this one is an entry of the other, which holds exactly when the two maps are equal |
| Convenience.RowPairs | src/main/java/com/github/fommil/utils/Convenience.java:69-72 | the inner loop for row `i` visits `(i, i+1), …, (i, j-1)` in order |
| Convenience.Rows | src/main/java/com/github/fommil/utils/Convenience.java:67-73 | every pair the first `i` rows visit is strictly above the diagonal |
| Convenience.RowsMembership | src/main/java/com/github/fommil/utils/Convenience.java:50-52 | a pair is visited if and only if `0 <= a < b < n`: every upper pair and no diagonal pair |
| Convenience.RowsCount | src/main/java/com/github/fommil/utils/Convenience.java:67-73 | the first `i` rows make `i*(2n-i-1)/2` calls, so the whole loop makes `n(n-1)/2` |
| Convenience.RowsOrdered | src/main/java/com/github/fommil/utils/Convenience.java:50-52 | pairs are visited in strictly increasing row-major order: the second index is exhausted before the first advances |
| Convenience.UpperOuter | src/main/java/com/github/fommil/utils/Convenience.java:58-74 | a null iterable or action is rejected first; otherwise the action is applied to `(list[i], list[j])` for exactly the visited pairs, in visiting order |
| Convenience.NoEmpties | src/main/java/com/github/fommil/utils/Convenience.java:79-87 | true if and only if the collection is non-null and has an element |
| Convenience.SizeSubset | src/main/java/com/github/fommil/utils/Convenience.java:123 | the intersection has the size of `test` if and only if `test` is a subset of `set` |
| Convenience.IsSubset | src/main/java/com/github/fommil/utils/Convenience.java:117-124 | null arguments are rejected; otherwise the result is true if and only if `test` is non-empty and a subset of `set` |
| Convenience.Overlapping | src/main/java/com/github/fommil/utils/Convenience.java:101-102 | the inner loop merges set j into set i exactly when the two are unequal and share an entry, which only two different, non-empty positions can do |
| Convenience.Step | src/main/java/com/github/fommil/utils/Convenience.java:102-106 | one merge step keeps the number of sets and touches only positions i and j: on an overlap set i becomes the union and set j is cleared, otherwise nothing changes; each set is emptied or grows, and an empty one stays empty |
| Convenience.Inner | src/main/java/com/github/fommil/utils/Convenience.java:101-107 | the inner loop for set i, from position j on, keeps the number of sets and leaves the positions before j, other than i, as they were |
| Convenience.Outer | src/main/java/com/github/fommil/utils/Convenience.java:100-108 | the outer loop from set i on keeps the number of sets, so the single pass leaves a list as long as its input |
| Convenience.InnerGrowsOrEmptied | src/main/java/com/github/fommil/utils/Convenience.java:101-107 | after the inner loop each set has been emptied or has grown, and no empty set is refilled |
| Convenience.OuterGrowsOrEmptied | src/main/java/com/github/fommil/utils/Convenience.java:100-108 | after the whole pass each set has been absorbed into another (emptied) or has absorbed others (grown), and no empty set is refilled |
| Convenience.NonEmptySets | src/main/java/com/github/fommil/utils/Convenience.java:109 | the result holds no empty set, and it holds every non-empty set of the list |
| Convenience.StepKeepsEntries | src/main/java/com/github/fommil/utils/Convenience.java:102-106 | `addAll` followed by `clear` moves entries without losing any, and each set ends up inside some set |
| Convenience.InnerKeepsEntries | src/main/java/com/github/fommil/utils/Convenience.java:101-107 | the inner loop keeps every entry, and each set ends up inside some set |
| Convenience.OuterKeepsEntries | src/main/java/com/github/fommil/utils/Convenience.java:100-108 | the nested loops keep every entry, and each set ends up inside some set |
| Convenience.ResultKeepsEntries | src/main/java/com/github/fommil/utils/Convenience.java:109 | dropping the empty sets keeps the union, and each non-empty input set lies inside a returned set |
| Convenience.DisjointifyKeepsEntries | src/main/java/com/github/fommil/utils/Convenience.java:98-110 | `disjointify` returns exactly the input's entries, and each non-empty input set lies inside a returned set |
| Convenience.DisjointifyOverlaps | src/main/java/com/github/fommil/utils/Convenience.java:89-110 | as written, the result for `[{1}, {2}, {2,3}, {1,3}]` has two sets sharing the entry 3 |
| Convenience.MergePass | src/main/java/com/github/fommil/utils/Convenience.java:99-108 | the in-place nested loops leave the list as the single pass specifies |
| Convenience.MergeStep | src/main/java/com/github/fommil/utils/Convenience.java:102-106 | the body of the inner loop, in place on the array: the array afterwards is `Step` of the array before |
| Convenience.Disjointify | src/main/java/com/github/fommil/utils/Convenience.java:98-110 | as written: one in-place pass, then the distinct non-empty sets |
| Convenience.OuterProgress | src/main/java/com/github/fommil/utils/Convenience.java:100-108 | a pass either empties at least one set, or changes nothing because no two sets overlap |
| Convenience.MergedKeepsEntries | src/main/java/com/github/fommil/utils/Convenience.java:89-91 | merging to a fixpoint returns exactly the input's entries, and each non-empty input set lies inside a returned set |
| Convenience.MergedPairwiseDisjoint | src/main/java/com/github/fommil/utils/Convenience.java:89-91 | merging to a fixpoint returns sets no two of which share an entry, as the doc comment promises |
| Convenience.DisjointifyToFixpoint | src/main/java/com/github/fommil/utils/Convenience.java:89-110 | corrected: the in-place pass is repeated until it changes nothing, then the distinct non-empty sets are returned |
| Vetoable.IsRollback | src/main/java/com/github/fommil/beans/VetoableChangeListenerAdapter.java:28-34 | an event counts as a rollback only when there is a remembered event whose old value it restores; the reverse of the remembered event always counts |
| Vetoable.Respond | src/main/java/com/github/fommil/beans/VetoableChangeListenerAdapter.java:26-40 | a rollback of `last` returns quietly and keeps `last`; any other event becomes `last` and is vetoed if and only if `isVetoed` says so |
| Vetoable.FirstEventNeverRollback | src/main/java/com/github/fommil/beans/VetoableChangeListenerAdapter.java:28 | with nothing remembered, no event is a rollback: the first event is remembered and put to `isVetoed` |
| Vetoable.RollbackIgnored | src/main/java/com/github/fommil/beans/VetoableChangeListenerAdapter.java:28-36 | after a real event, its reverse is ignored: no veto, and the event stays remembered |
| Vetoable.RetryAfterRollbackConsulted | src/main/java/com/github/fommil/beans/VetoableChangeListenerAdapter.java:28-39 | proposing the same change again after its rollback is put to `isVetoed` again |
| Vetoable.RevertingChangeNotConsulted | src/main/java/com/github/fommil/beans/VetoableChangeListenerAdapter.java:28-34 | a genuine change that restores the last old value looks like a rollback, and passes even when `isVetoed` would refuse it |
| Vetoable.VetoableChangeListenerAdapter.constructor | src/main/java/com/github/fommil/beans/VetoableChangeListenerAdapter.java:22-24 | a new adapter remembers no event |
| Vetoable.VetoableChangeListenerAdapter.VetoableChange | src/main/java/com/github/fommil/beans/VetoableChangeListenerAdapter.java:26-40 | the new `last` and the outcome are what `Respond` gives for the old `last` |
| Scenarios.ListDrain | src/test/java/com/github/fommil/collections/ObservableCollectionTest.java:29-53 | draining A..F through the iterator ends empty, having fired one single-element removal per element |
| Scenarios.DrainStep | src/test/java/com/github/fommil/collections/ObservableCollectionTest.java:48-49 | one round of the drain loop: `next()` then `remove()` deletes the first element, fires its single-element removal, and leaves the iterator at the start, ready for the next round |
| Scenarios.ListAdd | src/test/java/com/github/fommil/collections/ObservableCollectionTest.java:55-76 | adding G to A..F gives size 7 and one addition of `[G]` |
| Scenarios.ListAddAll | src/test/java/com/github/fommil/collections/ObservableCollectionTest.java:78-99 | adding `[F, G, H]` gives size 9 and one addition of `[F, G, H]` |
| Scenarios.ListRemove | src/test/java/com/github/fommil/collections/ObservableCollectionTest.java:101-122 | removing A gives size 5 and one removal of `[A]` |
| Scenarios.ListRemoveAll | src/test/java/com/github/fommil/collections/ObservableCollectionTest.java:124-145 | `removeAll([A, C, Z])` gives size 4 and one removal of `[A, C, Z]` |
| Scenarios.ListRetainAll | src/test/java/com/github/fommil/collections/ObservableCollectionTest.java:147-167 | `retainAll([A, Z])` gives size 1 and one removal of `[B, C, D, E, F]` |
| Scenarios.ListClear | src/test/java/com/github/fommil/collections/ObservableCollectionTest.java:169-189 | `clear` gives size 0 and one removal of the six letters |
| Scenarios.SetDrain | src/test/java/com/github/fommil/collections/ObservableSetTest.java:27-51 | draining {A..F} through the iterator ends empty, having fired six single-element removals |
| Scenarios.SetAdd | src/test/java/com/github/fommil/collections/ObservableSetTest.java:53-74 | adding G gives size 7 and one addition of `[G]` |
| Scenarios.SetAddAll | src/test/java/com/github/fommil/collections/ObservableSetTest.java:76-97 | adding `[F, G, H]` gives size 8, and the one addition still reports `[F, G, H]` |
| Scenarios.SetRemove | src/test/java/com/github/fommil/collections/ObservableSetTest.java:99-120 | removing A gives size 5 and one removal of `[A]` |
| Scenarios.SetRemoveAll | src/test/java/com/github/fommil/collections/ObservableSetTest.java:122-143 | `removeAll([A, C, Z])` gives size 4 and one removal of `[A, C, Z]` |
| Scenarios.SetRetainAll | src/test/java/com/github/fommil/collections/ObservableSetTest.java:145-165 | `retainAll([A, Z])` gives size 1 and one removal-only change of five elements |
| Scenarios.SetClear | src/test/java/com/github/fommil/collections/ObservableSetTest.java:167-187 | `clear` gives size 0 and one removal-only change of six elements |
| Scenarios.MapPut | src/test/java/com/github/fommil/collections/ObservableMapTest.java:33-56 | `put(4, DD)` returns D, keeps size 4 and fires one update from `(4, D)` to `(4, DD)` |
| Scenarios.MapRemoveTwice | src/test/java/com/github/fommil/collections/ObservableMapTest.java:58-79 | removing key 4 twice gives size 3 and fires the removal of `(4, D)` once |
| Scenarios.MapPutAll | src/test/java/com/github/fommil/collections/ObservableMapTest.java:81-99 | putting the same four mappings keeps size 4 and fires one update of 4 removed and 4 added |
| Scenarios.MapClear | src/test/java/com/github/fommil/collections/ObservableMapTest.java:101-117 | `clear` gives size 0 and one removal of 4 entries |
| Scenarios.MapKeySetAdd | src/test/java/com/github/fommil/collections/ObservableMapTest.java:119-123 | adding to the key view fails with UnsupportedOperationException and fires nothing |
| Scenarios.MapKeySetAddAll | src/test/java/com/github/fommil/collections/ObservableMapTest.java:125-129 | adding two keys to the key view fails with UnsupportedOperationException and fires nothing |
| Scenarios.MapValuesAdd | src/test/java/com/github/fommil/collections/ObservableMapTest.java:148-151 | adding to the values view fails with UnsupportedOperationException |
| Scenarios.MapValuesRemove | src/test/java/com/github/fommil/collections/ObservableMapTest.java:153-156 | removing A through the values view fails with UnsupportedOperationException, yet the map is down to size 3 and nothing was fired |
| Scenarios.MapEntrySetRetainAll | src/test/java/com/github/fommil/collections/ObservableMapTest.java:158-175 | retaining the entry `(1, A)` gives size 1 and one removal-only change of 3 entries |
| Scenarios.VetoRound | src/main/java/com/github/fommil/beans/VetoableChangeListenerAdapter.java:26-40 | in one veto round, an accepting adapter passes, a vetoing one refuses, and the accepting one then ignores the rollback and still remembers the change |

## Left out

- `propertyChangeAdapter` (both observable classes): glue onto JavaBeans `PropertyChangeSupport`, whose behaviour is outside the code.
- The generated listener registry (add/remove listener): it is replaced by the `events` log, which every listener receives in full. Listeners added or removed midway are not modelled.
- A listener that throws is modelled only where the source's own bridge listeners throw, in the views.
- The `collection`/`map` back-reference in each `Change`: every change of a container refers to that container, so the field carries no information here.
- `hashCode` and `toString`: they only delegate. Equality is modelled by the `Equals` functions.
- The read-only `Collection`/`Map` methods passed through to the delegate: they are plain reads of the `delegate` field.
- Iteration order:
  - A set iterator returns some element not yet returned; `HashSet` and `TreeSet` order is not modelled.
  - `clear`/`retainAll` on a set, and the key view's `retainAll`/`clear`, report a listing of the lost elements in an unspecified order.
  - Map changes carry entries as a multiset, so only how often each entry occurs is kept. Some sources are hash sets, whose order is not modelled (`entrySet()` of the delegate in `clear`, `putAll`'s `oldEntries`). Others have an order that listeners lose here:
    - the key view's bridge lists the removed keys in the order of the view's change, which for `removeAll(c)` is `c` as given, duplicates included (`ObservableMap.java:232-237`);
    - the entry view passes on its change's removed elements, which for `removeAll(c)` is the caller's `c` (`ObservableMap.java:266`);
    - `putAll(m)` fires `m.entrySet()` in the iteration order of the map passed (`ObservableMap.java:210-211`).
- Java `null` elements and values: absence is `Option.None`. `put` treats an old value of `null` as "absent" (`ObservableMap.java:178`); a map holding a `null` value is not modelled.
- Null arguments to the bulk operations and to `put`/`remove`: the delegate's own `NullPointerException` is not modelled. Only the explicit checks are (`newObservableCollection`, `newObservableSet`, `upperOuter`, `isSubset`).
- Listeners a client registers on the views that `keySet()`, `values()` and `entrySet()` return: each view is an observable collection of its own, but the model keeps only its bridge listener's effect on the map. On `values()` a client listener never runs, because the bridge listener, registered first, throws (`ObservableMap.java:247-252`).
- Removal through an iterator of a map view: only the views' bulk and single-element methods are modelled.
- More than one live iterator per container: the model keeps the state of the most recent one.
- Concurrency, `volatile` and listener re-entrancy: the classes are marked not thread-safe.
- `ObservableMap.ObservableMap.ValuesRemove`: which of several keys holding the value goes first is left open (`HashMap.values().remove` removes the first one in hash order). The contract says only that one such mapping is removed.
- `Convenience.UpperOuter`: the action is a call into code the model cannot see. It is modelled as a function whose results are collected in call order, so side effects of the action are not modelled.
- `Convenience.Disjointify`: the caller's collection is the array itself. The sets are values, so after the call the caller sees the merged sets through the array rather than through shared `Set` objects.
- `Convenience.Disjointify`: the returned `HashSet` of sets is a Dafny set of sets.
- `Vetoable.VetoableChangeListenerAdapter.VetoableChange`: `isVetoed` is a pure predicate fixed at construction. An `isVetoed` that throws `PropertyVetoException` itself is not modelled.
- The scenarios use single characters for the tests' one-letter strings, and character keys for the numbered map.
- `testKeySetClear` is not a test (it lacks `@Test`), so it has no scenario.

## Findings

| source | as written | input that shows it | evidently intended | confidence | as-written member | corrected member |
|---|---|---|---|---|---|---|
| src/main/java/com/github/fommil/utils/Convenience.java:89-110 | one nested pass merges a set into another only if they overlap at that moment | `[{1}, {2}, {2,3}, {1,3}]`: set 0 absorbs `{1,3}`, then set 1 absorbs `{2,3}`; the result `{{1,3}, {2,3}}` shares 3 | "merge all sets which share a common entry": the returned sets pairwise disjoint | not executed; high, the lemma pins the exact input | Convenience.DisjointifyOverlaps | Convenience.MergedPairwiseDisjoint |
| src/main/java/com/github/fommil/collections/ObservableMap.java:244-254 | the values view's bridge listener throws only after `HashMap.values()` has already removed the mapping | `values().remove("A")` on `{1=A, 2=B, 3=C, 4=D}` throws but leaves 3 mappings, and no map listener hears of it | the change is refused before the map is touched | not executed; medium, the test checks only the exception | ObservableMap.ObservableMap.ValuesRemove | ObservableMap.ObservableMap.ValuesRemoveGuarded |

/**
 * The unit tests of the observable containers, as client code: each method
 * builds the test's container, performs the test's calls, and returns what
 * the test looks at (sizes, the changes the listeners received, results).
 */
module Scenarios {
  import opened Wrappers
  import opened Lists
  import OC = ObservableCollection
  import OS = ObservableSet
  import OM = ObservableMap
  import Vetoable

  /** The contents every collection and set test starts from. */
  const Letters: seq<char> := ['A', 'B', 'C', 'D', 'E', 'F']

  /** The mappings every map test starts from. */
  const Numbered: map<char, string> := map['1' := "A", '2' := "B", '3' := "C", '4' := "D"]

  // ---------------------------------------------------------------- ObservableCollection over a list

  method ListAdd() returns (size: nat, fired: seq<OC.Change<char>>)
    ensures size == 7 && fired == [OC.AdditionChange(['G'])]
  {
    var c := new OC.ObservableCollection(Letters);
    var changed := c.Add('G');
    size, fired := |c.delegate|, c.events;
  }

  /** A list keeps the duplicate 'F'; the change reports the argument as given. */
  method ListAddAll() returns (size: nat, fired: seq<OC.Change<char>>)
    ensures size == 9 && fired == [OC.AdditionChange(['F', 'G', 'H'])]
  {
    var c := new OC.ObservableCollection(Letters);
    var changed := c.AddAll(['F', 'G', 'H']);
    size, fired := |c.delegate|, c.events;
  }

  method ListRemove() returns (size: nat, fired: seq<OC.Change<char>>)
    ensures size == 5 && fired == [OC.RemovalChange(['A'])]
  {
    var c := new OC.ObservableCollection(Letters);
    var changed := c.Remove('A');
    size, fired := |c.delegate|, c.events;
  }

  /** The change reports 'Z' as removed although the list never held it. */
  method ListRemoveAll() returns (size: nat, fired: seq<OC.Change<char>>)
    ensures size == 4 && fired == [OC.RemovalChange(['A', 'C', 'Z'])]
  {
    var c := new OC.ObservableCollection(Letters);
    ListRemoveAllLetters();
    var changed := c.RemoveAll(['A', 'C', 'Z']);
    size, fired := |c.delegate|, c.events;
  }

  /** Only the elements really lost are reported, in list order. */
  method ListRetainAll() returns (size: nat, fired: seq<OC.Change<char>>)
    ensures size == 1 && fired == [OC.RemovalChange(['B', 'C', 'D', 'E', 'F'])]
  {
    var c := new OC.ObservableCollection(Letters);
    ListRetainAllLetters();
    var changed := c.RetainAll(['A', 'Z']);
    size, fired := |c.delegate|, c.events;
  }

  method ListClear() returns (size: nat, fired: seq<OC.Change<char>>)
    ensures size == 0 && fired == [OC.RemovalChange(Letters)]
  {
    var c := new OC.ObservableCollection(Letters);
    c.Clear();
    size, fired := |c.delegate|, c.events;
  }

  /** Draining through the iterator fires one single-element removal per element. */
  method ListDrain() returns (size: nat, fired: seq<OC.Change<char>>)
    ensures size == 0 && |fired| == |Letters|
    ensures forall i :: 0 <= i < |fired| ==>
      !fired[i].wasAdded && fired[i].wasRemoved && fired[i].elementsAdded == [] && |fired[i].elementsRemoved| == 1
  {
    var c := new OC.ObservableCollection(Letters);
    c.Iterator();
    var more := c.HasNext();
    while more
      invariant c.Valid() && c.itOpen && c.itCursor == 0 && !c.itCanRemove
      invariant more == (c.delegate != [])
      invariant |c.delegate| + |c.events| == |Letters|
      invariant forall i :: 0 <= i < |c.events| ==>
        !c.events[i].wasAdded && c.events[i].wasRemoved && c.events[i].elementsAdded == [] && |c.events[i].elementsRemoved| == 1
      decreases |c.delegate|
    {
      DrainStep(c);
      more := c.HasNext();
    }
    size, fired := |c.delegate|, c.events;
  }

  /** One round of the drain: next() returns the first element and remove() deletes and reports it. */
  method DrainStep(c: OC.ObservableCollection<char>)
    requires c.Valid() && c.itOpen && c.itCursor == 0 && !c.itCanRemove && c.delegate != []
    modifies c
    ensures c.Valid() && c.itOpen && c.itCursor == 0 && !c.itCanRemove
    ensures c.delegate == old(c.delegate)[1..]
    ensures c.events == old(c.events) + [OC.RemovalChange([old(c.delegate)[0]])]
  {
    var x := c.Next();
    var removed := c.IteratorRemove();
  }

  /** One step of Without and Within on a non-empty list. */
  lemma FilterStep(s: seq<char>, c: seq<char>)
    requires s != []
    ensures Without(s, c) == (if s[0] in c then [] else [s[0]]) + Without(s[1..], c)
    ensures Within(s, c) == (if s[0] in c then [s[0]] else []) + Within(s[1..], c)
  {
  }

  /** A list none of whose elements is in `c` loses nothing to removeAll(c) and keeps nothing of retainAll(c). */
  lemma {:induction false} FilterNone(s: seq<char>, c: seq<char>)
    requires forall i :: 0 <= i < |s| ==> s[i] !in c
    ensures Without(s, c) == s && Within(s, c) == []
  {
    if s != [] {
      FilterNone(s[1..], c);
      FilterStep(s, c);
    }
  }

  lemma RemoveAllFromC()
    ensures Without(['C', 'D', 'E', 'F'], ['A', 'C', 'Z']) == ['D', 'E', 'F']
  {
    FilterNone(['D', 'E', 'F'], ['A', 'C', 'Z']);
    FilterStep(['C', 'D', 'E', 'F'], ['A', 'C', 'Z']);
  }

  lemma RemoveAllFromB()
    ensures Without(['B', 'C', 'D', 'E', 'F'], ['A', 'C', 'Z']) == ['B', 'D', 'E', 'F']
  {
    RemoveAllFromC();
    FilterStep(['B', 'C', 'D', 'E', 'F'], ['A', 'C', 'Z']);
  }

  /** What ArrayList.removeAll leaves of the letters. */
  lemma ListRemoveAllLetters()
    ensures !(Elems(Letters) !! Elems(['A', 'C', 'Z']))
    ensures Without(Letters, ['A', 'C', 'Z']) == ['B', 'D', 'E', 'F']
  {
    assert 'A' in Elems(Letters) && 'A' in Elems(['A', 'C', 'Z']);
    RemoveAllFromB();
    FilterStep(Letters, ['A', 'C', 'Z']);
  }

  /** What ArrayList.retainAll keeps of the letters, and what it drops. */
  lemma ListRetainAllLetters()
    ensures !(Elems(Letters) <= Elems(['A', 'Z']))
    ensures Within(Letters, ['A', 'Z']) == ['A']
    ensures Without(Letters, ['A', 'Z']) == ['B', 'C', 'D', 'E', 'F']
  {
    assert 'B' in Elems(Letters) && 'B' !in Elems(['A', 'Z']);
    FilterNone(['B', 'C', 'D', 'E', 'F'], ['A', 'Z']);
    FilterStep(Letters, ['A', 'Z']);
  }

  // ---------------------------------------------------------------- ObservableSet

  /** The set every set test starts from. */
  const LetterSet: set<char> := {'A', 'B', 'C', 'D', 'E', 'F'}

  lemma AddLetters()
    ensures 'G' !in LetterSet && |LetterSet + {'G'}| == 7
  {
    assert LetterSet + {'G'} == {'A', 'B', 'C', 'D', 'E', 'F', 'G'};
  }

  method SetAdd() returns (size: nat, fired: seq<OC.Change<char>>)
    ensures size == 7 && fired == [OC.AdditionChange(['G'])]
  {
    var s := new OS.ObservableSet(LetterSet);
    AddLetters();
    var changed := s.Add('G');
    size, fired := |s.delegate|, s.events;
  }

  lemma RemoveLetter()
    ensures 'A' in LetterSet && |LetterSet - {'A'}| == 5
  {
    assert LetterSet - {'A'} == {'B', 'C', 'D', 'E', 'F'};
  }

  method SetRemove() returns (size: nat, fired: seq<OC.Change<char>>)
    ensures size == 5 && fired == [OC.RemovalChange(['A'])]
  {
    var s := new OS.ObservableSet(LetterSet);
    RemoveLetter();
    var changed := s.Remove('A');
    size, fired := |s.delegate|, s.events;
  }

  lemma ClearLetters()
    ensures LetterSet != {} && |LetterSet| == 6
  {
    assert 'A' in LetterSet;
  }

  /** Clearing reports every element once, in the set's own order. */
  method SetClear() returns (size: nat, fired: seq<OC.Change<char>>)
    ensures size == 0 && |fired| == 1
    ensures fired[0].wasRemoved && !fired[0].wasAdded && fired[0].elementsAdded == []
    ensures |fired[0].elementsRemoved| == 6
  {
    var s := new OS.ObservableSet(LetterSet);
    ClearLetters();
    var removed := s.Clear();
    EnumeratesFacts(removed, LetterSet);
    size, fired := |s.delegate|, s.events;
  }

  lemma AddAllLetters()
    ensures !(Elems(['F', 'G', 'H']) <= LetterSet)
    ensures |LetterSet + Elems(['F', 'G', 'H'])| == 8
  {
    assert Elems(['F', 'G', 'H']) == {'F', 'G', 'H'};
    assert LetterSet + {'F', 'G', 'H'} == {'A', 'B', 'C', 'D', 'E', 'F', 'G', 'H'};
  }

  /** A set drops the duplicate 'F', yet the change still reports all three. */
  method SetAddAll() returns (size: nat, fired: seq<OC.Change<char>>)
    ensures size == 8 && fired == [OC.AdditionChange(['F', 'G', 'H'])]
  {
    var s := new OS.ObservableSet(LetterSet);
    AddAllLetters();
    var changed := s.AddAll(['F', 'G', 'H']);
    size, fired := |s.delegate|, s.events;
  }

  lemma RemoveAllLetters()
    ensures !(LetterSet !! Elems(['A', 'C', 'Z']))
    ensures |LetterSet - Elems(['A', 'C', 'Z'])| == 4
  {
    assert Elems(['A', 'C', 'Z']) == {'A', 'C', 'Z'};
    assert LetterSet - {'A', 'C', 'Z'} == {'B', 'D', 'E', 'F'};
  }

  method SetRemoveAll() returns (size: nat, fired: seq<OC.Change<char>>)
    ensures size == 4 && fired == [OC.RemovalChange(['A', 'C', 'Z'])]
  {
    var s := new OS.ObservableSet(LetterSet);
    RemoveAllLetters();
    var changed := s.RemoveAll(['A', 'C', 'Z']);
    size, fired := |s.delegate|, s.events;
  }

  lemma RetainAllLetters()
    ensures !(LetterSet <= Elems(['A', 'Z']))
    ensures |LetterSet * Elems(['A', 'Z'])| == 1
    ensures |LetterSet - Elems(['A', 'Z'])| == 5
  {
    assert Elems(['A', 'Z']) == {'A', 'Z'};
    assert LetterSet * {'A', 'Z'} == {'A'};
    assert LetterSet - {'A', 'Z'} == {'B', 'C', 'D', 'E', 'F'};
  }

  /** The lost elements are reported in the set's own order, so only their number is fixed. */
  method SetRetainAll() returns (size: nat, fired: seq<OC.Change<char>>)
    ensures size == 1 && |fired| == 1
    ensures fired[0].wasRemoved && !fired[0].wasAdded && |fired[0].elementsRemoved| == 5
  {
    var s := new OS.ObservableSet(LetterSet);
    RetainAllLetters();
    var changed, removed := s.RetainAll(['A', 'Z']);
    EnumeratesFacts(removed, LetterSet - Elems(['A', 'Z']));
    size, fired := |s.delegate|, s.events;
  }

  /** Draining through the iterator fires one single-element removal per element. */
  method SetDrain() returns (size: nat, fired: seq<OC.Change<char>>)
    ensures size == 0 && |fired| == 6
    ensures forall i :: 0 <= i < |fired| ==>
      !fired[i].wasAdded && fired[i].wasRemoved && fired[i].elementsAdded == [] && |fired[i].elementsRemoved| == 1
  {
    var s := new OS.ObservableSet(LetterSet);
    s.Iterator();
    var more := s.HasNext();
    while more
      invariant s.Valid() && s.itOpen && !s.itCanRemove && s.itRemaining == s.delegate
      invariant more == (s.delegate != {})
      invariant |s.delegate| + |s.events| == 6
      invariant forall i :: 0 <= i < |s.events| ==>
        !s.events[i].wasAdded && s.events[i].wasRemoved && s.events[i].elementsAdded == [] && |s.events[i].elementsRemoved| == 1
      decreases |s.delegate|
    {
      var x := s.Next();
      var removed := s.IteratorRemove();
      more := s.HasNext();
    }
    size, fired := |s.delegate|, s.events;
  }

  // ---------------------------------------------------------------- ObservableMap

  lemma NumberedSize()
    ensures |Numbered| == 4 && |OM.EntriesOf(Numbered)| == 4
  {
    assert Numbered.Keys == {'1', '2', '3', '4'};
    assert |Numbered.Keys| == 4;
    OM.EntriesOfSize(Numbered);
  }

  /** Re-putting a key fires an update from the old value to the new one. */
  method MapPut() returns (size: nat, prior: Option<string>, fired: seq<OM.Change<char, string>>)
    ensures size == 4 && prior == Some("D")
    ensures fired == [OM.UpdateChange(multiset{('4', Some("D"))}, multiset{('4', Some("DD"))})]
  {
    var m := new OM.ObservableMap(Numbered);
    NumberedSize();
    prior := m.Put('4', "DD");
    assert m.delegate.Keys == Numbered.Keys;
    size, fired := |m.delegate|, m.events;
  }

  /** Removing a key twice fires once. */
  method MapRemoveTwice() returns (size: nat, fired: seq<OM.Change<char, string>>)
    ensures size == 3 && fired == [OM.RemovalChange(multiset{('4', Some("D"))})]
  {
    var m := new OM.ObservableMap(Numbered);
    var first := m.Remove('4');
    var second := m.Remove('4');
    assert m.delegate.Keys == {'1', '2', '3'};
    assert |m.delegate.Keys| == 3;
    size, fired := |m.delegate|, m.events;
  }

  /** Putting the same four mappings again reports four replaced and four added. */
  method MapPutAll() returns (size: nat, fired: seq<OM.Change<char, string>>)
    ensures size == 4 && |fired| == 1
    ensures fired[0].wasAdded && fired[0].wasRemoved
    ensures |fired[0].entriesRemoved| == 4 && |fired[0].entriesAdded| == 4
  {
    var m := new OM.ObservableMap(Numbered);
    NumberedSize();
    m.PutAll(Numbered);
    assert OM.RestrictKeys(Numbered, Numbered.Keys) == Numbered;
    assert m.delegate == Numbered;
    size, fired := |m.delegate|, m.events;
  }

  method MapClear() returns (size: nat, fired: seq<OM.Change<char, string>>)
    ensures size == 0 && |fired| == 1
    ensures fired[0].wasRemoved && !fired[0].wasAdded && |fired[0].entriesRemoved| == 4
  {
    var m := new OM.ObservableMap(Numbered);
    NumberedSize();
    m.Clear();
    size, fired := |m.delegate|, m.events;
  }

  method MapKeySetAdd() returns (r: Result<bool>, fired: seq<OM.Change<char, string>>)
    ensures r == Err(UnsupportedOperation) && fired == []
  {
    var m := new OM.ObservableMap(Numbered);
    var keys := m.KeySet();
    r := m.KeyViewAdd(keys, 'X');
    fired := m.events;
  }

  method MapKeySetAddAll() returns (r: Result<bool>, fired: seq<OM.Change<char, string>>)
    ensures r == Err(UnsupportedOperation) && fired == []
  {
    var m := new OM.ObservableMap(Numbered);
    var keys := m.KeySet();
    r := m.KeyViewAddAll(keys, ['X', 'Y']);
    fired := m.events;
  }

  method MapValuesAdd() returns (r: Result<bool>)
    ensures r == Err(UnsupportedOperation)
  {
    var m := new OM.ObservableMap(Numbered);
    r := m.ValuesAdd("A");
  }

  /**
   * `values().remove("A")` is refused, as the test expects, but only after
   * key '1' has gone from the map, and no map listener heard of it.
   */
  method MapValuesRemove() returns (r: Result<bool>, size: nat, fired: seq<OM.Change<char, string>>)
    ensures r == Err(UnsupportedOperation) && size == 3 && fired == []
  {
    var m := new OM.ObservableMap(Numbered);
    assert Numbered['1'] == "A";
    r := m.ValuesRemove("A");
    assert m.delegate == Numbered - {'1'} by {
      assert forall k :: k in Numbered && Numbered[k] == "A" ==> k == '1';
    }
    assert m.delegate.Keys == {'2', '3', '4'};
    assert |m.delegate.Keys| == 3;
    size, fired := |m.delegate|, m.events;
  }

  /** The entries of the numbered map, written out. */
  lemma NumberedEntries()
    ensures OM.EntriesOf(Numbered) == {('1', Some("A")), ('2', Some("B")), ('3', Some("C")), ('4', Some("D"))}
  {
    var listed := {('1', Some("A")), ('2', Some("B")), ('3', Some("C")), ('4', Some("D"))};
    forall e | e in OM.EntriesOf(Numbered) ensures e in listed {
      OM.EntriesOfMembership(Numbered, e);
    }
    forall e | e in listed ensures e in OM.EntriesOf(Numbered) {
      OM.EntriesOfMembership(Numbered, e);
    }
  }

  /** Retaining the entry 1=A drops three entries and keeps one mapping. */
  lemma RetainFirstEntry()
    ensures !(OM.EntriesOf(Numbered) <= Elems([('1', Some("A"))]))
    ensures |OM.EntriesOf(Numbered) - Elems([('1', Some("A"))])| == 3
    ensures |OM.EntriesWithin(Numbered, [('1', Some("A"))])| == 1
  {
    var keeper: OM.Entry<char, string> := ('1', Some("A"));
    NumberedEntries();
    assert Elems([keeper]) == {keeper};
    assert ('2', Some("B")) in OM.EntriesOf(Numbered) - {keeper};
    assert OM.EntriesOf(Numbered) - {keeper} == {('2', Some("B")), ('3', Some("C")), ('4', Some("D"))};
    assert OM.EntriesWithin(Numbered, [keeper]).Keys == {'1'} by {
      forall k | k in OM.EntriesWithin(Numbered, [keeper]) ensures k == '1' {
        assert (k, Some(Numbered[k])) in OM.EntriesOf(Numbered);
      }
    }
  }

  /** Retaining one entry through the entry view reports the other three as removed. */
  method MapEntrySetRetainAll() returns (size: nat, fired: seq<OM.Change<char, string>>)
    ensures size == 1 && |fired| == 1
    ensures fired[0].wasRemoved && !fired[0].wasAdded && |fired[0].entriesRemoved| == 3
  {
    var m := new OM.ObservableMap(Numbered);
    RetainFirstEntry();
    var changed := m.EntryViewRetainAll([('1', Some("A"))]);
    size, fired := |m.delegate|, m.events;
  }

  // ---------------------------------------------------------------- VetoableChangeListenerAdapter

  /**
   * One round of `VetoableChangeSupport.fireVetoableChange` with two
   * listeners: the first accepts, the second vetoes, and the first is then
   * sent the reverse event. The first ignores it and still remembers the
   * proposed change; the caller sees the veto.
   */
  method VetoRound(evt: Vetoable.PropertyChangeEvent<string, int>) returns (
    first: Outcome, second: Outcome, rollback: Outcome, remembered: Option<Vetoable.PropertyChangeEvent<string, int>>)
    ensures first == Pass && second == Fail(PropertyVeto) && rollback == Pass
    ensures remembered == Some(evt)
  {
    var accepting := new Vetoable.VetoableChangeListenerAdapter(e => false);
    var vetoing := new Vetoable.VetoableChangeListenerAdapter(e => true);
    first := accepting.VetoableChange(evt);
    second := vetoing.VetoableChange(evt);
    rollback := accepting.VetoableChange(Vetoable.Reverse(evt));
    remembered := accepting.last;
  }
}

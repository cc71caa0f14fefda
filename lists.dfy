/**
 * What the host containers do when the observable wrappers delegate to them:
 * `java.util.ArrayList` is a sequence and `java.util.HashSet` a set, and the
 * functions here give the bulk operations of the list and the order-free copy
 * of a set (`Lists.newArrayList(set)`).
 */
module Lists {

  /** The elements of a sequence, as a set (what `Collection.contains` tests). */
  function Elems<T>(s: seq<T>): set<T> {
    set x | x in s
  }

  /**
   * The elements of `s` that are not in `c`: `s` after `removeAll(c)`. The
   * survivors keep the order of `s`, as `WithoutSnoc` states.
   */
  function Without<T(==)>(s: seq<T>, c: seq<T>): (r: seq<T>)
    ensures Elems(r) == Elems(s) - Elems(c)
    ensures |r| <= |s|
  {
    if s == [] then []
    else
      ElemsSplit(s);
      var r := (if s[0] in c then [] else [s[0]]) + Without(s[1..], c);
      ElemsConcat(if s[0] in c then [] else [s[0]], Without(s[1..], c));
      r
  }

  /**
   * The elements of `s` that are in `c`: `s` after `retainAll(c)`. The
   * survivors keep the order of `s`, as `WithinSnoc` states.
   */
  function Within<T(==)>(s: seq<T>, c: seq<T>): (r: seq<T>)
    ensures Elems(r) == Elems(s) * Elems(c)
    ensures |r| <= |s|
  {
    if s == [] then []
    else
      ElemsSplit(s);
      var r := (if s[0] in c then [s[0]] else []) + Within(s[1..], c);
      ElemsConcat(if s[0] in c then [s[0]] else [], Within(s[1..], c));
      r
  }

  /** `s` after `remove(o)`: the first occurrence of `o`, if any, is gone. */
  function RemoveFirst<T(==)>(s: seq<T>, o: T): (r: seq<T>)
    ensures o in s ==> |r| == |s| - 1 && multiset(r) == multiset(s) - multiset{o}
    ensures o !in s ==> r == s
  {
    if s == [] then []
    else
      assert s == [s[0]] + s[1..];
      if s[0] == o then s[1..] else [s[0]] + RemoveFirst(s[1..], o)
  }

  /** The occurrence `RemoveFirst` drops is the first one: nothing before it is `o`. */
  lemma RemoveFirstAt<T>(s: seq<T>, o: T)
    ensures o in s ==> exists i :: 0 <= i < |s| && s[i] == o && o !in s[..i] && RemoveFirst(s, o) == s[..i] + s[i + 1..]
  {
    if o in s {
      var i := FirstIndex(s, o);
    }
  }

  /** The first position holding `o`, and what `RemoveFirst` leaves around it. */
  lemma {:induction false} FirstIndex<T>(s: seq<T>, o: T) returns (i: nat)
    requires o in s
    ensures i < |s| && s[i] == o && o !in s[..i] && RemoveFirst(s, o) == s[..i] + s[i + 1..]
  {
    if s[0] == o {
      i := 0;
      assert s[..0] == [];
    } else {
      assert s == [s[0]] + s[1..];
      var j := FirstIndex(s[1..], o);
      i := j + 1;
      assert s[..i] == [s[0]] + s[1..][..j];
      assert s[i + 1..] == s[1..][j + 1..];
    }
  }

  lemma ElemsConcat<T>(a: seq<T>, b: seq<T>)
    ensures Elems(a + b) == Elems(a) + Elems(b)
  {
  }

  lemma ElemsSplit<T>(s: seq<T>)
    requires s != []
    ensures Elems(s) == {s[0]} + Elems(s[1..])
  {
    assert s == [s[0]] + s[1..];
    ElemsConcat([s[0]], s[1..]);
  }

  /** `s` lists every element of `S` exactly once, in some order. */
  ghost predicate Enumerates<T>(s: seq<T>, S: set<T>) {
    multiset(s) == multiset(S)
  }

  /** Filtering a list one element longer adds at most that element at the end. */
  lemma {:induction false} WithoutSnoc<T>(s: seq<T>, x: T, c: seq<T>)
    ensures Without(s + [x], c) == Without(s, c) + (if x in c then [] else [x])
  {
    if s == [] {
      assert [x][1..] == [];
    } else {
      assert (s + [x])[1..] == s[1..] + [x];
      WithoutSnoc(s[1..], x, c);
    }
  }

  /** `removeAll(c)` leaves a list as it was exactly when no element of it is in `c`. */
  /** Filtering a list one element longer keeps at most that element, at the end. */
  lemma {:induction false} WithinSnoc<T>(s: seq<T>, x: T, c: seq<T>)
    ensures Within(s + [x], c) == Within(s, c) + (if x in c then [x] else [])
  {
    if s == [] {
      assert [x][1..] == [];
    } else {
      assert (s + [x])[1..] == s[1..] + [x];
      WithinSnoc(s[1..], x, c);
    }
  }

  lemma {:induction false} WithoutUnchanged<T>(s: seq<T>, c: seq<T>)
    ensures Without(s, c) == s <==> Elems(s) !! Elems(c)
  {
    if s != [] {
      WithoutUnchanged(s[1..], c);
      assert s == [s[0]] + s[1..];
      if s[0] in c {
        assert s[0] in Elems(s) * Elems(c);
      } else {
        assert Elems(s) == {s[0]} + Elems(s[1..]);
      }
    }
  }

  /** `retainAll(c)` leaves a list as it was exactly when every element of it is in `c`. */
  lemma {:induction false} WithinUnchanged<T>(s: seq<T>, c: seq<T>)
    ensures Within(s, c) == s <==> Elems(s) <= Elems(c)
  {
    if s != [] {
      WithinUnchanged(s[1..], c);
      assert s == [s[0]] + s[1..];
      if s[0] !in c {
        assert s[0] in Elems(s) && s[0] !in Elems(c);
      } else {
        assert Elems(s) == {s[0]} + Elems(s[1..]);
      }
    }
  }

  /** The elements retained and the elements lost by `retainAll(c)` together are the list's elements. */
  lemma {:induction false} WithinWithoutPartition<T>(s: seq<T>, c: seq<T>)
    ensures multiset(Within(s, c)) + multiset(Without(s, c)) == multiset(s)
  {
    if s != [] {
      WithinWithoutPartition(s[1..], c);
      var head := if s[0] in c then [s[0]] else [];
      var rest := if s[0] in c then [] else [s[0]];
      assert multiset(Within(s, c)) == multiset(head) + multiset(Within(s[1..], c));
      assert multiset(Without(s, c)) == multiset(rest) + multiset(Without(s[1..], c));
      assert multiset(head) + multiset(rest) == multiset{s[0]};
      assert s == [s[0]] + s[1..];
    }
  }

  /** A listing of a set has no repetition: it has the set's elements and its size. */
  lemma EnumeratesFacts<T>(s: seq<T>, S: set<T>)
    requires Enumerates(s, S)
    ensures Elems(s) == S && |s| == |S|
  {
    assert |multiset(s)| == |s|;
    forall x ensures x in s <==> x in S {
      assert x in s <==> multiset(s)[x] > 0;
    }
  }

  /** How often `removeAll(c)` keeps an element: never if `c` has it, otherwise as often as the list has it. */
  lemma {:induction false} WithoutCount<T>(s: seq<T>, c: seq<T>, x: T)
    ensures multiset(Without(s, c))[x] == if x in c then 0 else multiset(s)[x]
  {
    if s != [] {
      WithoutCount(s[1..], c, x);
      assert s == [s[0]] + s[1..];
    }
  }

  /** Filtering a listing of a set lists the filtered set. */
  lemma WithoutEnumerates<T>(s: seq<T>, S: set<T>, c: seq<T>)
    requires Enumerates(s, S)
    ensures Enumerates(Without(s, c), S - Elems(c))
  {
    var kept, rest := multiset(Without(s, c)), multiset(S - Elems(c));
    forall x ensures kept[x] == rest[x] {
      WithoutCountIn(s, S, c, x);
    }
    MultisetExt(kept, rest);
  }

  /** Deleting position `i` loses one occurrence of the element there. */
  lemma MultisetRemoveAt<T>(d: seq<T>, i: nat)
    requires i < |d|
    ensures multiset(d[..i] + d[i + 1..]) == multiset(d) - multiset{d[i]}
  {
    assert d == d[..i] + [d[i]] + d[i + 1..];
  }

  /** A subset as large as its superset is the whole of it. */
  lemma SubsetOfSameSize<T>(a: set<T>, b: set<T>)
    requires a <= b && |a| == |b|
    ensures a == b
  {
    assert b == a + (b - a);
    assert |b - a| == 0;
  }

  lemma MultisetExt<T>(a: multiset<T>, b: multiset<T>)
    requires forall x :: a[x] == b[x]
    ensures a == b
  {
  }

  lemma WithoutCountIn<T>(s: seq<T>, S: set<T>, c: seq<T>, x: T)
    requires Enumerates(s, S)
    ensures multiset(Without(s, c))[x] == multiset(S - Elems(c))[x]
  {
    WithoutCount(s, c, x);
    assert multiset(s)[x] == multiset(S)[x];
    if x in c {
      assert x in Elems(c);
    }
  }

  /** A copy of a set in its (unspecified) iteration order, as `Lists.newArrayList(set)` makes. */
  method Enumerate<T(==)>(S: set<T>) returns (s: seq<T>)
    ensures Enumerates(s, S)
  {
    s := [];
    var rest := S;
    while rest != {}
      invariant rest <= S
      invariant multiset(s) + multiset(rest) == multiset(S)
      decreases rest
    {
      var x :| x in rest;
      assert multiset(rest) == multiset(rest - {x}) + multiset{x};
      s := s + [x];
      rest := rest - {x};
    }
  }
}

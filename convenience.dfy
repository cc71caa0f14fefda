/**
 * The helpers of `com.github.fommil.utils.Convenience`: the loop over the
 * upper triangle of a list's outer product with itself, the `NO_EMPTIES`
 * test, the subset test and `disjointify`, the routine that merges sets
 * sharing an entry.
 */
module Convenience {
  import opened Wrappers

  // ---------------------------------------------------------------- upperOuter

  /** The index pairs (i, i + 1), ..., (i, j - 1): the first part of row i of the upper triangle. */
  function RowPairs(i: int, j: int): (r: seq<(int, int)>)
    ensures |r| == if i + 1 < j then j - i - 1 else 0
    ensures forall k :: 0 <= k < |r| ==> r[k] == (i, i + 1 + k)
    decreases j - i
  {
    if j <= i + 1 then [] else RowPairs(i, j - 1) + [(i, j - 1)]
  }

  /** The pairs above the diagonal in rows 0, ..., i - 1 of an n by n matrix, one row after the other. */
  function Rows(i: int, n: int): (r: seq<(int, int)>)
    ensures forall k :: 0 <= k < |r| ==> 0 <= r[k].0 < i && r[k].0 < r[k].1 < n
    decreases i
  {
    if i <= 0 then [] else Rows(i - 1, n) + RowPairs(i - 1, n)
  }

  /** The pair p comes before q in row-major order: a lower row, or the same row and a lower column. */
  ghost predicate Before(p: (int, int), q: (int, int)) {
    p.0 < q.0 || (p.0 == q.0 && p.1 < q.1)
  }

  /** The pairs visited are exactly those above the diagonal: no diagonal entry, nothing below it. */
  lemma {:induction false} RowsMembership(i: int, n: int, a: int, b: int)
    ensures (a, b) in Rows(i, n) <==> 0 <= a < i && a < b < n
    decreases i
  {
    if i > 0 {
      RowsMembership(i - 1, n, a, b);
      var row := RowPairs(i - 1, n);
      assert Rows(i, n) == Rows(i - 1, n) + row;
      if a == i - 1 && a < b < n {
        assert row[b - a - 1] == (a, b);
      }
    }
  }

  /** Rows 0, ..., i - 1 hold i(2n - i - 1)/2 pairs; all n rows hold n(n - 1)/2. */
  lemma {:induction false} RowsCount(i: int, n: int)
    requires 0 <= i <= n
    ensures 2 * |Rows(i, n)| == i * (2 * n - i - 1)
    decreases i
  {
    if i > 0 {
      RowsCount(i - 1, n);
      assert |Rows(i, n)| == |Rows(i - 1, n)| + (n - i);
      assert (i - 1) * (2 * n - i) + 2 * (n - i) == i * (2 * n - i - 1);
    }
  }

  /** The visiting order is row-major: the second index is exhausted before the first advances. */
  lemma {:induction false} RowsOrdered(i: int, n: int)
    ensures forall k, l :: 0 <= k < l < |Rows(i, n)| ==> Before(Rows(i, n)[k], Rows(i, n)[l])
    decreases i
  {
    if i > 0 {
      RowsOrdered(i - 1, n);
      var done, row := Rows(i - 1, n), RowPairs(i - 1, n);
      var all := Rows(i, n);
      assert all == done + row;
      forall k, l | 0 <= k < l < |all| ensures Before(all[k], all[l]) {
        if l < |done| {
          assert all[k] == done[k] && all[l] == done[l];
        } else if k < |done| {
          assert all[k] == done[k] && all[l] == row[l - |done|];
        } else {
          assert all[k] == row[k - |done|] && all[l] == row[l - |done|];
        }
      }
    }
  }

  /** `calls` are the results of `op` on (list[i], list[j]) for the `pairs`, in order. */
  ghost predicate Visits<T, E>(calls: seq<E>, list: seq<T>, op: (T, T) -> E, pairs: seq<(int, int)>) {
    |calls| == |pairs| &&
    forall k :: 0 <= k < |calls| ==>
      0 <= pairs[k].0 < |list| && 0 <= pairs[k].1 < |list| && calls[k] == op(list[pairs[k].0], list[pairs[k].1])
  }

  /**
   * upperOuter: calls `operation` on every pair of distinct positions i < j
   * of the list, j running to the end before i advances. The action is a
   * call into code the model cannot see; the result lists what each call
   * returns, in call order. A missing list or action is refused first.
   */
  method UpperOuter<T, E>(iterable: Option<seq<T>>, operation: Option<(T, T) -> E>) returns (r: Result<seq<E>>)
    ensures iterable.None? || operation.None? ==> r.Err? && r.error == NullPointer
    ensures iterable.Some? && operation.Some? ==>
      r.Ok? && Visits(r.value, iterable.value, operation.value, Rows(|iterable.value|, |iterable.value|))
  {
    if iterable.None? || operation.None? {
      return Err(NullPointer);
    }
    var list, op := iterable.value, operation.value;
    var n := |list|;
    var calls: seq<E> := [];
    ghost var visited: seq<(int, int)> := [];
    var i := 0;
    while i < n
      invariant 0 <= i <= n
      invariant visited == Rows(i, n)
      invariant Visits(calls, list, op, visited)
    {
      var first := list[i];
      var j := i + 1;
      while j < n
        invariant i + 1 <= j <= n
        invariant visited == Rows(i, n) + RowPairs(i, j)
        invariant Visits(calls, list, op, visited)
      {
        var second := list[j];
        calls := calls + [op(first, second)];
        visited := visited + [(i, j)];
        j := j + 1;
      }
      i := i + 1;
    }
    return Ok(calls);
  }

  // ---------------------------------------------------------------- NO_EMPTIES and isSubset

  /** NO_EMPTIES: a collection passes when it is present and holds an element. */
  function NoEmpties<T>(input: Option<set<T>>): (r: bool)
    ensures r <==> input.Some? && exists x :: x in input.value
  {
    if input.None? || input.value == {} then false else true
  }

  /** All of A lies in B exactly when intersecting with B loses nothing of A's size. */
  lemma SizeSubset<T>(A: set<T>, B: set<T>)
    ensures |A * B| == |A| <==> A <= B
  {
    var C := A * B;
    assert A == C + (A - C);
    assert |A| == |C| + |A - C|;
    if |C| == |A| {
      assert |A - C| == 0;
    }
  }

  /** isSubset: an empty `test` is never a subset; otherwise every element of `test` must be in `set`. */
  function IsSubset<T>(test: Option<set<T>>, s: Option<set<T>>): (r: Result<bool>)
    ensures test.None? || s.None? <==> r == Err(NullPointer)
    ensures test.Some? && s.Some? ==> r.Ok? && (r.value <==> test.value != {} && test.value <= s.value)
  {
    if test.None? || s.None? then Err(NullPointer)
    else if test.value == {} then Ok(false)
    else
      SizeSubset(test.value, s.value);
      Ok(|test.value * s.value| == |test.value|)
  }

  // ---------------------------------------------------------------- disjointify

  /** The merge test of the inner loop: set j is not equal to set i, yet they share an entry. */
  predicate Overlapping<T(==)>(s: seq<set<T>>, i: int, j: int)
    requires 0 <= i < |s| && 0 <= j < |s|
    ensures Overlapping(s, i, j) <==> s[j] != s[i] && exists x :: x in s[i] && x in s[j]
    ensures Overlapping(s, i, j) ==> i != j && s[i] != {} && s[j] != {}
  {
    assert s[i] * s[j] != {} <==> exists x :: x in s[i] && x in s[j] by {
      if s[i] * s[j] != {} {
        var x :| x in s[i] * s[j];
        assert x in s[i] && x in s[j];
      }
      if exists x :: x in s[i] && x in s[j] {
        var x :| x in s[i] && x in s[j];
        assert x in s[i] * s[j];
      }
    }
    s[j] != s[i] && s[i] * s[j] != {}
  }

  /**
   * Position by position, each set of `t` was emptied or has grown from its
   * set in `s`, and a set that was empty stayed empty.
   */
  ghost predicate GrowsOrEmptied<T>(s: seq<set<T>>, t: seq<set<T>>) {
    |t| == |s| && forall k :: 0 <= k < |s| ==> (s[k] == {} ==> t[k] == {}) && (t[k] == {} || s[k] <= t[k])
  }

  /** One pass of the inner loop: when they overlap, set i absorbs set j and set j is cleared. */
  function Step<T(==)>(s: seq<set<T>>, i: int, j: int): (r: seq<set<T>>)
    requires 0 <= i < |s| && 0 <= j < |s|
    ensures |r| == |s| && GrowsOrEmptied(s, r)
    ensures forall k :: 0 <= k < |s| && k != i && k != j ==> r[k] == s[k]
    ensures Overlapping(s, i, j) ==> r[i] == s[i] + s[j] && r[j] == {}
    ensures !Overlapping(s, i, j) ==> r == s
  {
    if Overlapping(s, i, j) then s[i := s[i] + s[j]][j := {}] else s
  }

  /** The inner loop of disjointify for set i, from position j to the end. */
  function Inner<T(==)>(s: seq<set<T>>, i: int, j: int): (r: seq<set<T>>)
    requires 0 <= i < |s| && 0 <= j <= |s|
    ensures |r| == |s|
    ensures forall k :: 0 <= k < j && k != i ==> r[k] == s[k]
    decreases |s| - j
  {
    if j == |s| then s else Inner(Step(s, i, j), i, j + 1)
  }

  /** The outer loop of disjointify, from set i to the end; `Outer(s, 0)` is the whole single pass. */
  function Outer<T(==)>(s: seq<set<T>>, i: int): (r: seq<set<T>>)
    requires 0 <= i <= |s|
    ensures |r| == |s|
    decreases |s| - i
  {
    if i == |s| then s else Outer(Inner(s, i, 0), i + 1)
  }

  lemma GrowsOrEmptiedTransitive<T>(s: seq<set<T>>, t: seq<set<T>>, u: seq<set<T>>)
    requires GrowsOrEmptied(s, t) && GrowsOrEmptied(t, u)
    ensures GrowsOrEmptied(s, u)
  {
    forall k | 0 <= k < |s| ensures (s[k] == {} ==> u[k] == {}) && (u[k] == {} || s[k] <= u[k]) {
      assert t[k] == {} || s[k] <= t[k];
    }
  }

  /** The inner loop empties or enlarges each set, and never refills an empty one. */
  lemma {:induction false} InnerGrowsOrEmptied<T>(s: seq<set<T>>, i: int, j: int)
    requires 0 <= i < |s| && 0 <= j <= |s|
    ensures GrowsOrEmptied(s, Inner(s, i, j))
    decreases |s| - j
  {
    if j == |s| {
      assert GrowsOrEmptied(s, s);
    } else {
      InnerGrowsOrEmptied(Step(s, i, j), i, j + 1);
      GrowsOrEmptiedTransitive(s, Step(s, i, j), Inner(s, i, j));
    }
  }

  /** So does the whole pass: after it, each set of the list has been absorbed into another or has absorbed others. */
  lemma {:induction false} OuterGrowsOrEmptied<T>(s: seq<set<T>>, i: int)
    requires 0 <= i <= |s|
    ensures GrowsOrEmptied(s, Outer(s, i))
    decreases |s| - i
  {
    if i == |s| {
      assert GrowsOrEmptied(s, s);
    } else {
      InnerGrowsOrEmptied(s, i, 0);
      OuterGrowsOrEmptied(Inner(s, i, 0), i + 1);
      GrowsOrEmptiedTransitive(s, Inner(s, i, 0), Outer(s, i));
    }
  }

  /** `newHashSet(filter(disjoint, NO_EMPTIES))`: the distinct non-empty sets of the list. */
  function NonEmptySets<T(==)>(s: seq<set<T>>): (r: set<set<T>>)
    ensures forall S :: S in r ==> NoEmpties(Some(S))
    ensures forall k :: 0 <= k < |s| && s[k] != {} ==> s[k] in r
  {
    set k | 0 <= k < |s| && NoEmpties(Some(s[k])) :: s[k]
  }

  /** Every entry of any set of the list. */
  ghost function Covered<T>(s: seq<set<T>>): set<T> {
    set k, x | 0 <= k < |s| && x in s[k] :: x
  }

  /** Every entry of any set of the collection. */
  ghost function Union<T>(R: set<set<T>>): set<T> {
    set S, x | S in R && x in S :: x
  }

  /** The set x lies inside some set of `t`. */
  ghost predicate InsideSome<T>(x: set<T>, t: seq<set<T>>) {
    exists m :: 0 <= m < |t| && x <= t[m]
  }

  /** Each set of `s` lies inside some set of `t`. */
  ghost predicate Refines<T>(s: seq<set<T>>, t: seq<set<T>>) {
    forall k :: 0 <= k < |s| ==> InsideSome(s[k], t)
  }

  /** No two different sets of the collection share an entry. */
  ghost predicate PairwiseDisjoint<T>(R: set<set<T>>) {
    forall S1, S2 :: S1 in R && S2 in R && S1 != S2 ==> S1 !! S2
  }

  /** `t` has the entries of `s`, and each set of `s` lies inside a set of `t`. */
  ghost predicate KeepsEntries<T>(s: seq<set<T>>, t: seq<set<T>>) {
    Covered(t) == Covered(s) && Refines(s, t)
  }

  lemma KeepsEntriesTransitive<T>(s: seq<set<T>>, t: seq<set<T>>, u: seq<set<T>>)
    requires KeepsEntries(s, t) && KeepsEntries(t, u)
    ensures KeepsEntries(s, u)
  {
    RefinesTransitive(s, t, u);
  }

  lemma CoveredMembership<T>(s: seq<set<T>>, x: T)
    ensures x in Covered(s) <==> exists k :: 0 <= k < |s| && x in s[k]
  {
  }

  lemma RefinesReflexive<T>(s: seq<set<T>>)
    ensures Refines(s, s)
  {
    forall k | 0 <= k < |s| ensures InsideSome(s[k], s) {
      assert s[k] <= s[k];
    }
  }

  lemma RefinesTransitive<T>(s: seq<set<T>>, t: seq<set<T>>, u: seq<set<T>>)
    requires Refines(s, t) && Refines(t, u)
    ensures Refines(s, u)
  {
    forall k | 0 <= k < |s| ensures InsideSome(s[k], u) {
      var m :| 0 <= m < |t| && s[k] <= t[m];
      assert InsideSome(t[m], u);
      var p :| 0 <= p < |u| && t[m] <= u[p];
      assert s[k] <= u[p];
    }
  }

  /** A merge step moves entries and loses none: the same entries, and each set inside a set afterwards. */
  lemma StepKeepsEntries<T>(s: seq<set<T>>, i: int, j: int)
    requires 0 <= i < |s| && 0 <= j < |s|
    ensures KeepsEntries(s, Step(s, i, j))
  {
    var t := Step(s, i, j);
    if Overlapping(s, i, j) {
      assert i != j;
      forall x ensures x in Covered(t) <==> x in Covered(s) {
        CoveredMembership(s, x);
        CoveredMembership(t, x);
        if x in Covered(s) {
          var k :| 0 <= k < |s| && x in s[k];
          var m := if k == j then i else k;
          assert x in t[m];
        }
        if x in Covered(t) {
          var k :| 0 <= k < |t| && x in t[k];
          if k == i {
            if x in s[i] {
              assert x in s[i];
            } else {
              assert x in s[j];
            }
          } else {
            assert x in s[k];
          }
        }
      }
      forall k | 0 <= k < |s| ensures InsideSome(s[k], t) {
        var m := if k == j then i else k;
        assert s[k] <= t[m];
      }
    } else {
      RefinesReflexive(s);
    }
  }

  lemma {:induction false} InnerKeepsEntries<T>(s: seq<set<T>>, i: int, j: int)
    requires 0 <= i < |s| && 0 <= j <= |s|
    ensures KeepsEntries(s, Inner(s, i, j))
    decreases |s| - j, 1
  {
    if j < |s| {
      StepKeepsEntries(s, i, j);
      InnerStepKeepsEntries(s, i, j, Step(s, i, j));
    } else {
      RefinesReflexive(s);
    }
  }

  lemma {:induction false} InnerStepKeepsEntries<T>(s: seq<set<T>>, i: int, j: int, t: seq<set<T>>)
    requires 0 <= i < |s| && 0 <= j < |s| && |t| == |s| && KeepsEntries(s, t)
    ensures KeepsEntries(s, Inner(t, i, j + 1))
    decreases |s| - j, 0
  {
    InnerKeepsEntries(t, i, j + 1);
    KeepsEntriesTransitive(s, t, Inner(t, i, j + 1));
  }

  /** The nested loops only move entries between sets: none is lost or invented, and each set ends inside one. */
  lemma {:induction false} OuterKeepsEntries<T>(s: seq<set<T>>, i: int)
    requires 0 <= i <= |s|
    ensures KeepsEntries(s, Outer(s, i))
    decreases |s| - i, 1
  {
    if i < |s| {
      InnerKeepsEntries(s, i, 0);
      OuterStepKeepsEntries(s, i, Inner(s, i, 0));
    } else {
      RefinesReflexive(s);
    }
  }

  lemma {:induction false} OuterStepKeepsEntries<T>(s: seq<set<T>>, i: int, t: seq<set<T>>)
    requires 0 <= i < |s| && |t| == |s| && KeepsEntries(s, t)
    ensures KeepsEntries(s, Outer(t, i + 1))
    decreases |s| - i, 0
  {
    OuterKeepsEntries(t, i + 1);
    KeepsEntriesTransitive(s, t, Outer(t, i + 1));
  }

  /** Filtering out the empty sets of a list that keeps the entries of `s` keeps them too. */
  lemma ResultKeepsEntries<T>(s: seq<set<T>>, t: seq<set<T>>)
    requires KeepsEntries(s, t)
    ensures Union(NonEmptySets(t)) == Covered(s)
    ensures forall k :: 0 <= k < |s| && s[k] != {} ==> exists S :: S in NonEmptySets(t) && s[k] <= S
  {
    var R := NonEmptySets(t);
    forall x ensures x in Union(R) <==> x in Covered(t) {
      CoveredMembership(t, x);
      if x in Union(R) {
        var S :| S in R && x in S;
        var k :| 0 <= k < |t| && NoEmpties(Some(t[k])) && t[k] == S;
        assert x in t[k];
      }
      if x in Covered(t) {
        var k :| 0 <= k < |t| && x in t[k];
        assert t[k] in R;
      }
    }
    forall k | 0 <= k < |s| && s[k] != {} ensures exists S :: S in R && s[k] <= S {
      assert InsideSome(s[k], t);
      var m :| 0 <= m < |t| && s[k] <= t[m];
      var x :| x in s[k];
      assert x in t[m];
      assert t[m] in R;
    }
  }

  /** disjointify as written loses no entry, returns no empty set, and puts each input set inside an output set. */
  lemma DisjointifyKeepsEntries<T>(s: seq<set<T>>)
    ensures Union(NonEmptySets(Outer(s, 0))) == Covered(s)
    ensures forall k :: 0 <= k < |s| && s[k] != {} ==> exists S :: S in NonEmptySets(Outer(s, 0)) && s[k] <= S
  {
    OuterKeepsEntries(s, 0);
    ResultKeepsEntries(s, Outer(s, 0));
  }

  /**
   * The single pass does not merge everything that shares an entry: set 0
   * absorbs {1, 3} and set 1 absorbs {2, 3} afterwards, so both results hold 3.
   */
  lemma DisjointifyOverlaps()
    ensures !PairwiseDisjoint(NonEmptySets(Outer([{1}, {2}, {2, 3}, {1, 3}], 0)))
  {
    var s0: seq<set<int>> := [{1}, {2}, {2, 3}, {1, 3}];
    var s1: seq<set<int>> := [{1, 3}, {2}, {2, 3}, {}];
    var s2: seq<set<int>> := [{1, 3}, {2, 3}, {}, {}];
    assert {1} * {2} == {} && {1} * {2, 3} == {} && {1} * {1, 3} == {1};
    assert Step(s0, 0, 0) == s0 && Step(s0, 0, 1) == s0 && Step(s0, 0, 2) == s0;
    assert 3 in s0[3] && 3 !in s0[0] && {1} + {1, 3} == {1, 3};
    assert Step(s0, 0, 3) == s1;
    assert Inner(s0, 0, 0) == s1 by {
      assert Inner(s1, 0, 4) == s1;
    }
    assert {2} * {1, 3} == {} && {2} * {2, 3} == {2} && {2, 3} * {} == {};
    assert Step(s1, 1, 0) == s1 && Step(s1, 1, 1) == s1;
    assert 3 in s1[2] && 3 !in s1[1] && {2} + {2, 3} == {2, 3};
    assert Step(s1, 1, 2) == s2;
    assert Step(s2, 1, 3) == s2;
    assert Inner(s1, 1, 0) == s2 by {
      assert Inner(s2, 1, 4) == s2;
    }
    assert Inner(s2, 2, 0) == s2 by {
      assert Step(s2, 2, 0) == s2 && Step(s2, 2, 1) == s2 && Step(s2, 2, 2) == s2 && Step(s2, 2, 3) == s2;
    }
    assert Inner(s2, 3, 0) == s2 by {
      assert Step(s2, 3, 0) == s2 && Step(s2, 3, 1) == s2 && Step(s2, 3, 2) == s2 && Step(s2, 3, 3) == s2;
    }
    assert Outer(s0, 0) == s2 by {
      assert Outer(s0, 0) == Outer(s1, 1);
      assert Outer(s1, 1) == Outer(s2, 2);
      assert Outer(s2, 2) == Outer(s2, 3);
      assert Outer(s2, 3) == Outer(s2, 4);
    }
    var R := NonEmptySets(s2);
    assert s2[0] in R && s2[1] in R;
    assert 3 in s2[0] * s2[1];
  }

  /** The nested loops of disjointify, run over the list in place. */
  method MergePass<T(==)>(a: array<set<T>>)
    modifies a
    ensures a[..] == Outer(old(a[..]), 0)
  {
    for i := 0 to a.Length
      invariant Outer(a[..], i) == Outer(old(a[..]), 0)
    {
      for j := 0 to a.Length
        invariant Outer(Inner(a[..], i, j), i + 1) == Outer(old(a[..]), 0)
      {
        MergeStep(a, i, j);
      }
    }
  }

  /** The body of the inner loop, in place: set i absorbs set j and set j is cleared when they overlap. */
  method MergeStep<T(==)>(a: array<set<T>>, i: int, j: int)
    requires 0 <= i < a.Length && 0 <= j < a.Length
    modifies a
    ensures a[..] == Step(old(a[..]), i, j)
  {
    if a[j] != a[i] && a[i] * a[j] != {} {
      a[i] := a[i] + a[j];
      a[j] := {};
    }
  }

  /**
   * disjointify as written: the sets of the list are merged in place by one
   * pass of the nested loops, and the distinct non-empty ones are returned.
   */
  method Disjointify<T(==)>(a: array<set<T>>) returns (r: set<set<T>>)
    modifies a
    ensures a[..] == Outer(old(a[..]), 0)
    ensures r == NonEmptySets(a[..])
  {
    MergePass(a);
    r := NonEmptySets(a[..]);
  }

  // ---------------------------------------------------------------- disjointify, repeated to a fixpoint

  /** The number of non-empty sets in the list; every merge lowers it by one. */
  ghost function CountNonEmpty<T>(s: seq<set<T>>): nat {
    if s == [] then 0 else (if s[0] == {} then 0 else 1) + CountNonEmpty(s[1..])
  }

  lemma {:induction false} CountUpdate<T>(s: seq<set<T>>, k: int, v: set<T>)
    requires 0 <= k < |s|
    ensures CountNonEmpty(s[k := v]) == CountNonEmpty(s) - (if s[k] == {} then 0 else 1) + (if v == {} then 0 else 1)
  {
    if k == 0 {
      assert s[k := v][1..] == s[1..];
    } else {
      assert s[k := v][1..] == s[1..][k - 1 := v];
      CountUpdate(s[1..], k - 1, v);
    }
  }

  lemma StepShrinks<T>(s: seq<set<T>>, i: int, j: int)
    requires 0 <= i < |s| && 0 <= j < |s| && Overlapping(s, i, j)
    ensures CountNonEmpty(Step(s, i, j)) == CountNonEmpty(s) - 1
  {
    var x :| x in s[i] * s[j];
    assert x in s[i] + s[j];
    CountUpdate(s, i, s[i] + s[j]);
    CountUpdate(s[i := s[i] + s[j]], j, {});
  }

  /** The inner loop either merges something, losing a non-empty set, or finds no overlap at all. */
  lemma {:induction false} InnerProgress<T>(s: seq<set<T>>, i: int, j: int)
    requires 0 <= i < |s| && 0 <= j <= |s|
    ensures CountNonEmpty(Inner(s, i, j)) < CountNonEmpty(s) ||
      (Inner(s, i, j) == s && forall l :: j <= l < |s| ==> !Overlapping(s, i, l))
    decreases |s| - j
  {
    if j < |s| {
      var t := Step(s, i, j);
      InnerProgress(t, i, j + 1);
      if Overlapping(s, i, j) {
        StepShrinks(s, i, j);
      }
    }
  }

  /** The single pass either merges something, losing a non-empty set, or finds no overlapping pair. */
  lemma {:induction false} OuterProgress<T>(s: seq<set<T>>, i: int)
    requires 0 <= i <= |s|
    ensures CountNonEmpty(Outer(s, i)) < CountNonEmpty(s) ||
      (Outer(s, i) == s && forall p, l :: i <= p < |s| && 0 <= l < |s| ==> !Overlapping(s, p, l))
    decreases |s| - i
  {
    if i < |s| {
      var t := Inner(s, i, 0);
      InnerProgress(s, i, 0);
      OuterProgress(t, i + 1);
    }
  }

  /** The single pass repeated until it changes nothing. */
  ghost function Merged<T>(s: seq<set<T>>): (r: seq<set<T>>)
    ensures |r| == |s|
    decreases CountNonEmpty(s)
  {
    var t := Outer(s, 0);
    if t == s then s
    else
      OuterProgress(s, 0);
      Merged(t)
  }

  lemma {:induction false} MergedKeepsEntriesStep<T>(s: seq<set<T>>)
    ensures KeepsEntries(s, Merged(s))
    ensures forall p, l :: 0 <= p < |s| && 0 <= l < |s| ==> !Overlapping(Merged(s), p, l)
    decreases CountNonEmpty(s)
  {
    var t := Outer(s, 0);
    OuterProgress(s, 0);
    if t == s {
      RefinesReflexive(s);
    } else {
      OuterKeepsEntries(s, 0);
      MergedKeepsEntriesStep(t);
      KeepsEntriesTransitive(s, t, Merged(t));
    }
  }

  /** Merging to a fixpoint loses no entry and puts each input set inside an output set. */
  lemma MergedKeepsEntries<T>(s: seq<set<T>>)
    ensures Union(NonEmptySets(Merged(s))) == Covered(s)
    ensures forall k :: 0 <= k < |s| && s[k] != {} ==> exists S :: S in NonEmptySets(Merged(s)) && s[k] <= S
  {
    MergedKeepsEntriesStep(s);
    ResultKeepsEntries(s, Merged(s));
  }

  /** Merging to a fixpoint does what the doc comment promises: no two results share an entry. */
  lemma MergedPairwiseDisjoint<T>(s: seq<set<T>>)
    ensures PairwiseDisjoint(NonEmptySets(Merged(s)))
  {
    var t := Merged(s);
    MergedKeepsEntriesStep(s);
    var R := NonEmptySets(t);
    forall S1, S2 | S1 in R && S2 in R && S1 != S2 ensures S1 !! S2 {
      var k1 :| 0 <= k1 < |t| && NoEmpties(Some(t[k1])) && t[k1] == S1;
      var k2 :| 0 <= k2 < |t| && NoEmpties(Some(t[k2])) && t[k2] == S2;
      assert !Overlapping(t, k1, k2);
      assert t[k1] * t[k2] == {};
      forall x | x in S1 ensures x !in S2 {
        assert x !in t[k1] * t[k2];
      }
    }
  }

  /**
   * disjointify corrected: the pass is repeated until it merges nothing, so
   * the sets returned are pairwise disjoint (`MergedPairwiseDisjoint`).
   */
  method DisjointifyToFixpoint<T(==)>(a: array<set<T>>) returns (r: set<set<T>>)
    modifies a
    ensures a[..] == Merged(old(a[..]))
    ensures r == NonEmptySets(a[..])
  {
    var before := a[..];
    MergePass(a);
    while a[..] != before
      invariant Merged(before) == Merged(old(a[..]))
      invariant a[..] == Outer(before, 0)
      decreases CountNonEmpty(before)
    {
      OuterProgress(before, 0);
      before := a[..];
      MergePass(a);
    }
    r := NonEmptySets(a[..]);
  }
}

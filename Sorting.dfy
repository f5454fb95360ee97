/**
 * `Array.prototype.sort` with a consistent comparator. Since ECMA-262 (2019
 * edition) the sort is stable, so its result is determined: the elements in
 * ascending order, and elements the comparator calls equal in their input
 * order. The model computes that result by insertion; which algorithm the
 * engine uses is not observable.
 *
 * A comparator `cmp` is given here as its "not greater than" relation
 * `le(a, b) == (cmp(a, b) <= 0)`, which a consistent comparator makes a total
 * preorder.
 */
module Sorting {

  ghost predicate TotalPreorder<T(!new)>(le: (T, T) -> bool)
  {
    && (forall a, b :: le(a, b) || le(b, a))
    && (forall a, b, c {:trigger Chain(a, b, c, le)} :: Chain(a, b, c, le) ==> le(a, c))
  }

  /** `a`, `b`, `c` ascend; the trigger of transitivity, so that it is used only
      where a proof asks for it (through Transitive). */
  predicate Chain<T>(a: T, b: T, c: T, le: (T, T) -> bool)
  {
    le(a, b) && le(b, c)
  }

  lemma Transitive<T(!new)>(a: T, b: T, c: T, le: (T, T) -> bool)
    requires TotalPreorder(le) && le(a, b) && le(b, c)
    ensures le(a, c)
  {
    assert Chain(a, b, c, le);
  }

  // ---------------------------------------------------------------------
  // Small facts about sequences, stated once so that proofs cite them
  // ---------------------------------------------------------------------

  lemma Cons<T>(s: seq<T>)
    requires s != []
    ensures [s[0]] + s[1..] == s
  {
  }

  lemma Snoc<T>(s: seq<T>)
    requires s != []
    ensures s[..|s| - 1] + [s[|s| - 1]] == s
  {
  }

  lemma Split<T>(b: seq<T>, j: nat)
    requires j < |b|
    ensures b == b[..j] + [b[j]] + b[j + 1..]
  {
  }

  lemma Assoc<T>(x: seq<T>, y: seq<T>, z: seq<T>)
    ensures x + (y + z) == (x + y) + z
  {
  }

  lemma ConsAppend<T>(a: seq<T>, b: seq<T>)
    requires a != []
    ensures a + b != [] && (a + b)[0] == a[0] && (a + b)[1..] == a[1..] + b
  {
  }

  lemma MultisetCons<T>(s: seq<T>)
    requires s != []
    ensures multiset(s) == multiset{s[0]} + multiset(s[1..])
  {
    Cons(s);
  }

  ghost predicate Sorted<T>(s: seq<T>, le: (T, T) -> bool)
  {
    forall i, j :: 0 <= i < j < |s| ==> le(s[i], s[j])
  }

  predicate Equivalent<T>(a: T, b: T, le: (T, T) -> bool)
  {
    le(a, b) && le(b, a)
  }

  /** The elements of `s` the comparator calls equal to `k`, in their order in `s`. */
  function EquivalenceClass<T>(s: seq<T>, k: T, le: (T, T) -> bool): (r: seq<T>)
    ensures |r| <= |s|
    ensures forall y :: y in r ==> y in s && Equivalent(y, k, le)
  {
    if s == [] then []
    else (if Equivalent(s[0], k, le) then [s[0]] else []) + EquivalenceClass(s[1..], k, le)
  }

  /** Places `x` after every element of the sorted `s` that is not greater than it. */
  function Insert<T>(x: T, s: seq<T>, le: (T, T) -> bool): (r: seq<T>)
    ensures multiset(r) == multiset(s) + multiset{x}
    ensures |r| == |s| + 1
  {
    if s == [] then [x]
    else if le(s[0], x) then
      assert s == [s[0]] + s[1..];
      [s[0]] + Insert(x, s[1..], le)
    else [x] + s
  }

  /** The result of sorting `s` stably by `le`. */
  function Sort<T>(s: seq<T>, le: (T, T) -> bool): (r: seq<T>)
    ensures multiset(r) == multiset(s)
    ensures |r| == |s|
  {
    if s == [] then []
    else
      assert s == s[..|s| - 1] + [s[|s| - 1]];
      Insert(s[|s| - 1], Sort(s[..|s| - 1], le), le)
  }

  /** Two copies of one element sort to themselves. */
  lemma SortTwin<T>(x: T, le: (T, T) -> bool)
    ensures Sort([x, x], le) == [x, x]
  {
    var r := Sort([x, x], le);
    assert r[0] in multiset([x, x]) && r[1] in multiset([x, x]);
  }

  lemma {:induction false} InsertSorted<T(!new)>(x: T, s: seq<T>, le: (T, T) -> bool)
    requires TotalPreorder(le) && Sorted(s, le)
    ensures Sorted(Insert(x, s, le), le)
  {
    if s != [] && le(s[0], x) {
      var tail := Insert(x, s[1..], le);
      InsertSorted(x, s[1..], le);
      forall j | 0 <= j < |tail| ensures le(s[0], tail[j]) {
        assert tail[j] in multiset(tail);
        assert tail[j] == x || tail[j] in multiset(s[1..]);
      }
      ConsSorted(s[0], tail, le);
    } else if s != [] {
      forall j | 0 <= j < |s| ensures le(x, s[j]) {
        Transitive(x, s[0], s[j], le);
      }
      ConsSorted(x, s, le);
    }
  }

  lemma ConsSorted<T>(h: T, t: seq<T>, le: (T, T) -> bool)
    requires Sorted(t, le) && forall j :: 0 <= j < |t| ==> le(h, t[j])
    ensures Sorted([h] + t, le)
  {
    forall i, j | 0 <= i < j < |[h] + t| ensures le(([h] + t)[i], ([h] + t)[j]) {
      assert ([h] + t)[j] == t[j - 1];
      if i > 0 {
        assert ([h] + t)[i] == t[i - 1];
      }
    }
  }

  /** Sorting yields an ascending sequence. */
  lemma {:induction false} SortSorted<T(!new)>(s: seq<T>, le: (T, T) -> bool)
    requires TotalPreorder(le)
    ensures Sorted(Sort(s, le), le)
  {
    if s != [] {
      SortSorted(s[..|s| - 1], le);
      InsertSorted(s[|s| - 1], Sort(s[..|s| - 1], le), le);
    }
  }

  lemma {:induction false} EquivalenceClassAppend<T>(a: seq<T>, b: seq<T>, k: T, le: (T, T) -> bool)
    ensures EquivalenceClass(a + b, k, le) == EquivalenceClass(a, k, le) + EquivalenceClass(b, k, le)
  {
    if a == [] {
      assert a + b == b;
    } else {
      ConsAppend(a, b);
      EquivalenceClassAppend(a[1..], b, k, le);
      var head := if Equivalent(a[0], k, le) then [a[0]] else [];
      Assoc(head, EquivalenceClass(a[1..], k, le), EquivalenceClass(b, k, le));
    }
  }

  lemma {:induction false} EquivalenceClassNone<T>(s: seq<T>, k: T, le: (T, T) -> bool)
    requires forall j :: 0 <= j < |s| ==> !Equivalent(s[j], k, le)
    ensures EquivalenceClass(s, k, le) == []
  {
    if s != [] {
      EquivalenceClassNone(s[1..], k, le);
    }
  }

  lemma {:induction false} InsertStable<T(!new)>(x: T, s: seq<T>, k: T, le: (T, T) -> bool)
    requires TotalPreorder(le) && Sorted(s, le)
    ensures EquivalenceClass(Insert(x, s, le), k, le)
         == EquivalenceClass(s, k, le) + (if Equivalent(x, k, le) then [x] else [])
  {
    if s == [] {
    } else if le(s[0], x) {
      InsertStable(x, s[1..], k, le);
      InsertStableStep(x, s, k, le);
    } else {
      InsertStableFront(x, s, k, le);
    }
  }

  lemma InsertStableStep<T>(x: T, s: seq<T>, k: T, le: (T, T) -> bool)
    requires s != [] && le(s[0], x)
    requires EquivalenceClass(Insert(x, s[1..], le), k, le)
          == EquivalenceClass(s[1..], k, le) + (if Equivalent(x, k, le) then [x] else [])
    ensures EquivalenceClass(Insert(x, s, le), k, le)
         == EquivalenceClass(s, k, le) + (if Equivalent(x, k, le) then [x] else [])
  {
    var tail := if Equivalent(x, k, le) then [x] else [];
    var head := EquivalenceClass([s[0]], k, le);
    EquivalenceClassAppend([s[0]], Insert(x, s[1..], le), k, le);
    EquivalenceClassAppend([s[0]], s[1..], k, le);
    Cons(s);
    calc {
      EquivalenceClass(Insert(x, s, le), k, le);
      EquivalenceClass([s[0]] + Insert(x, s[1..], le), k, le);
      head + EquivalenceClass(Insert(x, s[1..], le), k, le);
      head + (EquivalenceClass(s[1..], k, le) + tail);
      (head + EquivalenceClass(s[1..], k, le)) + tail;
      EquivalenceClass([s[0]] + s[1..], k, le) + tail;
      EquivalenceClass(s, k, le) + tail;
    }
  }

  lemma InsertStableFront<T(!new)>(x: T, s: seq<T>, k: T, le: (T, T) -> bool)
    requires TotalPreorder(le) && Sorted(s, le) && s != [] && !le(s[0], x)
    ensures EquivalenceClass(Insert(x, s, le), k, le)
         == EquivalenceClass(s, k, le) + (if Equivalent(x, k, le) then [x] else [])
  {
    EquivalenceClassAppend([x], s, k, le);
    if Equivalent(x, k, le) {
      forall j | 0 <= j < |s| ensures !Equivalent(s[j], k, le) {
        if Equivalent(s[j], k, le) {
          Transitive(s[j], k, x, le);
          Transitive(s[0], s[j], x, le);
        }
      }
      EquivalenceClassNone(s, k, le);
    }
  }

  /** Sorting is stable: the elements of each equivalence class keep their input order. */
  lemma {:induction false} SortStable<T(!new)>(s: seq<T>, k: T, le: (T, T) -> bool)
    requires TotalPreorder(le)
    ensures EquivalenceClass(Sort(s, le), k, le) == EquivalenceClass(s, k, le)
  {
    if s != [] {
      var init, last := s[..|s| - 1], s[|s| - 1];
      var tail := if Equivalent(last, k, le) then [last] else [];
      SortStable(init, k, le);
      SortSorted(init, le);
      InsertStable(last, Sort(init, le), k, le);
      EquivalenceClassAppend(init, [last], k, le);
      assert EquivalenceClass([last], k, le) == tail by { assert [last][1..] == []; }
      calc {
        EquivalenceClass(Sort(s, le), k, le);
        EquivalenceClass(Insert(last, Sort(init, le), le), k, le);
        EquivalenceClass(Sort(init, le), k, le) + tail;
        EquivalenceClass(init, k, le) + tail;
        EquivalenceClass(init + [last], k, le);
        { Snoc(s); }
        EquivalenceClass(s, k, le);
      }
    }
  }

  /** An already ascending sequence is left as it is. */
  lemma {:induction false} SortOfSorted<T(!new)>(s: seq<T>, le: (T, T) -> bool)
    requires TotalPreorder(le) && Sorted(s, le)
    ensures Sort(s, le) == s
  {
    if s != [] {
      var init, last := s[..|s| - 1], s[|s| - 1];
      SortOfSorted(init, le);
      InsertAtEnd(last, init, le);
      Snoc(s);
    }
  }

  lemma {:induction false} InsertAtEnd<T>(x: T, s: seq<T>, le: (T, T) -> bool)
    requires forall j :: 0 <= j < |s| ==> le(s[j], x)
    ensures Insert(x, s, le) == s + [x]
  {
    if s != [] {
      InsertAtEnd(x, s[1..], le);
      assert [s[0]] + (s[1..] + [x]) == s + [x];
    }
  }

  // ---------------------------------------------------------------------
  // Mapping, distinct keys, uniqueness and relative order
  // ---------------------------------------------------------------------

  /** `s.map(f)`. */
  function Map<T, U>(s: seq<T>, f: T -> U): (r: seq<U>)
    ensures |r| == |s|
    ensures forall i :: 0 <= i < |s| ==> r[i] == f(s[i])
  {
    if s == [] then [] else [f(s[0])] + Map(s[1..], f)
  }

  lemma MapAppend<T, U>(a: seq<T>, b: seq<T>, f: T -> U)
    ensures Map(a + b, f) == Map(a, f) + Map(b, f)
  {
    assert forall i :: 0 <= i < |a + b| ==> Map(a + b, f)[i] == (Map(a, f) + Map(b, f))[i];
  }

  /** Removing the element at `j` from a sequence removes one copy of it from its multiset. */
  lemma MultisetRemove<T>(b: seq<T>, j: nat)
    requires j < |b|
    ensures multiset(b[..j] + b[j + 1..]) == multiset(b) - multiset{b[j]}
  {
    Split(b, j);
  }

  /** Mapping two permutations of each other gives permutations of each other. */
  lemma {:induction false} MapPermutation<T, U>(a: seq<T>, b: seq<T>, f: T -> U)
    requires multiset(a) == multiset(b)
    ensures multiset(Map(a, f)) == multiset(Map(b, f))
  {
    if a == [] {
      assert |b| == |multiset(b)| == 0;
    } else {
      assert a[0] in multiset(b);
      var j :| 0 <= j < |b| && b[j] == a[0];
      RemoveMatching(a, b, j);
      MapPermutation(a[1..], b[..j] + b[j + 1..], f);
      MapPermutationStep(a, b, j, f);
    }
  }

  lemma RemoveMatching<T>(a: seq<T>, b: seq<T>, j: nat)
    requires multiset(a) == multiset(b) && a != [] && j < |b| && b[j] == a[0]
    ensures multiset(a[1..]) == multiset(b[..j] + b[j + 1..])
  {
    MultisetRemove(b, j);
    MultisetCons(a);
    assert multiset(a[1..]) == multiset(a) - multiset{a[0]};
  }

  lemma MapPermutationStep<T, U>(a: seq<T>, b: seq<T>, j: nat, f: T -> U)
    requires a != [] && j < |b| && b[j] == a[0]
    requires multiset(Map(a[1..], f)) == multiset(Map(b[..j] + b[j + 1..], f))
    ensures multiset(Map(a, f)) == multiset(Map(b, f))
  {
    MapRemove(b, j, f);
    MapRemove(a, 0, f);
    assert a[..0] + a[1..] == a[1..];
  }

  /** Mapping commutes with removing the element at `j`, counted as multisets. */
  lemma MapRemove<T, U>(b: seq<T>, j: nat, f: T -> U)
    requires j < |b|
    ensures multiset(Map(b, f)) == multiset(Map(b[..j] + b[j + 1..], f)) + multiset{f(b[j])}
  {
    Split(b, j);
    MapAppend(b[..j] + [b[j]], b[j + 1..], f);
    MapAppend(b[..j], [b[j]], f);
    MapAppend(b[..j], b[j + 1..], f);
  }

  /** No two elements of `s` share a key. */
  ghost predicate DistinctBy<T, K>(s: seq<T>, key: T -> K)
  {
    forall i, j :: 0 <= i < j < |s| ==> key(s[i]) != key(s[j])
  }

  lemma {:induction false} InsertDistinctBy<T, K>(x: T, s: seq<T>, le: (T, T) -> bool, key: T -> K)
    requires DistinctBy(s, key)
    requires forall j :: 0 <= j < |s| ==> key(s[j]) != key(x)
    ensures DistinctBy(Insert(x, s, le), key)
  {
    if s != [] && le(s[0], x) {
      var tail := Insert(x, s[1..], le);
      InsertDistinctBy(x, s[1..], le, key);
      forall j | 0 <= j < |tail| ensures key(s[0]) != key(tail[j]) {
        assert tail[j] in multiset(tail);
        if tail[j] != x {
          assert tail[j] in multiset(s[1..]);
          var k :| 0 <= k < |s[1..]| && s[1..][k] == tail[j];
          assert s[k + 1] == tail[j];
        }
      }
      var r := [s[0]] + tail;
      forall i, j | 0 <= i < j < |r| ensures key(r[i]) != key(r[j]) {
        if i > 0 {
          assert r[i] == tail[i - 1] && r[j] == tail[j - 1];
        }
      }
    } else if s != [] {
      var r := [x] + s;
      forall i, j | 0 <= i < j < |r| ensures key(r[i]) != key(r[j]) {
        if i > 0 {
          assert r[i] == s[i - 1] && r[j] == s[j - 1];
        }
      }
    }
  }

  /** Sorting keeps keys distinct. */
  lemma {:induction false} SortDistinctBy<T, K>(s: seq<T>, le: (T, T) -> bool, key: T -> K)
    requires DistinctBy(s, key)
    ensures DistinctBy(Sort(s, le), key)
  {
    if s != [] {
      var init, last := s[..|s| - 1], s[|s| - 1];
      SortDistinctBy(init, le, key);
      var sorted := Sort(init, le);
      forall j | 0 <= j < |sorted| ensures key(sorted[j]) != key(last) {
        assert sorted[j] in multiset(init);
        var k :| 0 <= k < |init| && init[k] == sorted[j];
        assert s[k] == sorted[j];
      }
      InsertDistinctBy(last, sorted, le, key);
    }
  }

  /** No element of `s` is "not greater" than an earlier one. */
  ghost predicate StrictlySorted<T>(s: seq<T>, le: (T, T) -> bool)
  {
    forall i, j :: 0 <= i < j < |s| ==> !le(s[j], s[i])
  }

  /** An ascending permutation of a strictly ascending sequence is that sequence. */
  lemma {:induction false} SortedUnique<T(!new)>(a: seq<T>, b: seq<T>, le: (T, T) -> bool)
    requires TotalPreorder(le) && Sorted(a, le) && StrictlySorted(b, le)
    requires multiset(a) == multiset(b)
    ensures a == b
    decreases |a|
  {
    assert |a| == |multiset(a)| == |multiset(b)| == |b|;
    if a != [] {
      SortedHeads(a, b, le);
      SortedTails(a, b, le);
      SortedUnique(a[1..], b[1..], le);
      Cons(a);
      Cons(b);
    }
  }

  lemma SortedHeads<T(!new)>(a: seq<T>, b: seq<T>, le: (T, T) -> bool)
    requires TotalPreorder(le) && Sorted(a, le) && StrictlySorted(b, le)
    requires multiset(a) == multiset(b) && a != [] && b != []
    ensures a[0] == b[0]
  {
    assert a[0] in multiset(b);
    var k :| 0 <= k < |b| && b[k] == a[0];
    assert b[0] in multiset(a);
    var l :| 0 <= l < |a| && a[l] == b[0];
    assert le(a[0], a[l]);
    if k != 0 {
      assert false;
    }
  }

  lemma SortedTails<T>(a: seq<T>, b: seq<T>, le: (T, T) -> bool)
    requires Sorted(a, le) && StrictlySorted(b, le)
    requires multiset(a) == multiset(b) && a != [] && b != [] && a[0] == b[0]
    ensures Sorted(a[1..], le) && StrictlySorted(b[1..], le)
    ensures multiset(a[1..]) == multiset(b[1..])
  {
    MultisetCons(a);
    MultisetCons(b);
    assert multiset(a[1..]) == multiset(a) - multiset{a[0]};
    assert multiset(b[1..]) == multiset(b) - multiset{b[0]};
  }

  /** `x` occurs in `s` somewhere before an occurrence of `y`. */
  ghost predicate Before<T>(x: T, y: T, s: seq<T>)
  {
    exists p, q :: 0 <= p < q < |s| && s[p] == x && s[q] == y
  }

  /** Where Insert places its element: after the leading run of elements not greater than it. */
  function InsertionPoint<T>(x: T, s: seq<T>, le: (T, T) -> bool): (k: nat)
    ensures k <= |s|
    ensures forall i :: 0 <= i < k ==> le(s[i], x)
    ensures k < |s| ==> !le(s[k], x)
  {
    if s == [] || !le(s[0], x) then 0 else 1 + InsertionPoint(x, s[1..], le)
  }

  lemma {:induction false} InsertShape<T>(x: T, s: seq<T>, le: (T, T) -> bool)
    ensures Insert(x, s, le) == s[..InsertionPoint(x, s, le)] + [x] + s[InsertionPoint(x, s, le)..]
  {
    if s != [] && le(s[0], x) {
      var t := s[1..];
      var k' := InsertionPoint(x, t, le);
      InsertShape(x, t, le);
      assert InsertionPoint(x, s, le) == k' + 1;
      ShapeCons(s[0], t, k', x);
      Cons(s);
      calc {
        Insert(x, s, le);
        [s[0]] + Insert(x, t, le);
        [s[0]] + (t[..k'] + [x] + t[k'..]);
        ([s[0]] + t)[..k' + 1] + [x] + ([s[0]] + t)[k' + 1..];
        s[..k' + 1] + [x] + s[k' + 1..];
      }
    } else {
      assert s[..0] == [] && s[0..] == s;
    }
  }

  lemma ShapeCons<T>(h: T, t: seq<T>, k: nat, x: T)
    requires k <= |t|
    ensures [h] + (t[..k] + [x] + t[k..]) == ([h] + t)[..k + 1] + [x] + ([h] + t)[k + 1..]
  {
    assert ([h] + t)[..k + 1] == [h] + t[..k];
    assert ([h] + t)[k + 1..] == t[k..];
  }

  lemma InsertKeepsBefore<T>(x: T, y: T, z: T, s: seq<T>, le: (T, T) -> bool)
    requires Before(x, y, s)
    ensures Before(x, y, Insert(z, s, le))
  {
    var p, q :| 0 <= p < q < |s| && s[p] == x && s[q] == y;
    var k := InsertionPoint(z, s, le);
    InsertShape(z, s, le);
    var r := Insert(z, s, le);
    var p' := if p < k then p else p + 1;
    var q' := if q < k then q else q + 1;
    assert r[p'] == x && r[q'] == y;
  }

  /** Stability, stated on positions: an element not greater than a later one
      stays before it. */
  lemma {:induction false} SortKeepsOrder<T(!new)>(s: seq<T>, i: nat, j: nat, le: (T, T) -> bool)
    requires TotalPreorder(le) && i < j < |s| && le(s[i], s[j])
    ensures Before(s[i], s[j], Sort(s, le))
  {
    var init := s[..|s| - 1];
    if j < |s| - 1 {
      SortKeepsOrder(init, i, j, le);
      InsertKeepsBefore(s[i], s[j], s[|s| - 1], Sort(init, le), le);
    } else {
      SortKeepsOrderLast(s, i, le);
    }
  }

  lemma SortKeepsOrderLast<T(!new)>(s: seq<T>, i: nat, le: (T, T) -> bool)
    requires TotalPreorder(le) && i < |s| - 1 && le(s[i], s[|s| - 1])
    ensures Before(s[i], s[|s| - 1], Sort(s, le))
  {
    var init := s[..|s| - 1];
    assert init[i] == s[i];
    assert s[i] in multiset(Sort(init, le));
    SortSorted(init, le);
    InsertAfterSmaller(s[i], s[|s| - 1], Sort(init, le), le);
  }

  /** Inserting `y` into an ascending sequence puts it after every element not greater than it. */
  lemma InsertAfterSmaller<T(!new)>(x: T, y: T, s: seq<T>, le: (T, T) -> bool)
    requires TotalPreorder(le) && Sorted(s, le) && x in s && le(x, y)
    ensures Before(x, y, Insert(y, s, le))
  {
    var p :| 0 <= p < |s| && s[p] == x;
    var k := InsertionPoint(y, s, le);
    if p >= k {
      if p > k {
        assert le(s[k], s[p]);
        Transitive(s[k], s[p], y, le);
      }
      assert false;
    }
    InsertShape(y, s, le);
    var r := Insert(y, s, le);
    assert r[p] == x && r[k] == y;
  }
}

/**
 * `Array.prototype.sort` with a comparator, as both sorts of the extension call it on a fresh
 * array. The engine's algorithm is not fixed by the language, so the model sorts by stable
 * insertion: each element moves left past every neighbour `y` for which `cmp(y, x) > 0`.
 * `SortSpec` is the value-level definition; `InsertionSort` does the same in place on an array.
 * `Array.prototype.filter`, which the search runs before it sorts, is `Filter`.
 */
module Sorting {

  /** Inserts `x` behind the longest suffix of `s` that the comparator puts after `x`. */
  function Insert<T>(s: seq<T>, x: T, cmp: (T, T) -> int): (r: seq<T>)
    ensures |r| == |s| + 1
    decreases |s|
  {
    if s == [] || cmp(s[|s| - 1], x) <= 0 then s + [x]
    else Insert(s[..|s| - 1], x, cmp) + [s[|s| - 1]]
  }

  /** The result of sorting `s` with `cmp`. */
  function SortSpec<T>(s: seq<T>, cmp: (T, T) -> int): (r: seq<T>)
    ensures |r| == |s|
  {
    if s == [] then []
    else Insert(SortSpec(s[..|s| - 1], cmp), s[|s| - 1], cmp)
  }

  lemma {:induction false} InsertPermutes<T>(s: seq<T>, x: T, cmp: (T, T) -> int)
    ensures multiset(Insert(s, x, cmp)) == multiset(s) + multiset{x}
    decreases |s|
  {
    if s != [] && cmp(s[|s| - 1], x) > 0 {
      InsertPermutes(s[..|s| - 1], x, cmp);
      assert s == s[..|s| - 1] + [s[|s| - 1]];
    }
  }

  /** Sorting neither adds, drops nor duplicates an element. */
  lemma {:induction false} SortPermutes<T>(s: seq<T>, cmp: (T, T) -> int)
    ensures multiset(SortSpec(s, cmp)) == multiset(s)
  {
    if s != [] {
      SortPermutes(s[..|s| - 1], cmp);
      InsertPermutes(SortSpec(s[..|s| - 1], cmp), s[|s| - 1], cmp);
      assert s == s[..|s| - 1] + [s[|s| - 1]];
    }
  }

  /** Three elements, each after every later one, come out reversed. */
  lemma SortThreeReversed<T>(a: T, b: T, c: T, cmp: (T, T) -> int)
    requires cmp(a, b) > 0 && cmp(b, c) > 0 && cmp(a, c) > 0
    ensures SortSpec([a, b, c], cmp) == [c, b, a]
  {
    assert [a, b, c][..2] == [a, b] && [a, b][..1] == [a] && [a][..0] == [];
    assert SortSpec([a], cmp) == [a];
    assert [b, a][..1] == [b] && [b][..0] == [];
    assert Insert([a], b, cmp) == [b, a];
    assert SortSpec([a, b], cmp) == [b, a];
    assert Insert([b], c, cmp) == [c, b];
    assert Insert([b, a], c, cmp) == [c, b, a];
  }

  /** Sorts `a` in place; the result is `SortSpec` of the original contents. */
  method InsertionSort<T>(a: array<T>, cmp: (T, T) -> int)
    modifies a
    ensures a[..] == SortSpec(old(a[..]), cmp)
  {
    ghost var orig := a[..];
    var i := 0;
    while i < a.Length
      invariant 0 <= i <= a.Length
      invariant a[..i] == SortSpec(orig[..i], cmp)
      invariant a[i..] == orig[i..]
    {
      assert a[i] == orig[i] by { assert a[i..][0] == orig[i..][0]; }
      InsertNext(a, i, cmp);
      assert orig[..i + 1][..i] == orig[..i];
      i := i + 1;
    }
    assert orig[..a.Length] == orig;
  }

  /** Sorts a fresh array holding `s` and returns its contents. */
  method SortedCopy<T>(s: seq<T>, cmp: (T, T) -> int) returns (r: seq<T>)
    ensures r == SortSpec(s, cmp)
  {
    var a := new T[|s|](i requires 0 <= i < |s| => s[i]);
    assert a[..] == s;
    InsertionSort(a, cmp);
    r := a[..];
  }

  /** Moves `a[i]` left into the sorted prefix `a[..i]`, shifting the elements it passes. */
  method InsertNext<T>(a: array<T>, i: nat, cmp: (T, T) -> int)
    requires i < a.Length
    modifies a
    ensures a[..i + 1] == Insert(old(a[..i]), old(a[i]), cmp)
    ensures a[i + 1..] == old(a[i + 1..])
  {
    var x := a[i];
    ghost var sorted := a[..i];
    var j := i;
    while j > 0 && cmp(a[j - 1], x) > 0
      invariant 0 <= j <= i
      invariant forall k :: 0 <= k < j ==> a[k] == sorted[k]
      invariant forall k :: j < k <= i ==> a[k] == sorted[k - 1]
      invariant forall k :: i < k < a.Length ==> a[k] == old(a[k])
      invariant forall k :: j <= k < i ==> cmp(sorted[k], x) > 0
    {
      a[j] := a[j - 1];
      j := j - 1;
    }
    InsertAt(sorted, x, cmp, j);
    a[j] := x;
    Assemble(a[..], sorted, x, j);
    assert a[i + 1..] == old(a[i + 1..]);
  }

  /** A sequence that holds `sorted[..j]`, then `x`, then `sorted[j..]`, position by position. */
  lemma Assemble<T>(b: seq<T>, sorted: seq<T>, x: T, j: nat)
    requires j <= |sorted| < |b|
    requires forall k :: 0 <= k < j ==> b[k] == sorted[k]
    requires b[j] == x
    requires forall k :: j < k <= |sorted| ==> b[k] == sorted[k - 1]
    ensures b[..|sorted| + 1] == sorted[..j] + [x] + sorted[j..]
  {
    var r := sorted[..j] + [x] + sorted[j..];
    forall k | 0 <= k <= |sorted| ensures b[k] == r[k] {
      if k > j {
        assert r[k] == sorted[j..][k - j - 1];
      }
    }
  }

  /** `x` is inserted at `j` when everything from `j` on is after it and the element before `j`
      is not. */
  lemma {:induction false} InsertAt<T>(s: seq<T>, x: T, cmp: (T, T) -> int, j: nat)
    requires j <= |s|
    requires forall k :: j <= k < |s| ==> cmp(s[k], x) > 0
    requires j == 0 || cmp(s[j - 1], x) <= 0
    ensures Insert(s, x, cmp) == s[..j] + [x] + s[j..]
    decreases |s|
  {
    if |s| == j {
      assert s[..j] == s && s[j..] == [];
    } else {
      var init := s[..|s| - 1];
      InsertAt(init, x, cmp, j);
      assert init[..j] == s[..j];
      assert init[j..] + [s[|s| - 1]] == s[j..];
    }
  }

  // ---------------------------------------------------------------------------------------------
  // What the result satisfies, depending on what the comparator satisfies

  /** `cmp(x, y) > 0` and `cmp(y, x) > 0` never hold together. */
  ghost predicate Asymmetric<T(!new)>(cmp: (T, T) -> int) {
    forall x, y :: cmp(x, y) > 0 ==> cmp(y, x) <= 0
  }

  /** "Not after" is transitive: with asymmetry, this makes `cmp` a strict weak order. */
  ghost predicate NegativelyTransitive<T(!new)>(cmp: (T, T) -> int) {
    forall x, y, z :: cmp(x, y) <= 0 && cmp(y, z) <= 0 ==> cmp(x, z) <= 0
  }

  /** Every element is "not after" every later one. */
  ghost predicate Ordered<T>(s: seq<T>, cmp: (T, T) -> int) {
    forall i, j :: 0 <= i < j < |s| ==> cmp(s[i], s[j]) <= 0
  }

  /** Every element is "not after" its right neighbour. */
  ghost predicate AdjacentOrdered<T>(s: seq<T>, cmp: (T, T) -> int) {
    forall i :: 0 <= i < |s| - 1 ==> cmp(s[i], s[i + 1]) <= 0
  }

  /** The comparator decides first by `rank`: lower rank first. */
  ghost predicate RankFirst<T(!new)>(cmp: (T, T) -> int, rank: T -> int) {
    forall x, y :: (rank(x) < rank(y) ==> cmp(y, x) > 0) && (rank(y) < rank(x) ==> cmp(y, x) <= 0)
  }

  ghost predicate GroupedBy<T>(s: seq<T>, rank: T -> int) {
    forall i, j :: 0 <= i < j < |s| ==> rank(s[i]) <= rank(s[j])
  }

  /** `Insert` places `x` at some index `k`: everything it passed is after `x`, and the element
      it stopped at is not. */
  lemma {:induction false} InsertShape<T>(s: seq<T>, x: T, cmp: (T, T) -> int) returns (k: nat)
    ensures k <= |s| && Insert(s, x, cmp) == s[..k] + [x] + s[k..]
    ensures forall j :: k <= j < |s| ==> cmp(s[j], x) > 0
    ensures k > 0 ==> cmp(s[k - 1], x) <= 0
    decreases |s|
  {
    if s == [] || cmp(s[|s| - 1], x) <= 0 {
      k := |s|;
      assert s[..k] == s && s[k..] == [];
    } else {
      var init := s[..|s| - 1];
      k := InsertShape(init, x, cmp);
      assert init[..k] == s[..k];
      assert init[k..] + [s[|s| - 1]] == s[k..];
      forall j | k <= j < |s| ensures cmp(s[j], x) > 0 {
        if j < |s| - 1 { assert s[j] == init[j]; }
      }
    }
  }

  lemma InsertOrdered<T(!new)>(s: seq<T>, x: T, cmp: (T, T) -> int)
    requires Asymmetric(cmp) && NegativelyTransitive(cmp)
    requires Ordered(s, cmp)
    ensures Ordered(Insert(s, x, cmp), cmp)
  {
    var k := InsertShape(s, x, cmp);
    var r := Insert(s, x, cmp);
    forall i, j | 0 <= i < j < |r| ensures cmp(r[i], r[j]) <= 0 {
      if j < k {
        assert r[i] == s[i] && r[j] == s[j];
      } else if j == k {
        assert r[i] == s[i] && r[j] == x;
        if i < k - 1 {
          assert cmp(s[i], s[k - 1]) <= 0;
        }
      } else if i == k {
        assert r[i] == x && r[j] == s[j - 1];
        assert cmp(s[j - 1], x) > 0;
      } else if i < k {
        assert r[i] == s[i] && r[j] == s[j - 1];
      } else {
        assert r[i] == s[i - 1] && r[j] == s[j - 1];
      }
    }
  }

  /** With a strict weak order, the result is sorted. */
  lemma {:induction false} SortOrdered<T(!new)>(s: seq<T>, cmp: (T, T) -> int)
    requires Asymmetric(cmp) && NegativelyTransitive(cmp)
    ensures Ordered(SortSpec(s, cmp), cmp)
  {
    if s != [] {
      SortOrdered(s[..|s| - 1], cmp);
      InsertOrdered(SortSpec(s[..|s| - 1], cmp), s[|s| - 1], cmp);
    }
  }

  lemma InsertAdjacentOrdered<T(!new)>(s: seq<T>, x: T, cmp: (T, T) -> int)
    requires Asymmetric(cmp)
    requires AdjacentOrdered(s, cmp)
    ensures AdjacentOrdered(Insert(s, x, cmp), cmp)
  {
    var k := InsertShape(s, x, cmp);
    var r := Insert(s, x, cmp);
    forall i | 0 <= i < |r| - 1 ensures cmp(r[i], r[i + 1]) <= 0 {
      if i + 1 < k {
        assert r[i] == s[i] && r[i + 1] == s[i + 1];
      } else if i + 1 == k {
        assert r[i] == s[k - 1] && r[i + 1] == x;
      } else if i == k {
        assert r[i] == x && r[i + 1] == s[k];
        assert cmp(s[k], x) > 0;
      } else {
        assert r[i] == s[i - 1] && r[i + 1] == s[i];
      }
    }
  }

  /** With an asymmetric comparator, every neighbouring pair of the result is in order, even when
      the comparator is not transitive. */
  lemma {:induction false} SortAdjacentOrdered<T(!new)>(s: seq<T>, cmp: (T, T) -> int)
    requires Asymmetric(cmp)
    ensures AdjacentOrdered(SortSpec(s, cmp), cmp)
  {
    if s != [] {
      SortAdjacentOrdered(s[..|s| - 1], cmp);
      InsertAdjacentOrdered(SortSpec(s[..|s| - 1], cmp), s[|s| - 1], cmp);
    }
  }

  lemma InsertGrouped<T(!new)>(s: seq<T>, x: T, cmp: (T, T) -> int, rank: T -> int)
    requires RankFirst(cmp, rank)
    requires GroupedBy(s, rank)
    ensures GroupedBy(Insert(s, x, cmp), rank)
  {
    var k := InsertShape(s, x, cmp);
    var r := Insert(s, x, cmp);
    forall i, j | 0 <= i < j < |r| ensures rank(r[i]) <= rank(r[j]) {
      if j < k {
        assert r[i] == s[i] && r[j] == s[j];
      } else if j == k {
        assert r[i] == s[i] && r[j] == x;
        assert rank(s[k - 1]) <= rank(x);
      } else if i == k {
        assert r[i] == x && r[j] == s[j - 1];
        assert cmp(s[j - 1], x) > 0;
      } else if i < k {
        assert r[i] == s[i] && r[j] == s[j - 1];
      } else {
        assert r[i] == s[i - 1] && r[j] == s[j - 1];
      }
    }
  }

  /** When the comparator decides by a rank first, the result is grouped by that rank. */
  lemma {:induction false} SortGrouped<T(!new)>(s: seq<T>, cmp: (T, T) -> int, rank: T -> int)
    requires RankFirst(cmp, rank)
    ensures GroupedBy(SortSpec(s, cmp), rank)
  {
    if s != [] {
      SortGrouped(s[..|s| - 1], cmp, rank);
      InsertGrouped(SortSpec(s[..|s| - 1], cmp), s[|s| - 1], cmp, rank);
    }
  }

  /** Sorting an already ordered sequence changes nothing. */
  lemma {:induction false} SortOfOrdered<T>(s: seq<T>, cmp: (T, T) -> int)
    requires Ordered(s, cmp)
    ensures SortSpec(s, cmp) == s
  {
    if s != [] {
      var init := s[..|s| - 1];
      assert Ordered(init, cmp) by {
        forall i, j | 0 <= i < j < |init| ensures cmp(init[i], init[j]) <= 0 {
          assert init[i] == s[i] && init[j] == s[j];
        }
      }
      SortOfOrdered(init, cmp);
      if |init| > 0 {
        assert cmp(init[|init| - 1], s[|s| - 1]) <= 0;
      }
      assert init + [s[|s| - 1]] == s;
    }
  }

  // ---------------------------------------------------------------------------------------------
  // Stability

  /** `x` occurs in `r` at some position before an occurrence of `y`. */
  ghost predicate Precedes<T>(r: seq<T>, x: T, y: T) {
    exists p, q :: 0 <= p < q < |r| && r[p] == x && r[q] == y
  }

  /** Putting a prefix in front keeps the relative order of two elements. */
  lemma PrecedesAfterPrefix<T>(pre: seq<T>, s: seq<T>, x: T, y: T)
    requires Precedes(s, x, y)
    ensures Precedes(pre + s, x, y)
  {
    var p, q :| 0 <= p < q < |s| && s[p] == x && s[q] == y;
    assert (pre + s)[|pre| + p] == x && (pre + s)[|pre| + q] == y;
  }

  /** Inserting keeps the relative order of the elements already there. */
  lemma InsertKeepsPrecedence<T>(s: seq<T>, y: T, cmp: (T, T) -> int, a: T, b: T)
    requires Precedes(s, a, b)
    ensures Precedes(Insert(s, y, cmp), a, b)
  {
    var k := InsertShape(s, y, cmp);
    var r := Insert(s, y, cmp);
    var p, q :| 0 <= p < q < |s| && s[p] == a && s[q] == b;
    var p', q' := if p < k then p else p + 1, if q < k then q else q + 1;
    assert r[p'] == a && r[q'] == b;
  }

  /** An inserted element stops behind every element the comparator does not put after it. */
  lemma InsertBehindNotGreater<T>(s: seq<T>, y: T, cmp: (T, T) -> int, a: T)
    requires a in s && cmp(a, y) <= 0
    ensures Precedes(Insert(s, y, cmp), a, y)
  {
    var k := InsertShape(s, y, cmp);
    var r := Insert(s, y, cmp);
    var p :| 0 <= p < |s| && s[p] == a;
    assert p < k;
    assert r[p] == a && r[k] == y;
  }

  /** The sort is stable: an element that the comparator does not put after a later one stays
      before it, whatever the comparator. */
  lemma {:induction false} SortStable<T>(s: seq<T>, cmp: (T, T) -> int, i: nat, j: nat)
    requires i < j < |s| && cmp(s[i], s[j]) <= 0
    ensures Precedes(SortSpec(s, cmp), s[i], s[j])
  {
    var init := s[..|s| - 1];
    var sorted := SortSpec(init, cmp);
    if j < |s| - 1 {
      assert init[i] == s[i] && init[j] == s[j];
      SortStable(init, cmp, i, j);
      InsertKeepsPrecedence(sorted, s[|s| - 1], cmp, s[i], s[j]);
    } else {
      SortPermutes(init, cmp);
      assert s[i] in multiset(init);
      assert s[i] in sorted by {
        assert s[i] in multiset(sorted);
      }
      InsertBehindNotGreater(sorted, s[j], cmp, s[i]);
    }
  }

  // ---------------------------------------------------------------------------------------------
  // Filtering

  /** `Array.prototype.filter`: the elements that `keep` accepts, each as often as in `s`. */
  function Filter<T(!new)>(s: seq<T>, keep: T -> bool): (r: seq<T>)
    ensures forall x :: multiset(r)[x] == if keep(x) then multiset(s)[x] else 0
  {
    if s == [] then []
    else
      assert s == [s[0]] + s[1..];
      (if keep(s[0]) then [s[0]] else []) + Filter(s[1..], keep)
  }

  /** Filtering a list whose every element is kept returns the list. */
  lemma {:induction false} FilterOfKept<T(!new)>(s: seq<T>, keep: T -> bool)
    requires forall i :: 0 <= i < |s| ==> keep(s[i])
    ensures Filter(s, keep) == s
  {
    if s != [] {
      FilterOfKept(s[1..], keep);
      assert [s[0]] + s[1..] == s;
    }
  }

  /** A kept element of `s` is an element of the filtered list. */
  lemma FilterHas<T(!new)>(s: seq<T>, keep: T -> bool, x: T)
    requires x in s && keep(x)
    ensures x in Filter(s, keep)
  {
    assert multiset(Filter(s, keep))[x] == multiset(s)[x] > 0;
  }

  /** A kept first element comes out before every later kept element. */
  lemma FilterFirstPrecedes<T(!new)>(s: seq<T>, keep: T -> bool, j: nat)
    requires 0 < j < |s| && keep(s[0]) && keep(s[j])
    ensures Precedes(Filter(s, keep), s[0], s[j])
  {
    var rest := Filter(s[1..], keep);
    assert Filter(s, keep) == [s[0]] + rest;
    assert s[j] in s[1..] by { assert s[j] == s[1..][j - 1]; }
    FilterHas(s[1..], keep, s[j]);
    var q :| 0 <= q < |rest| && rest[q] == s[j];
    assert ([s[0]] + rest)[0] == s[0] && ([s[0]] + rest)[q + 1] == s[j];
  }

  /** The filter keeps input order: two kept elements come out in the order they went in. */
  lemma {:induction false} FilterKeepsOrder<T(!new)>(s: seq<T>, keep: T -> bool, i: nat, j: nat)
    requires i < j < |s| && keep(s[i]) && keep(s[j])
    ensures Precedes(Filter(s, keep), s[i], s[j])
    decreases |s|
  {
    if i == 0 {
      FilterFirstPrecedes(s, keep, j);
    } else {
      var tail := s[1..];
      assert s[i] == tail[i - 1] && s[j] == tail[j - 1];
      FilterKeepsOrder(tail, keep, i - 1, j - 1);
      var head := if keep(s[0]) then [s[0]] else [];
      assert Filter(s, keep) == head + Filter(tail, keep);
      PrecedesAfterPrefix(head, Filter(tail, keep), s[i], s[j]);
    }
  }
}

/** `Array.prototype.sort` and `filter` with a caller's comparator or predicate, and what can be counted on. */
module StableSort {
  /** A comparator in JavaScript's sense: negative, zero or positive. */
  type Comparator<!T> = (T, T) -> int

  function Insert<T>(sorted: seq<T>, x: T, cmp: Comparator<T>): seq<T> {
    if sorted == [] then [x]
    else
      var last := |sorted| - 1;
      if cmp(sorted[last], x) <= 0 then sorted + [x] else Insert(sorted[..last], x, cmp) + [sorted[last]]
  }

  /** Equal elements keep their order. For a comparator that contradicts itself the outcome is one of many. */
  function Sort<T>(xs: seq<T>, cmp: Comparator<T>): seq<T> {
    if xs == [] then [] else Insert(Sort(xs[..|xs| - 1], cmp), xs[|xs| - 1], cmp)
  }

  function Filter<T>(xs: seq<T>, p: T -> bool): seq<T> {
    if xs == [] then [] else Filter(xs[..|xs| - 1], p) + (if p(xs[|xs| - 1]) then [xs[|xs| - 1]] else [])
  }

  /** How many elements satisfy p. */
  function Count<T>(xs: seq<T>, p: T -> bool): nat {
    if xs == [] then 0 else Count(xs[..|xs| - 1], p) + (if p(xs[|xs| - 1]) then 1 else 0)
  }

  lemma {:induction false} CountAppend<T>(xs: seq<T>, ys: seq<T>, p: T -> bool)
    ensures Count(xs + ys, p) == Count(xs, p) + Count(ys, p)
  {
    if ys == [] {
      assert xs + ys == xs;
    } else {
      var last := |ys| - 1;
      CountAppend(xs, ys[..last], p);
      assert (xs + ys)[..|xs + ys| - 1] == xs + ys[..last];
    }
  }

  lemma {:induction false} InsertCounts<T>(sorted: seq<T>, x: T, cmp: Comparator<T>, p: T -> bool)
    ensures Count(Insert(sorted, x, cmp), p) == Count(sorted, p) + (if p(x) then 1 else 0)
  {
    if sorted == [] {
      assert [x][..0] == [];
    } else {
      var last := |sorted| - 1;
      if cmp(sorted[last], x) <= 0 {
        assert (sorted + [x])[..|sorted|] == sorted;
      } else {
        InsertCounts(sorted[..last], x, cmp, p);
        var front := Insert(sorted[..last], x, cmp);
        assert (front + [sorted[last]])[..|front|] == front;
      }
    }
  }

  /** Where a new element lands: one position, everything else in its old order. */
  lemma {:induction false} InsertPosition<T>(sorted: seq<T>, x: T, cmp: Comparator<T>) returns (at: nat)
    ensures at <= |sorted| && Insert(sorted, x, cmp) == sorted[..at] + [x] + sorted[at..]
  {
    at := |sorted|;
    if sorted != [] {
      var last := |sorted| - 1;
      if cmp(sorted[last], x) > 0 {
        at := InsertPosition(sorted[..last], x, cmp);
        assert sorted[..last][..at] == sorted[..at] && sorted[..last][at..] + [sorted[last]] == sorted[at..];
      }
    }
  }

  /** Sorting keeps every element as often as it was there. */
  lemma {:induction false} SortCounts<T>(xs: seq<T>, cmp: Comparator<T>, p: T -> bool)
    ensures Count(Sort(xs, cmp), p) == Count(xs, p)
  {
    if xs != [] {
      SortCounts(xs[..|xs| - 1], cmp, p);
      InsertCounts(Sort(xs[..|xs| - 1], cmp), xs[|xs| - 1], cmp, p);
    }
  }

  lemma {:induction false} InsertMembers<T>(sorted: seq<T>, x: T, cmp: Comparator<T>)
    ensures |Insert(sorted, x, cmp)| == |sorted| + 1
    ensures multiset(Insert(sorted, x, cmp)) == multiset(sorted) + multiset{x}
  {
    if sorted != [] {
      var last := |sorted| - 1;
      if cmp(sorted[last], x) > 0 {
        InsertMembers(sorted[..last], x, cmp);
        assert sorted == sorted[..last] + [sorted[last]];
      }
    }
  }

  lemma {:induction false} SortMembers<T>(xs: seq<T>, cmp: Comparator<T>)
    ensures |Sort(xs, cmp)| == |xs| && multiset(Sort(xs, cmp)) == multiset(xs)
    ensures forall x :: x in Sort(xs, cmp) <==> x in xs
  {
    if xs != [] {
      SortMembers(xs[..|xs| - 1], cmp);
      InsertMembers(Sort(xs[..|xs| - 1], cmp), xs[|xs| - 1], cmp);
      assert xs == xs[..|xs| - 1] + [xs[|xs| - 1]];
    }
    forall x ensures x in Sort(xs, cmp) <==> x in xs {
      assert x in Sort(xs, cmp) <==> x in multiset(Sort(xs, cmp));
      assert x in xs <==> x in multiset(xs);
    }
  }

  lemma {:induction false} FilterMembers<T>(xs: seq<T>, p: T -> bool)
    ensures forall x :: x in Filter(xs, p) <==> x in xs && p(x)
  {
    if xs != [] {
      FilterMembers(xs[..|xs| - 1], p);
    }
  }

  /** The comparator orders these elements: antisymmetric in sign and transitive. */
  ghost predicate Consistent<T(!new)>(xs: set<T>, cmp: Comparator<T>) {
    && (forall x, y :: x in xs && y in xs ==> (cmp(x, y) <= 0 || cmp(y, x) <= 0))
    && (forall x, y, z :: x in xs && y in xs && z in xs && cmp(x, y) <= 0 && cmp(y, z) <= 0 ==> cmp(x, z) <= 0)
  }

  ghost predicate Sorted<T>(xs: seq<T>, cmp: Comparator<T>) {
    forall i, j :: 0 <= i < j < |xs| ==> cmp(xs[i], xs[j]) <= 0
  }

  lemma SortedAppend<T(!new)>(front: seq<T>, last: T, cmp: Comparator<T>)
    requires Sorted(front, cmp) && forall y :: y in front ==> cmp(y, last) <= 0
    ensures Sorted(front + [last], cmp)
  {
  }

  lemma {:induction false} InsertSorts<T(!new)>(sorted: seq<T>, x: T, cmp: Comparator<T>, all: set<T>)
    requires Consistent(all, cmp) && Sorted(sorted, cmp) && x in all && forall y :: y in sorted ==> y in all
    ensures Sorted(Insert(sorted, x, cmp), cmp)
  {
    if sorted != [] {
      var last := |sorted| - 1;
      var rest := sorted[..last];
      if cmp(sorted[last], x) > 0 {
        InsertSorts(rest, x, cmp, all);
        InsertMembers(rest, x, cmp);
        var front := Insert(rest, x, cmp);
        forall y | y in front ensures cmp(y, sorted[last]) <= 0 {
          assert y in multiset(front) && (y == x || y in rest);
        }
        SortedAppend(front, sorted[last], cmp);
      } else {
        forall y | y in sorted ensures cmp(y, x) <= 0 {
          if y != sorted[last] { assert y in rest && cmp(y, sorted[last]) <= 0; }
        }
        SortedAppend(sorted, x, cmp);
      }
    }
  }

  /** With a consistent comparator the outcome is in order. */
  lemma {:induction false} SortSorts<T(!new)>(xs: seq<T>, cmp: Comparator<T>, all: set<T>)
    requires Consistent(all, cmp) && forall x :: x in xs ==> x in all
    ensures Sorted(Sort(xs, cmp), cmp)
  {
    if xs != [] {
      SortSorts(xs[..|xs| - 1], cmp, all);
      SortMembers(xs[..|xs| - 1], cmp);
      InsertSorts(Sort(xs[..|xs| - 1], cmp), xs[|xs| - 1], cmp, all);
    }
  }

  /** A new element comes after all those it is equal to. */
  lemma {:induction false} InsertIsStable<T(!new)>(sorted: seq<T>, x: T, cmp: Comparator<T>, p: T -> bool)
    requires forall y :: y in sorted && p(y) && p(x) ==> cmp(y, x) <= 0
    ensures Filter(Insert(sorted, x, cmp), p) == Filter(sorted, p) + if p(x) then [x] else []
  {
    if sorted == [] {
      assert [x][..0] == [];
    } else {
      var last := |sorted| - 1;
      var rest, e := sorted[..last], sorted[last];
      if cmp(e, x) > 0 {
        InsertIsStable(rest, x, cmp, p);
        FilterOneMore(Insert(rest, x, cmp), e, p);
        assert e in sorted && !(p(e) && p(x));
      } else {
        FilterOneMore(sorted, x, p);
      }
    }
  }

  lemma FilterOneMore<T>(xs: seq<T>, x: T, p: T -> bool)
    ensures Filter(xs + [x], p) == Filter(xs, p) + if p(x) then [x] else []
  {
    assert (xs + [x])[..|xs|] == xs;
  }

  /** Elements the comparator calls equal keep the order they came in. */
  lemma {:induction false} SortIsStable<T(!new)>(xs: seq<T>, cmp: Comparator<T>, p: T -> bool)
    requires forall x, y :: x in xs && y in xs && p(x) && p(y) ==> cmp(x, y) <= 0
    ensures Filter(Sort(xs, cmp), p) == Filter(xs, p)
  {
    if xs != [] {
      var front := xs[..|xs| - 1];
      SortIsStable(front, cmp, p);
      SortMembers(front, cmp);
      InsertIsStable(Sort(front, cmp), xs[|xs| - 1], cmp, p);
    }
  }
}

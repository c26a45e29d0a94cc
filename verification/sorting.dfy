/** The ascending sort the submit handler applies to the resampled series
    before it is exported (`interpolatedData.sort((a, b) => a - b)`). On exact
    reals the comparator `a - b` is negative exactly when `a < b`, so the sort
    is the ordinary ascending order; as a pure function it is insertion sort.
 */
module Sorting {

  /** Non-decreasing: every earlier element is at most every later one. */
  predicate Sorted(s: seq<real>)
  {
    forall i, j :: 0 <= i < j < |s| ==> s[i] <= s[j]
  }

  /** Putting an element no larger than the head in front keeps a sequence ascending. */
  lemma SortedCons(a: real, t: seq<real>)
    requires Sorted(t)
    requires |t| > 0 ==> a <= t[0]
    ensures Sorted([a] + t)
  {
    var r := [a] + t;
    forall i, j | 0 <= i < j < |r|
      ensures r[i] <= r[j]
    {
      assert r[j] == t[j - 1];
      if i == 0 {
        assert t[0] <= t[j - 1];
      } else {
        assert r[i] == t[i - 1];
      }
    }
  }

  lemma SortedTail(s: seq<real>)
    requires Sorted(s) && |s| > 0
    ensures Sorted(s[1..])
  {
    forall i, j | 0 <= i < j < |s| - 1
      ensures s[1..][i] <= s[1..][j]
    {
      assert s[1..][i] == s[i + 1] && s[1..][j] == s[j + 1];
    }
  }

  lemma MultisetTail(s: seq<real>)
    requires |s| > 0
    ensures multiset(s) == multiset{s[0]} + multiset(s[1..])
  {
    assert s == [s[0]] + s[1..];
  }

  /** Places `x` into an ascending sequence, keeping it ascending. */
  function Insert(x: real, s: seq<real>): (r: seq<real>)
    requires Sorted(s)
    ensures |r| == |s| + 1
    ensures r[0] == x || (|s| > 0 && r[0] == s[0])
    ensures Sorted(r)
    ensures multiset(r) == multiset(s) + multiset{x}
  {
    if |s| == 0 || x <= s[0] then
      SortedCons(x, s);
      [x] + s
    else
      SortedTail(s);
      var tail := Insert(x, s[1..]);
      InsertTailStep(x, s, tail);
      [s[0]] + tail
  }

  lemma InsertTailStep(x: real, s: seq<real>, tail: seq<real>)
    requires Sorted(s) && |s| > 0 && s[0] < x
    requires Sorted(tail) && |tail| == |s|
    requires tail[0] == x || (|s| > 1 && tail[0] == s[1])
    requires multiset(tail) == multiset(s[1..]) + multiset{x}
    ensures Sorted([s[0]] + tail)
    ensures multiset([s[0]] + tail) == multiset(s) + multiset{x}
  {
    assert |s| > 1 ==> s[0] <= s[1];
    SortedCons(s[0], tail);
    MultisetTail(s);
  }

  /** The sorted export order: an ascending rearrangement of `s`. */
  function SortAsc(s: seq<real>): (r: seq<real>)
    ensures Sorted(r)
    ensures multiset(r) == multiset(s)
    ensures |r| == |s|
  {
    if s == [] then []
    else
      MultisetTail(s);
      Insert(s[0], SortAsc(s[1..]))
  }

  /** The least element of a non-empty ascending sequence is its head. */
  lemma HeadIsLeast(s: seq<real>, x: real)
    requires Sorted(s) && |s| > 0
    requires x in multiset(s)
    ensures s[0] <= x
  {
    var k :| 0 <= k < |s| && s[k] == x;
  }

  /** Two non-empty ascending sequences with the same elements share their
      head, and their tails are again ascending with the same elements. */
  lemma SameHeadSameTail(a: seq<real>, b: seq<real>)
    requires Sorted(a) && Sorted(b) && |a| > 0 && |b| > 0
    requires multiset(a) == multiset(b)
    ensures a[0] == b[0]
    ensures Sorted(a[1..]) && Sorted(b[1..])
    ensures multiset(a[1..]) == multiset(b[1..])
  {
    MultisetTail(a);
    MultisetTail(b);
    HeadIsLeast(b, a[0]);
    HeadIsLeast(a, b[0]);
    var x := a[0];
    assert multiset(a[1..]) == multiset(a) - multiset{x};
    assert multiset(b[1..]) == multiset(b) - multiset{x};
    SortedTail(a);
    SortedTail(b);
  }

  /** Two ascending sequences with the same elements are equal. */
  lemma {:induction false} SortedUnique(a: seq<real>, b: seq<real>)
    requires Sorted(a) && Sorted(b)
    requires multiset(a) == multiset(b)
    ensures a == b
  {
    assert |a| == |multiset(a)| == |multiset(b)| == |b|;
    if |a| > 0 {
      SameHeadSameTail(a, b);
      SortedUnique(a[1..], b[1..]);
      assert a == [a[0]] + a[1..];
      assert b == [b[0]] + b[1..];
    }
  }

  /** Sorting an already ascending sequence leaves it unchanged. */
  lemma SortAscOfSorted(s: seq<real>)
    requires Sorted(s)
    ensures SortAsc(s) == s
  {
    SortedUnique(SortAsc(s), s);
  }

  /** The sort result depends only on which values occur, and how often. */
  lemma SortAscCanonical(a: seq<real>, b: seq<real>)
    requires multiset(a) == multiset(b)
    ensures SortAsc(a) == SortAsc(b)
  {
    SortedUnique(SortAsc(a), SortAsc(b));
  }
}

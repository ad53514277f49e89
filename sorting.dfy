/** Sorting a copy of a bucket in place, under an abstract total preorder.

    PHP's `sort` with `SORT_NATURAL | SORT_FLAG_CASE` is a runtime builtin; all the
    visitor relies on is that it leaves the array ordered under its comparator and
    holding the same elements. The comparator is a parameter here, required to be
    a total preorder (two different strings may compare equal, as "A" and "a" do). */
module Sorting {

  ghost predicate TotalPreorder<T(!new)>(le: (T, T) -> bool) {
    && (forall x :: le(x, x))
    && (forall x, y, z :: le(x, y) && le(y, z) ==> le(x, z))
    && (forall x, y :: le(x, y) || le(y, x))
  }

  /** Every earlier element is at most every later one. */
  ghost predicate SortedBy<T>(s: seq<T>, le: (T, T) -> bool) {
    forall p, q :: 0 <= p < q < |s| ==> le(s[p], s[q])
  }

  /** Insertion sort by adjacent swaps: the prefix `a[..i]` is sorted, and the inner
      loop moves `a[i]` down to its place. */
  method InsertionSort<T(!new)>(a: array<T>, le: (T, T) -> bool)
    requires TotalPreorder(le)
    modifies a
    ensures SortedBy(a[..], le)
    ensures multiset(a[..]) == multiset(old(a[..]))
  {
    var i := 0;
    while i < a.Length
      invariant 0 <= i <= a.Length
      invariant forall p, q :: 0 <= p < q < i ==> le(a[p], a[q])
      invariant multiset(a[..]) == multiset(old(a[..]))
    {
      var j := i;
      while j > 0 && !le(a[j - 1], a[j])
        invariant 0 <= j <= i
        // every ordered pair in a[..i+1] is in order, except those ending at the moving element
        invariant forall p, q :: 0 <= p < q <= i && q != j ==> le(a[p], a[q])
        invariant multiset(a[..]) == multiset(old(a[..]))
      {
        a[j - 1], a[j] := a[j], a[j - 1];
        j := j - 1;
      }
      i := i + 1;
    }
  }

  /** A sorted copy of `s`; `s` itself is a value and is left as it was. */
  method SortedCopy<T(!new)>(s: seq<T>, le: (T, T) -> bool) returns (sorted: seq<T>)
    requires TotalPreorder(le)
    ensures SortedBy(sorted, le)
    ensures multiset(sorted) == multiset(s)
  {
    var copy := new T[|s|](i requires 0 <= i < |s| => s[i]);
    assert copy[..] == s;
    InsertionSort(copy, le);
    sorted := copy[..];
  }

  /** Three elements, each strictly below the next: their only sorted arrangement. */
  lemma SortedThree<T(!new)>(r: seq<T>, le: (T, T) -> bool, a: T, b: T, c: T)
    requires TotalPreorder(le)
    requires !le(b, a) && !le(c, b) && !le(c, a)
    requires SortedBy(r, le)
    requires multiset(r) == multiset([c, b, a])
    ensures r == [a, b, c]
  {
    assert |r| == 3 by { assert |multiset(r)| == 3; }
    assert a in multiset(r) && b in multiset(r) && c in multiset(r);
    var ia :| 0 <= ia < 3 && r[ia] == a;
    var ib :| 0 <= ib < 3 && r[ib] == b;
    var ic :| 0 <= ic < 3 && r[ic] == c;
    assert ia < ib && ib < ic;
  }
}

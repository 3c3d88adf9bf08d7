/** Search over the sorted `locations` array. The CFI comparator is a
    parameter `lt` ("sorts before"), required to be a strict total order;
    `IndexOfSorted` and `LocationOf` are binary searches over it, specified
    by what the page list relies on: an exact match, and the insertion
    point that keeps the array sorted. */
module SortedSearch {

  /** `lt` is irreflexive, transitive and relates every two distinct CFIs. */
  ghost predicate StrictTotalOrder(lt: (string, string) -> bool) {
    && (forall a :: !lt(a, a))
    && (forall a, b, c :: lt(a, b) && lt(b, c) ==> lt(a, c))
    && (forall a, b :: a != b ==> lt(a, b) || lt(b, a))
  }

  /** No element sorts before an element to its left. */
  ghost predicate Sorted(s: seq<string>, lt: (string, string) -> bool) {
    forall i, j :: 0 <= i < j < |s| ==> !lt(s[j], s[i])
  }

  /** No CFI appears twice. */
  ghost predicate Distinct(s: seq<string>) {
    forall i, j :: 0 <= i < j < |s| ==> s[i] != s[j]
  }

  /** Inserting `x` at index `p` keeps `s` sorted: everything before `p`
      sorts before `x`, nothing from `p` on does. */
  ghost predicate IsInsertionPoint(s: seq<string>, x: string, lt: (string, string) -> bool, p: int) {
    && 0 <= p <= |s|
    && (forall i :: 0 <= i < p ==> lt(s[i], x))
    && (forall i :: p <= i < |s| ==> !lt(s[i], x))
  }

  /** Element `i` of `s` exists and sorts before `x`. */
  ghost predicate SortsBefore(s: seq<string>, i: int, x: string, lt: (string, string) -> bool) {
    0 <= i < |s| && lt(s[i], x)
  }

  /** Binary search for an element equal to `x` in `s[lo..hi]`. */
  function IndexOfSortedIn(x: string, s: seq<string>, lt: (string, string) -> bool, lo: nat, hi: nat): (r: int)
    requires lo <= hi <= |s|
    requires StrictTotalOrder(lt) && Sorted(s, lt)
    ensures r == -1 || (lo <= r < hi && s[r] == x)
    ensures r == -1 <==> x !in s[lo..hi]
    decreases hi - lo
  {
    if hi == lo then -1
    else
      var pivot := lo + (hi - lo) / 2;
      if s[pivot] == x then pivot
      else if lt(s[pivot], x) then
        var r := IndexOfSortedIn(x, s, lt, pivot + 1, hi);
        assert forall i :: lo <= i <= pivot ==> s[i] != x;
        r
      else
        var r := IndexOfSortedIn(x, s, lt, lo, pivot);
        assert lt(x, s[pivot]);
        assert forall i :: pivot <= i < hi ==> s[i] != x;
        r
  }

  /** `indexOfSorted(x, s, compare)`: the index of an element equal to `x`,
      or -1 exactly when `x` is not in `s`. */
  function IndexOfSorted(x: string, s: seq<string>, lt: (string, string) -> bool): (r: int)
    requires StrictTotalOrder(lt) && Sorted(s, lt)
    ensures r == -1 <==> x !in s
    ensures r != -1 ==> 0 <= r < |s| && s[r] == x
  {
    assert s[0..|s|] == s;
    IndexOfSortedIn(x, s, lt, 0, |s|)
  }

  /** Binary search for the insertion point of `x` in `s[lo..hi]`. */
  function LocationOfIn(x: string, s: seq<string>, lt: (string, string) -> bool, lo: nat, hi: nat): (r: nat)
    requires lo <= hi <= |s|
    requires StrictTotalOrder(lt) && Sorted(s, lt)
    ensures lo <= r <= hi
    ensures forall i :: lo <= i < r ==> lt(s[i], x)
    ensures forall i :: r <= i < hi ==> !lt(s[i], x)
    decreases hi - lo
  {
    if hi == lo then lo
    else
      var pivot := lo + (hi - lo) / 2;
      if lt(s[pivot], x) then
        assert forall i :: lo <= i <= pivot ==> lt(s[i], x) by {
          forall i | lo <= i <= pivot
            ensures lt(s[i], x)
          {
            if s[i] != s[pivot] {
              assert lt(s[i], s[pivot]);
            }
          }
        }
        LocationOfIn(x, s, lt, pivot + 1, hi)
      else
        assert forall i :: pivot <= i < hi ==> !lt(s[i], x) by {
          forall i | pivot <= i < hi
            ensures !lt(s[i], x)
          {
            assert s[i] == s[pivot] || lt(s[pivot], s[i]);
          }
        }
        LocationOfIn(x, s, lt, lo, pivot)
  }

  /** `locationOf(x, s, compare)`: the index at which `x` would be inserted
      to keep `s` sorted. */
  function LocationOf(x: string, s: seq<string>, lt: (string, string) -> bool): (r: nat)
    requires StrictTotalOrder(lt) && Sorted(s, lt)
    ensures IsInsertionPoint(s, x, lt, r)
  {
    LocationOfIn(x, s, lt, 0, |s|)
  }

  /** A sequence has at most one insertion point for a given element. */
  lemma InsertionPointUnique(s: seq<string>, x: string, lt: (string, string) -> bool, p: int, q: int)
    requires IsInsertionPoint(s, x, lt, p) && IsInsertionPoint(s, x, lt, q)
    ensures p == q
  {
    assert p < q ==> SortsBefore(s, p, x, lt) && !SortsBefore(s, p, x, lt);
    assert q < p ==> SortsBefore(s, q, x, lt) && !SortsBefore(s, q, x, lt);
  }
}

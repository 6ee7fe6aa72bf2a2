/**
 * binary_search: a recursive search of the half-open range `[left, right)` and an
 * iterative search of the whole slice. Elements are integers (any total order
 * behaves the same).
 */
module BinarySearch {
  import opened Wrappers
  import opened Seqs

  /** `binary_search(a, key, left, right)`. An empty range gives `None`; otherwise
      the middle element is compared with `key` and the search continues in the
      half that could hold it. Any index returned holds `key`; on a sorted slice
      `None` means `key` is not in the range. */
  function Search(a: seq<int>, key: int, left: nat, right: nat): (r: Option<nat>)
    requires right <= |a|
    ensures left >= right ==> r == None
    ensures r.Some? ==> left <= r.value < right && a[r.value] == key
    ensures Sorted(a) && r.None? ==> forall i | left <= i < right :: a[i] != key
    decreases right - left
  {
    if left >= right then None
    else
      var middle := left + (right - left) / 2;
      if a[middle] > key then
        var r := Search(a, key, left, middle);
        assert Sorted(a) && r.None? ==> forall i | middle <= i < right :: a[middle] <= a[i];
        r
      else if a[middle] < key then
        var r := Search(a, key, middle + 1, right);
        assert Sorted(a) && r.None? ==> forall i | left <= i < middle :: a[i] <= a[middle];
        r
      else Some(middle)
  }

  /** `key` occurs in `a[left..right)`. */
  ghost predicate Occurs(a: seq<int>, key: int, left: nat, right: nat)
    requires right <= |a|
  {
    exists i | left <= i < right :: a[i] == key
  }

  /** On a sorted slice the recursive search finds `key` exactly when it occurs. */
  lemma SearchFinds(a: seq<int>, key: int, left: nat, right: nat)
    requires right <= |a| && Sorted(a)
    ensures Search(a, key, left, right).Some? <==> Occurs(a, key, left, right)
  {
    var r := Search(a, key, left, right);
    if r.Some? { assert a[r.value] == key; }
  }

  /** `binary_search2(a, key)`: the same halving as a loop over the whole slice,
      comparing for equality first. It returns exactly what the recursive search
      of `[0, len)` returns. */
  method Search2(a: seq<int>, key: int) returns (r: Option<nat>)
    ensures r == Search(a, key, 0, |a|)
    ensures r.Some? ==> r.value < |a| && a[r.value] == key
    ensures Sorted(a) && r.None? ==> forall i | 0 <= i < |a| :: a[i] != key
  {
    var left, right := 0, |a|;
    while left < right
      invariant left <= right <= |a|
      invariant Search(a, key, left, right) == Search(a, key, 0, |a|)
      decreases right - left
    {
      var middle := left + (right - left) / 2;
      if a[middle] == key {
        return Some(middle);
      } else if a[middle] < key {
        left := middle + 1;
      } else {
        right := middle;
      }
    }
    return None;
  }

  /** The slice of primes the tests search. */
  function Primes(): seq<int>
  {
    [2, 3, 5, 7, 11, 13, 17, 19, 23, 29, 31, 37, 41, 43, 47, 53, 59, 61, 67]
  }

  /** The recursive search finds 43 at 13 and 7 at 3, and does not find 14. */
  lemma PrimesSearched()
    ensures Search(Primes(), 43, 0, 19) == Some(13)
    ensures Search(Primes(), 7, 0, 19) == Some(3)
    ensures Search(Primes(), 14, 0, 19) == None
  {
  }
}

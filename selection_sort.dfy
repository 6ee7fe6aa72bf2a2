/**
 * selection_sort: sorts a copy of the slice by swapping the lowest remaining
 * element into each position in turn.
 */
module SelectionSort {
  import opened Seqs

  /** The inner loop: the first position of a least element of `a[idx..]`. */
  method Lowest(a: array<int>, idx: nat) returns (lowest: nat)
    requires idx < a.Length
    ensures idx <= lowest < a.Length
    ensures forall k | idx <= k < a.Length :: a[lowest] <= a[k]
    ensures forall k | idx <= k < lowest :: a[lowest] < a[k]
  {
    lowest := idx;
    for y := lowest + 1 to a.Length
      invariant idx <= lowest < y
      invariant forall k | idx <= k < y :: a[lowest] <= a[k]
      invariant forall k | idx <= k < lowest :: a[lowest] < a[k]
    {
      if a[y] < a[lowest] {
        lowest := y;
      }
    }
  }

  /** Swapping a least element of `s[idx..]` into position `idx` extends the sorted
      prefix by one. */
  lemma SwapLowest(s: seq<int>, idx: nat, lowest: nat)
    requires idx <= lowest < |s| && SortedPrefix(s, idx)
    requires forall k | idx <= k < |s| :: s[lowest] <= s[k]
    ensures SortedPrefix(s[lowest := s[idx]][idx := s[lowest]], idx + 1)
    ensures multiset(s[lowest := s[idx]][idx := s[lowest]]) == multiset(s)
  {
    var t := s[lowest := s[idx]][idx := s[lowest]];
    forall i, j | 0 <= i < j < |t| && i < idx + 1 ensures t[i] <= t[j] {
      if i < idx {
        assert t[i] == s[i];
        assert s[i] <= s[lowest] && s[i] <= s[idx];
      }
    }
  }

  /** `selection_sort(array)`: the input is copied, and for each `idx` the first
      lowest element of `a[idx..]` is swapped into position `idx`. The result is the
      input sorted; the input itself is a value and is not touched. */
  method SelectionSort(input: seq<int>) returns (r: seq<int>)
    ensures |r| == |input|
    ensures Sorted(r) && multiset(r) == multiset(input)
  {
    var a := new int[|input|](i requires 0 <= i < |input| => input[i]);
    assert a[..] == input;
    for idx := 0 to a.Length
      invariant multiset(a[..]) == multiset(input)
      invariant SortedPrefix(a[..], idx)
    {
      var lowest := Lowest(a, idx);
      ghost var s := a[..];
      SwapLowest(s, idx, lowest);
      if lowest != idx {
        a[lowest], a[idx] := a[idx], a[lowest];
      }
      assert a[..] == s[lowest := s[idx]][idx := s[lowest]];
    }
    r := a[..];
  }
}

/**
 * kth_smallest: quickselect on a copy of the input. `get_pivot` swaps the middle
 * element of the range to its end, `partition` is then the Lomuto loop of
 * quick_sort around it, and `select` recurses into the side holding `order`.
 */
module KthSmallest {
  import opened Wrappers
  import opened Seqs
  import QuickSort

  /** `low + (high - low) / 2`, the middle of `[low, high]`. */
  function Middle(low: nat, high: nat): (m: nat)
    requires low <= high
    ensures low <= m <= high
  {
    low + (high - low) / 2
  }

  /** `get_pivot(array, low, high)`: swaps the middle element to `high` and
      returns it. */
  method GetPivot(a: array<int>, low: nat, high: nat) returns (pivot: int)
    requires low <= high < a.Length
    modifies a
    ensures a[..] == Swap(old(a[..]), Middle(low, high), high)
    ensures pivot == old(a[Middle(low, high)]) && pivot == a[high]
  {
    var middle := low + (high - low) / 2;
    ghost var s := a[..];
    a[middle], a[high] := a[high], a[middle];
    assert a[..] == Swap(s, middle, high);
    pivot := a[high];
  }

  /** `partition(array, low, high)` on values: the middle element moved to `high`,
      then quick_sort's partition around it. */
  function PartitionOf(s: seq<int>, low: nat, high: nat): (r: (seq<int>, nat))
    requires low <= high < |s|
    ensures |r.0| == |s| && low <= r.1 <= high
  {
    QuickSort.PartitionFrom(Swap(s, Middle(low, high), high), low, low, high)
  }

  /** `partition(array, low, high)` partitions `[low, high]` around the middle
      element: it ends at the returned index, with the elements at most it before
      and the larger ones after, and only `[low, high]` permuted. */
  lemma PartitionOfSound(s: seq<int>, low: nat, high: nat)
    requires low <= high < |s|
    ensures QuickSort.Partitioned(s, PartitionOf(s, low, high).0, low, high, PartitionOf(s, low, high).1)
    ensures PartitionOf(s, low, high).0[PartitionOf(s, low, high).1] == s[Middle(low, high)]
  {
    var s1 := Swap(s, Middle(low, high), high);
    QuickSort.PartitionSound(s1, low, high);
    SwapPerm(s, Middle(low, high), high);
  }

  /** `partition(array, low, high)`: the loop compares with the cloned pivot,
      which stays at `high` while the loop swaps below it. */
  method Partition(a: array<int>, low: nat, high: nat) returns (p: nat)
    requires low <= high < a.Length
    modifies a
    ensures (a[..], p) == PartitionOf(old(a[..]), low, high)
  {
    var pivot := GetPivot(a, low, high);
    p := PartitionAround(a, low, high, pivot);
  }

  /** The loop of `partition` and its final swap, around the cloned pivot held
      at `high`. */
  method PartitionAround(a: array<int>, low: nat, high: nat, pivot: int) returns (p: nat)
    requires low <= high < a.Length && a[high] == pivot
    modifies a
    ensures (a[..], p) == QuickSort.PartitionFrom(old(a[..]), low, low, high)
  {
    ghost var s1 := a[..];
    var i: nat := low;
    for j := low to high
      invariant i <= j && a[high] == pivot
      invariant QuickSort.PartitionFrom(a[..], i, j, high) == QuickSort.PartitionFrom(s1, low, low, high)
    {
      if a[j] <= pivot {
        ghost var s := a[..];
        a[i], a[j] := a[j], a[i];
        assert a[..] == Swap(s, j, i);
        i := i + 1;
      }
    }
    ghost var s := a[..];
    a[i], a[high] := a[high], a[i];
    assert a[..] == Swap(s, i, high);
    p := i;
  }

  /** `select(array, low, high, order)` on values: the final array and the value
      returned. Every call keeps `low <= order <= high`, so `p + 1` and `p - 1`
      stay within the range. */
  function Selected(s: seq<int>, low: nat, high: nat, order: nat): (r: (seq<int>, int))
    requires low <= order <= high < |s|
    ensures |r.0| == |s|
    decreases high - low, 1
  {
    if low < high then SelectPivoted(Swap(s, Middle(low, high), high), low, high, order)
    else (s, s[low])
  }

  /** The rest of `select` once `get_pivot` has moved the pivot to `high`: the
      partition loop, then the side holding `order`. */
  function SelectPivoted(s: seq<int>, low: nat, high: nat, order: nat): (r: (seq<int>, int))
    requires low < high && low <= order <= high < |s|
    ensures |r.0| == |s|
    decreases high - low, 0
  {
    var (t, p) := QuickSort.PartitionFrom(s, low, low, high);
    if p == order then (t, t[p])
    else if p < order then Selected(t, p + 1, high, order)
    else Selected(t, low, p - 1, order)
  }

  /** `select(array, low, high, order)`. */
  method Select(a: array<int>, low: nat, high: nat, order: nat) returns (v: int)
    requires low <= order <= high < a.Length
    modifies a
    ensures (a[..], v) == Selected(old(a[..]), low, high, order)
    decreases high - low
  {
    if low < high {
      ghost var s := a[..];
      var p := Partition(a, low, high);
      ghost var t := a[..];
      assert (t, p) == PartitionOf(s, low, high);
      if p == order {
        v := a[p];
        assert Selected(s, low, high, order) == (t, t[p]);
      } else if p < order {
        assert Selected(s, low, high, order) == Selected(t, p + 1, high, order);
        v := Select(a, p + 1, high, order);
      } else {
        assert Selected(s, low, high, order) == Selected(t, low, p - 1, order);
        v := Select(a, low, p - 1, order);
      }
    } else {
      v := a[low];
    }
  }

  /** What `kth_smallest(array, k)` returns. */
  function KthSmallestOf(s: seq<int>, k: nat): int
    requires k < |s|
  {
    Selected(s, 0, |s| - 1, k).1
  }

  /** `kth_smallest(array, k)`: `None` where the source's `assert!(k < len)`
      panics; otherwise quickselect on a copy, so the caller's sequence is not
      touched. */
  method KthSmallest(input: seq<int>, k: nat) returns (r: Option<int>)
    ensures r.None? <==> |input| <= k
    ensures r.Some? ==> r.value == KthSmallestOf(input, k)
  {
    if |input| <= k {
      return None;
    }
    var arr := new int[|input|](i requires 0 <= i < |input| => input[i]);
    assert arr[..] == input;
    var len := arr.Length;
    var v := Select(arr, 0, len - 1, k);
    r := Some(v);
  }

  /** Nothing left of `low` exceeds anything from `low` on, and nothing right of
      `high` is below anything up to `high`. */
  ghost predicate Fenced(s: seq<int>, low: nat, high: nat)
  {
    forall i, j | 0 <= i < j < |s| && (i < low <= j || i <= high < j) :: s[i] <= s[j]
  }

  /** `s[k]` is in its sorted place: nothing before it is larger and nothing after
      it is smaller. */
  ghost predicate Pivoted(s: seq<int>, k: nat)
  {
    && k < |s|
    && (forall i | 0 <= i < k :: s[i] <= s[k])
    && (forall j | k < j < |s| :: s[k] <= s[j])
  }

  /** Permuting inside `[low, high]` keeps the fences. */
  lemma FencedPerm(s: seq<int>, t: seq<int>, low: nat, high: nat)
    requires low <= high < |s| == |t| && Fenced(s, low, high)
    requires forall k | 0 <= k < |s| && (k < low || high < k) :: t[k] == s[k]
    requires multiset(t[low..high + 1]) == multiset(s[low..high + 1])
    ensures Fenced(t, low, high)
  {
    forall i, j | 0 <= i < j < |t| && (i < low <= j || i <= high < j) ensures t[i] <= t[j] {
      if low <= i <= high {
        assert t[i] in multiset(s[low..high + 1]) by {
          assert t[i] == t[low..high + 1][i - low];
        }
        var i' :| 0 <= i' < high + 1 - low && s[low..high + 1][i'] == t[i];
        assert s[low + i'] <= s[j];
      } else if low <= j <= high {
        assert t[j] in multiset(s[low..high + 1]) by {
          assert t[j] == t[low..high + 1][j - low];
        }
        var j' :| 0 <= j' < high + 1 - low && s[low..high + 1][j'] == t[j];
        assert s[i] <= s[low + j'];
      }
    }
  }

  /** When `partition` puts the pivot at `order`, it is in its sorted place. */
  lemma FencedPivot(t: seq<int>, low: nat, p: nat, high: nat)
    requires low <= p <= high < |t| && Fenced(t, low, high)
    requires QuickSort.Below(t, low, p, t[p]) && QuickSort.Above(t, p + 1, high + 1, t[p])
    ensures Pivoted(t, p)
  {
  }

  /** The part right of the pivot is fenced. */
  lemma FencedRight(t: seq<int>, low: nat, p: nat, high: nat)
    requires low <= p < high < |t| && Fenced(t, low, high)
    requires QuickSort.Below(t, low, p, t[p]) && QuickSort.Above(t, p + 1, high + 1, t[p])
    ensures Fenced(t, p + 1, high)
  {
    forall i, j | 0 <= i < j < |t| && (i < p + 1 <= j || i <= high < j) ensures t[i] <= t[j] {
      if low <= i < p + 1 <= j <= high {
        assert t[i] <= t[p];
      }
    }
  }

  /** The part left of the pivot is fenced. */
  lemma FencedLeft(t: seq<int>, low: nat, p: nat, high: nat)
    requires low < p <= high < |t| && Fenced(t, low, high)
    requires QuickSort.Below(t, low, p, t[p]) && QuickSort.Above(t, p + 1, high + 1, t[p])
    ensures Fenced(t, low, p - 1)
  {
    forall i, j | 0 <= i < j < |t| && (i < low <= j || i <= p - 1 < j) ensures t[i] <= t[j] {
      if low <= i <= p - 1 < j <= high && p < j {
        assert t[p] <= t[j];
      }
    }
  }

  /** `r` is `s` permuted with its element at `order` in its sorted place, and
      `r.1` is that element. */
  ghost predicate SelectedPlaced(s: seq<int>, r: (seq<int>, int), order: nat)
  {
    Pivoted(r.0, order) && r.1 == r.0[order] && multiset(r.0) == multiset(s)
  }

  /** `select` on a fenced range holding `order` leaves the value there in its
      sorted place, returns it, and only permutes the array (`s0` is any
      sequence with the elements of `s`). */
  lemma {:induction false} SelectedSound(s0: seq<int>, s: seq<int>, low: nat, high: nat, order: nat)
    requires low <= order <= high < |s| && Fenced(s, low, high) && multiset(s) == multiset(s0)
    ensures SelectedPlaced(s0, Selected(s, low, high, order), order)
    decreases high - low, 1
  {
    if low < high {
      var s1 := Swap(s, Middle(low, high), high);
      assert Selected(s, low, high, order) == SelectPivoted(s1, low, high, order);
      assert Fenced(s1, low, high) && multiset(s1) == multiset(s0) by {
        SwapPerm(s, Middle(low, high), high);
        QuickSort.MultisetRange(s, s1, low, high + 1);
        FencedPerm(s, s1, low, high);
      }
      SelectPivotedSound(s0, s1, low, high, order);
    }
  }

  /** The same after `get_pivot`. */
  lemma {:induction false} SelectPivotedSound(s0: seq<int>, s: seq<int>, low: nat, high: nat, order: nat)
    requires low < high && low <= order <= high < |s| && Fenced(s, low, high) && multiset(s) == multiset(s0)
    ensures SelectedPlaced(s0, SelectPivoted(s, low, high, order), order)
    decreases high - low, 0
  {
    var (t, p) := QuickSort.PartitionFrom(s, low, low, high);
    if p == order {
      assert SelectPivoted(s, low, high, order) == (t, t[p]);
      assert SelectedPlaced(s0, (t, t[p]), order) by {
        PartitionFenced(s, low, high);
        FencedPivot(t, low, p, high);
      }
    } else if p < order {
      assert SelectPivoted(s, low, high, order) == Selected(t, p + 1, high, order);
      assert SelectedPlaced(s0, Selected(t, p + 1, high, order), order) by {
        assert Fenced(t, p + 1, high) && multiset(t) == multiset(s0) by {
          PartitionFenced(s, low, high);
          FencedRight(t, low, p, high);
        }
        SelectedSound(s0, t, p + 1, high, order);
      }
    } else {
      assert SelectPivoted(s, low, high, order) == Selected(t, low, p - 1, order);
      assert SelectedPlaced(s0, Selected(t, low, p - 1, order), order) by {
        assert Fenced(t, low, p - 1) && multiset(t) == multiset(s0) by {
          PartitionFenced(s, low, high);
          FencedLeft(t, low, p, high);
        }
        SelectedSound(s0, t, low, p - 1, order);
      }
    }
  }

  /** `partition`'s loop permutes inside the range, so it keeps the fences. */
  lemma PartitionFenced(s: seq<int>, low: nat, high: nat)
    requires low <= high < |s| && Fenced(s, low, high)
    ensures Fenced(QuickSort.PartitionFrom(s, low, low, high).0, low, high)
    ensures QuickSort.Partitioned(s, QuickSort.PartitionFrom(s, low, low, high).0, low, high, QuickSort.PartitionFrom(s, low, low, high).1)
  {
    var t := QuickSort.PartitionFrom(s, low, low, high).0;
    QuickSort.PartitionSound(s, low, high);
    QuickSort.MultisetRange(s, t, low, high + 1);
    FencedPerm(s, t, low, high);
  }

  /** How many elements of `s` are below `v`. */
  function CountLess(s: seq<int>, v: int): (n: nat)
    ensures n <= |s|
  {
    if s == [] then 0 else (if s[0] < v then 1 else 0) + CountLess(s[1..], v)
  }

  /** Counting over a concatenation. */
  lemma {:induction false} CountLessAppend(a: seq<int>, b: seq<int>, v: int)
    ensures CountLess(a + b, v) == CountLess(a, v) + CountLess(b, v)
  {
    if a == [] {
      assert a + b == b;
    } else {
      assert (a + b)[0] == a[0] && (a + b)[1..] == a[1..] + b;
      CountLessAppend(a[1..], b, v);
    }
  }

  /** Taking `s[0]` off `s` and an equal `t[j]` off `t` keeps the multisets
      equal. */
  lemma MultisetUncons(s: seq<int>, t: seq<int>, j: nat)
    requires multiset(s) == multiset(t) && s != [] && j < |t| && t[j] == s[0]
    ensures multiset(s[1..]) == multiset(t[..j] + t[j + 1..])
  {
    assert s == [s[0]] + s[1..];
    assert t == t[..j] + [t[j]] + t[j + 1..];
    assert multiset(s[1..]) == multiset(s) - multiset{s[0]};
    assert multiset(t[..j] + t[j + 1..]) == multiset(t) - multiset{t[j]};
  }

  /** Counting `t` is counting `t[j]` and the rest. */
  lemma CountLessRemove(t: seq<int>, j: nat, v: int)
    requires j < |t|
    ensures CountLess(t, v) == (if t[j] < v then 1 else 0) + CountLess(t[..j] + t[j + 1..], v)
  {
    var tail := [t[j]] + t[j + 1..];
    assert t == t[..j] + tail;
    CountLessAppend(t[..j], tail, v);
    CountLessAppend(t[..j], t[j + 1..], v);
    assert tail[0] == t[j] && tail[1..] == t[j + 1..];
  }

  /** The count depends only on the elements, not on their order. */
  lemma {:induction false} CountLessPerm(s: seq<int>, t: seq<int>, v: int)
    requires multiset(s) == multiset(t)
    ensures CountLess(s, v) == CountLess(t, v)
  {
    if s == [] {
      assert |t| == |multiset(t)| == 0;
    } else {
      assert s[0] in multiset(t);
      var j :| 0 <= j < |t| && t[j] == s[0];
      MultisetUncons(s, t, j);
      CountLessPerm(s[1..], t[..j] + t[j + 1..], v);
      CountLessRemove(t, j, v);
    }
  }

  /** A sequence whose first `m` elements are below `v` and whose others are not
      has exactly `m` elements below `v`. */
  lemma {:induction false} CountLessSplit(s: seq<int>, m: nat, v: int)
    requires m <= |s|
    requires forall i | 0 <= i < m :: s[i] < v
    requires forall i | m <= i < |s| :: v <= s[i]
    ensures CountLess(s, v) == m
  {
    if s != [] {
      CountLessSplit(s[1..], if m == 0 then 0 else m - 1, v);
    }
  }

  /** At most `m` elements below `v` when everything from `m` on is at least
      `v`. */
  lemma {:induction false} CountLessAtMost(s: seq<int>, m: nat, v: int)
    requires m <= |s|
    requires forall i | m <= i < |s| :: v <= s[i]
    ensures CountLess(s, v) <= m
  {
    if s != [] {
      CountLessAtMost(s[1..], if m == 0 then 0 else m - 1, v);
    }
  }

  /** At least `m` elements below `v` when everything before `m` is below `v`. */
  lemma {:induction false} CountLessAtLeast(s: seq<int>, m: nat, v: int)
    requires m <= |s|
    requires forall i | 0 <= i < m :: s[i] < v
    ensures m <= CountLess(s, v)
  {
    if m > 0 {
      CountLessAtLeast(s[1..], m - 1, v);
    }
  }

  /** An element in its sorted place is where a sorted permutation has it. */
  lemma PivotedRank(t: seq<int>, u: seq<int>, k: nat)
    requires Pivoted(t, k) && Sorted(u) && |u| == |t| && multiset(u) == multiset(t)
    ensures t[k] == u[k]
  {
    CountLessPerm(t, u, t[k]);
    CountLessPerm(t, u, t[k] + 1);
    if u[k] < t[k] {
      CountLessAtLeast(u, k + 1, t[k]);
      CountLessAtMost(t, k, t[k]);
    } else if t[k] < u[k] {
      CountLessAtMost(u, k, t[k] + 1);
      CountLessAtLeast(t, k + 1, t[k] + 1);
    }
  }

  /** `kth_smallest(array, k)` is the element at index `k` of any sorted
      permutation of `array`, duplicates included. */
  lemma KthIsSortedAt(s: seq<int>, k: nat, u: seq<int>)
    requires k < |s| && Sorted(u) && |u| == |s| && multiset(u) == multiset(s)
    ensures KthSmallestOf(s, k) == u[k]
  {
    SelectedSound(s, s, 0, |s| - 1, k);
    PivotedRank(Selected(s, 0, |s| - 1, k).0, u, k);
  }

  /** In particular it is the element at index `k` of quick_sort's result. */
  lemma KthIsQuickSortedAt(s: seq<int>, k: nat)
    requires k < |s|
    ensures KthSmallestOf(s, k) == QuickSort.QuickSorted(s, 0, |s| - 1)[k]
  {
    var u := QuickSort.QuickSorted(s, 0, |s| - 1);
    QuickSort.QuickSortedWhole(s);
    KthIsSortedAt(s, k, u);
  }
}

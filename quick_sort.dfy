/**
 * quick_sort: in-place Lomuto quicksort of the inclusive range `[low, high]`, the
 * pivot being the range's last element. Indices are `usize`, so `p - 1` with
 * `p == 0` underflows and panics.
 */
module QuickSort {
  import opened Wrappers
  import opened Seqs

  /** How many elements of `s[lo..hi)` are at most `pv`. */
  function CountAtMost(s: seq<int>, lo: nat, hi: nat, pv: int): (n: nat)
    requires hi <= |s|
    ensures n <= if lo <= hi then hi - lo else 0
    decreases hi
  {
    if hi <= lo then 0 else CountAtMost(s, lo, hi - 1, pv) + if s[hi - 1] <= pv then 1 else 0
  }

  /** Every element of `s[lo..hi)` is at most `pv`. */
  ghost predicate Below(s: seq<int>, lo: int, hi: int, pv: int)
  {
    forall k | lo <= k < hi && 0 <= k < |s| :: s[k] <= pv
  }

  /** Every element of `s[lo..hi)` is above `pv`. */
  ghost predicate Above(s: seq<int>, lo: int, hi: int, pv: int)
  {
    forall k | lo <= k < hi && 0 <= k < |s| :: pv < s[k]
  }

  /** The range `[lo, hi)` of `s` is in non-decreasing order. */
  ghost predicate SortedRange(s: seq<int>, lo: nat, hi: nat)
  {
    forall i, j | lo <= i < j < hi && j < |s| :: s[i] <= s[j]
  }

  /** `t` is `s` with the range `[lo, hi)` sorted and nothing else changed. */
  ghost predicate SortsRange(s: seq<int>, t: seq<int>, lo: nat, hi: nat)
  {
    && |t| == |s|
    && (forall k | 0 <= k < |s| && (k < lo || hi <= k) :: t[k] == s[k])
    && (lo <= hi <= |s| ==> multiset(t[lo..hi]) == multiset(s[lo..hi]) && SortedRange(t, lo, hi))
  }

  /** `t` is `s` after partitioning `[low, high]` around the pivot now at `p`:
      smaller-or-equal elements before it, larger ones after it, the same elements
      overall and nothing outside the range moved. */
  ghost predicate Partitioned(s: seq<int>, t: seq<int>, low: nat, high: nat, p: nat)
  {
    && low <= p <= high < |s| == |t|
    && Below(t, low, p, t[p]) && Above(t, p + 1, high + 1, t[p])
    && multiset(t) == multiset(s)
    && (forall k | 0 <= k < |s| && (k < low || high < k) :: t[k] == s[k])
  }

  /** The state of `partition`'s loop over `s0` after the positions before `idx`
      were examined: the elements at most the pivot fill `[low, cur)`, the larger
      ones `[cur, idx)`, and nothing from `idx` on has moved. */
  ghost predicate Partitioning(s: seq<int>, s0: seq<int>, low: nat, cur: nat, idx: nat, high: nat, pv: int)
  {
    && low <= cur <= idx <= high < |s| == |s0|
    && s[high] == pv
    && Below(s, low, cur, pv) && Above(s, cur, idx, pv)
    && multiset(s) == multiset(s0)
    && (forall k | 0 <= k < |s| && (k < low || idx <= k) :: s[k] == s0[k])
    && cur == low + CountAtMost(s0, low, idx, pv)
  }

  /** An element at most the pivot is swapped to `cur`, which moves up. */
  lemma PartitionTake(s: seq<int>, s0: seq<int>, low: nat, cur: nat, idx: nat, high: nat, pv: int)
    requires Partitioning(s, s0, low, cur, idx, high, pv) && idx < high && s[idx] <= pv
    ensures Partitioning(Swap(s, idx, cur), s0, low, cur + 1, idx + 1, high, pv)
  {
    SwapPerm(s, idx, cur);
  }

  /** A larger element stays where it is. */
  lemma PartitionSkip(s: seq<int>, s0: seq<int>, low: nat, cur: nat, idx: nat, high: nat, pv: int)
    requires Partitioning(s, s0, low, cur, idx, high, pv) && idx < high && pv < s[idx]
    ensures Partitioning(s, s0, low, cur, idx + 1, high, pv)
  {
  }

  /** Swapping the pivot to `cur` at the end puts it between the two groups. */
  lemma PartitionEnd(s: seq<int>, s0: seq<int>, low: nat, cur: nat, high: nat, pv: int)
    requires Partitioning(s, s0, low, cur, high, high, pv)
    ensures Swap(s, cur, high)[cur] == pv && Partitioned(s0, Swap(s, cur, high), low, high, cur)
  {
    SwapPerm(s, cur, high);
  }

  /** `partition` on values from loop position `idx` on, `cur` being the next slot
      for an element at most the pivot `s[high]`: when the loop is done, the pivot
      is swapped to `cur`. It returns the array and the pivot's index. */
  function PartitionFrom(s: seq<int>, cur: nat, idx: nat, high: nat): (r: (seq<int>, nat))
    requires cur <= idx <= high < |s|
    ensures |r.0| == |s| && cur <= r.1 <= high
    decreases high - idx
  {
    if idx == high then (Swap(s, cur, high), cur)
    else if s[idx] <= s[high] then PartitionFrom(Swap(s, idx, cur), cur + 1, idx + 1, high)
    else PartitionFrom(s, cur, idx + 1, high)
  }

  /** `r` is what `partition` of `[low, high]` of `s0` around `pv` returns: the
      pivot `pv` at `low` plus the number of elements of `[low, high)` at most it,
      those elements before it and the larger ones after it, and only `[low, high]`
      permuted. */
  ghost predicate PartitionDone(s0: seq<int>, r: (seq<int>, nat), low: nat, high: nat, pv: int)
  {
    && low <= high < |s0|
    && r.1 == low + CountAtMost(s0, low, high, pv)
    && Partitioned(s0, r.0, low, high, r.1) && r.0[r.1] == pv
  }

  /** From any state of the loop, `partition` ends as it should. */
  lemma {:induction false} PartitionFromSound(s: seq<int>, s0: seq<int>, low: nat, cur: nat, idx: nat, high: nat, pv: int)
    requires Partitioning(s, s0, low, cur, idx, high, pv)
    ensures PartitionDone(s0, PartitionFrom(s, cur, idx, high), low, high, pv)
    decreases high - idx, 1
  {
    if idx == high {
      assert PartitionFrom(s, cur, idx, high) == (Swap(s, cur, high), cur);
      PartitionEnd(s, s0, low, cur, high, pv);
    } else if s[idx] <= s[high] {
      PartitionFromTake(s, s0, low, cur, idx, high, pv);
    } else {
      PartitionFromSkip(s, s0, low, cur, idx, high, pv);
    }
  }

  /** The loop step that swaps an element at most the pivot to `cur`. */
  lemma {:induction false} PartitionFromTake(s: seq<int>, s0: seq<int>, low: nat, cur: nat, idx: nat, high: nat, pv: int)
    requires Partitioning(s, s0, low, cur, idx, high, pv) && idx < high && s[idx] <= s[high]
    ensures PartitionDone(s0, PartitionFrom(s, cur, idx, high), low, high, pv)
    decreases high - idx, 0
  {
    var s' := Swap(s, idx, cur);
    assert PartitionFrom(s, cur, idx, high) == PartitionFrom(s', cur + 1, idx + 1, high);
    assert PartitionDone(s0, PartitionFrom(s', cur + 1, idx + 1, high), low, high, pv) by {
      PartitionTake(s, s0, low, cur, idx, high, pv);
      PartitionFromSound(s', s0, low, cur + 1, idx + 1, high, pv);
    }
  }

  /** The loop step that passes over an element above the pivot. */
  lemma {:induction false} PartitionFromSkip(s: seq<int>, s0: seq<int>, low: nat, cur: nat, idx: nat, high: nat, pv: int)
    requires Partitioning(s, s0, low, cur, idx, high, pv) && idx < high && s[high] < s[idx]
    ensures PartitionDone(s0, PartitionFrom(s, cur, idx, high), low, high, pv)
    decreases high - idx, 0
  {
    assert PartitionFrom(s, cur, idx, high) == PartitionFrom(s, cur, idx + 1, high);
    assert PartitionDone(s0, PartitionFrom(s, cur, idx + 1, high), low, high, pv) by {
      PartitionSkip(s, s0, low, cur, idx, high, pv);
      PartitionFromSound(s, s0, low, cur, idx + 1, high, pv);
    }
  }

  /** `partition(array, low, high)` ends as it should. */
  lemma PartitionSound(s: seq<int>, low: nat, high: nat)
    requires low <= high < |s|
    ensures PartitionDone(s, PartitionFrom(s, low, low, high), low, high, s[high])
  {
    PartitionFromSound(s, s, low, low, low, high, s[high]);
  }

  /** `partition(array, low, high)`: moves every element of `[low, high)` that is
      at most the pivot `a[high]` to the front of the range, then swaps the pivot
      in after them. It returns the pivot's final index: `low` plus the number of
      elements at most the pivot. */
  method Partition(a: array<int>, low: nat, high: nat) returns (p: nat)
    requires low <= high < a.Length
    modifies a
    ensures (a[..], p) == PartitionFrom(old(a[..]), low, low, high)
  {
    ghost var s0 := a[..];
    var cur: nat := low;
    for idx := low to high
      invariant cur <= idx
      invariant PartitionFrom(a[..], cur, idx, high) == PartitionFrom(s0, low, low, high)
    {
      if a[idx] <= a[high] {
        ghost var s := a[..];
        a[idx], a[cur] := a[cur], a[idx];
        assert a[..] == Swap(s, idx, cur);
        cur := cur + 1;
      }
    }
    ghost var s := a[..];
    a[cur], a[high] := a[high], a[cur];
    assert a[..] == Swap(s, cur, high);
    p := cur;
  }

  /** When only `[lo, hi)` may differ and the whole multisets agree, the multisets
      of `[lo, hi)` agree. */
  lemma MultisetRange(s: seq<int>, t: seq<int>, lo: nat, hi: nat)
    requires lo <= hi <= |s| == |t| && multiset(s) == multiset(t)
    requires forall k | 0 <= k < |s| && (k < lo || hi <= k) :: t[k] == s[k]
    ensures multiset(t[lo..hi]) == multiset(s[lo..hi])
  {
    MultisetThirds(s, lo, hi);
    MultisetThirds(t, lo, hi);
    assert t[..lo] == s[..lo];
    assert t[hi..] == s[hi..];
    forall x ensures multiset(t[lo..hi])[x] == multiset(s[lo..hi])[x] {
      assert multiset(s)[x] == multiset(t)[x];
    }
  }

  /** The elements of a sequence are those of its three consecutive parts. */
  lemma MultisetThirds(s: seq<int>, lo: nat, hi: nat)
    requires lo <= hi <= |s|
    ensures multiset(s) == multiset(s[..lo]) + multiset(s[lo..hi]) + multiset(s[hi..])
  {
    assert s == s[..lo] + s[lo..hi] + s[hi..];
  }

  /** A range split around one index has the elements of its two sides and of
      that index. */
  lemma MultisetAround(s: seq<int>, t: seq<int>, lo: nat, p: nat, hi: nat)
    requires lo <= p < hi <= |s| && hi <= |t| && t[p] == s[p]
    requires multiset(t[lo..p]) == multiset(s[lo..p]) && multiset(t[p + 1..hi]) == multiset(s[p + 1..hi])
    ensures multiset(t[lo..hi]) == multiset(s[lo..hi])
  {
    assert t[lo..hi] == t[lo..p] + [t[p]] + t[p + 1..hi];
    assert s[lo..hi] == s[lo..p] + [s[p]] + s[p + 1..hi];
  }

  /** Permuting `[lo, hi)` keeps "every element is at most `pv`". */
  lemma BelowPerm(s: seq<int>, t: seq<int>, lo: nat, hi: nat, pv: int)
    requires lo <= hi <= |s| == |t| && multiset(t[lo..hi]) == multiset(s[lo..hi]) && Below(s, lo, hi, pv)
    ensures Below(t, lo, hi, pv)
  {
    forall k | lo <= k < hi ensures t[k] <= pv {
      assert t[k] == t[lo..hi][k - lo];
      assert t[k] in multiset(s[lo..hi]);
      var j :| 0 <= j < hi - lo && s[lo..hi][j] == t[k];
      assert s[lo + j] == t[k];
    }
  }

  /** Permuting `[lo, hi)` keeps "every element is above `pv`". */
  lemma AbovePerm(s: seq<int>, t: seq<int>, lo: nat, hi: nat, pv: int)
    requires lo <= hi <= |s| == |t| && multiset(t[lo..hi]) == multiset(s[lo..hi]) && Above(s, lo, hi, pv)
    ensures Above(t, lo, hi, pv)
  {
    forall k | lo <= k < hi ensures pv < t[k] {
      assert t[k] == t[lo..hi][k - lo];
      assert t[k] in multiset(s[lo..hi]);
      var j :| 0 <= j < hi - lo && s[lo..hi][j] == t[k];
      assert s[lo + j] == t[k];
    }
  }

  /** A range is sorted when the parts left and right of a pivot are sorted and
      lie below and above it. */
  lemma SortedAroundPivot(t: seq<int>, low: nat, p: nat, high: nat)
    requires low <= p <= high < |t|
    requires SortedRange(t, low, p) && SortedRange(t, p + 1, high + 1)
    requires Below(t, low, p, t[p]) && Above(t, p + 1, high + 1, t[p])
    ensures SortedRange(t, low, high + 1)
  {
  }

  /** The part left of the pivot after both recursive sorts: sorted by the first,
      untouched by the second, and still below the pivot. */
  lemma LeftPart(a1: seq<int>, a2: seq<int>, a3: seq<int>, low: nat, p: nat, high: nat)
    requires low <= p <= high < |a1|
    requires SortsRange(a1, a2, low, p) && SortsRange(a2, a3, p + 1, high + 1)
    requires Below(a1, low, p, a1[p])
    ensures a3[p] == a1[p] && SortedRange(a3, low, p)
    ensures multiset(a3[low..p]) == multiset(a1[low..p]) && Below(a3, low, p, a1[p])
  {
    assert a3[low..p] == a2[low..p];
    BelowPerm(a1, a3, low, p, a1[p]);
  }

  /** The part right of the pivot: untouched by the first sort, sorted by the
      second, and still above the pivot. */
  lemma RightPart(a1: seq<int>, a2: seq<int>, a3: seq<int>, low: nat, p: nat, high: nat)
    requires low <= p <= high < |a1|
    requires SortsRange(a1, a2, low, p) && SortsRange(a2, a3, p + 1, high + 1)
    requires Above(a1, p + 1, high + 1, a1[p])
    ensures SortedRange(a3, p + 1, high + 1)
    ensures multiset(a3[p + 1..high + 1]) == multiset(a1[p + 1..high + 1]) && Above(a3, p + 1, high + 1, a1[p])
  {
    assert a2[p + 1..high + 1] == a1[p + 1..high + 1];
    AbovePerm(a1, a3, p + 1, high + 1, a1[p]);
  }

  /** The three steps of `quick_sort` on `[low, high]`: `partition` takes `a0` to
      `a1` with the pivot at `p`, then the part left of `p` is sorted (`a2`) and then
      the part right of it (`a3`). Together they sort the range. */
  lemma QuickSortSteps(a0: seq<int>, a1: seq<int>, a2: seq<int>, a3: seq<int>, low: nat, p: nat, high: nat)
    requires Partitioned(a0, a1, low, high, p)
    requires SortsRange(a1, a2, low, p) && SortsRange(a2, a3, p + 1, high + 1)
    ensures SortsRange(a0, a3, low, high + 1)
  {
    assert SortedRange(a3, low, high + 1) by {
      LeftPart(a1, a2, a3, low, p, high);
      RightPart(a1, a2, a3, low, p, high);
      SortedAroundPivot(a3, low, p, high);
    }
    assert multiset(a3[low..high + 1]) == multiset(a1[low..high + 1]) by {
      LeftPart(a1, a2, a3, low, p, high);
      RightPart(a1, a2, a3, low, p, high);
      MultisetAround(a1, a3, low, p, high + 1);
    }
    assert multiset(a1[low..high + 1]) == multiset(a0[low..high + 1]) by {
      MultisetRange(a0, a1, low, high + 1);
    }
  }

  /** `quick_sort` on values, with the left recursion skipped when the pivot lands
      at 0 (the left part is then empty). */
  function QuickSorted(s: seq<int>, low: nat, high: nat): (t: seq<int>)
    requires low >= high || high < |s|
    ensures |t| == |s|
    decreases high - low
  {
    if low < high then
      var (t1, p) := PartitionFrom(s, low, low, high);
      if p == 0 then QuickSorted(t1, p + 1, high)
      else QuickSorted(QuickSorted(t1, low, p - 1), p + 1, high)
    else s
  }

  /** `quick_sort` on values as written: `None` where the source panics, that is
      where a partition returns 0 and `p - 1` underflows. */
  function QuickSortAsWritten(s: seq<int>, low: nat, high: nat): (r: Option<seq<int>>)
    requires low >= high || high < |s|
    ensures r.Some? ==> |r.value| == |s|
    decreases high - low
  {
    if low < high then
      var (t1, p) := PartitionFrom(s, low, low, high);
      if p == 0 then None
      else match QuickSortAsWritten(t1, low, p - 1)
        case None => None
        case Some(t2) => QuickSortAsWritten(t2, p + 1, high)
    else Some(s)
  }

  /** Quicksort sorts the inclusive range `[low, high]` and moves nothing
      outside it. */
  lemma {:induction false} QuickSortedSorts(s: seq<int>, low: nat, high: nat)
    requires low >= high || high < |s|
    ensures SortsRange(s, QuickSorted(s, low, high), low, high + 1)
    decreases high - low
  {
    if low < high {
      var (t1, p) := PartitionFrom(s, low, low, high);
      var t2 := if p > 0 then QuickSorted(t1, low, p - 1) else t1;
      var t3 := QuickSorted(t2, p + 1, high);
      assert QuickSorted(s, low, high) == t3;
      assert SortsRange(s, t3, low, high + 1) by {
        assert Partitioned(s, t1, low, high, p) by {
          PartitionSound(s, low, high);
        }
        assert SortsRange(t1, t2, low, p) by {
          if p > 0 {
            QuickSortedSorts(t1, low, p - 1);
          }
        }
        assert SortsRange(t2, t3, p + 1, high + 1) by {
          QuickSortedSorts(t2, p + 1, high);
        }
        QuickSortSteps(s, t1, t2, t3, low, p, high);
      }
    }
  }

  /** Sorting the whole of a non-empty `s` gives a sorted permutation of it. */
  lemma QuickSortedWhole(s: seq<int>)
    requires |s| > 0
    ensures |QuickSorted(s, 0, |s| - 1)| == |s| && Sorted(QuickSorted(s, 0, |s| - 1))
    ensures multiset(QuickSorted(s, 0, |s| - 1)) == multiset(s)
  {
    var u := QuickSorted(s, 0, |s| - 1);
    QuickSortedSorts(s, 0, |s| - 1);
    assert s[0..|s|] == s && u[0..|s|] == u;
    assert SortedRange(u, 0, |s|);
  }

  /** Where the code as written does not panic, it computes what the corrected
      version computes. */
  lemma {:induction false} AsWrittenAgrees(s: seq<int>, low: nat, high: nat)
    requires low >= high || high < |s|
    ensures QuickSortAsWritten(s, low, high).Some? ==> QuickSortAsWritten(s, low, high).value == QuickSorted(s, low, high)
    decreases high - low
  {
    if low < high {
      var (t1, p) := PartitionFrom(s, low, low, high);
      if p > 0 {
        AsWrittenAgrees(t1, low, p - 1);
        match QuickSortAsWritten(t1, low, p - 1)
        case None =>
        case Some(t2) => AsWrittenAgrees(t2, p + 1, high);
      }
    }
  }

  /** Where the code as written does not panic, it sorts the range. */
  lemma AsWrittenSorts(s: seq<int>, low: nat, high: nat)
    requires low >= high || high < |s|
    ensures QuickSortAsWritten(s, low, high).Some? ==> SortsRange(s, QuickSortAsWritten(s, low, high).value, low, high + 1)
  {
    AsWrittenAgrees(s, low, high);
    QuickSortedSorts(s, low, high);
  }

  /** The code as written panics on a range starting at 0 whose first partition
      finds no element at most the pivot: the pivot lands at 0. */
  lemma AsWrittenPanics(s: seq<int>, high: nat)
    requires 0 < high < |s| && CountAtMost(s, 0, high, s[high]) == 0
    ensures QuickSortAsWritten(s, 0, high) == None
  {
    PartitionSound(s, 0, high);
  }

  /** `[2, 1]` sorted over `[0, 1]` is such an input. */
  lemma TwoOnePanics()
    ensures QuickSortAsWritten([2, 1], 0, 1) == None
  {
    AsWrittenPanics([2, 1], 1);
  }

  /** `quick_sort(array, low, high)` as written, on the inclusive range
      `[low, high]`. It fails (`ok` false) exactly where `QuickSortAsWritten`
      panics; otherwise the array ends as `QuickSortAsWritten` computes, which
      `AsWrittenSorts` shows sorted over the range. */
  method QuickSort(a: array<int>, low: nat, high: nat) returns (ok: bool)
    requires low >= high || high < a.Length
    modifies a
    ensures QuickSortAsWritten(old(a[..]), low, high) == if ok then Some(a[..]) else None
    decreases high - low
  {
    ok := true;
    if low < high {
      var p := Partition(a, low, high);
      if p == 0 {
        ok := false;
      } else {
        ok := QuickSort(a, low, p - 1);
        if ok {
          ok := QuickSort(a, p + 1, high);
        }
      }
    }
  }

  /** `quick_sort` with the left recursion skipped when the pivot lands at 0. The
      array ends as `QuickSorted` computes, which `QuickSortedSorts` shows sorted
      over the range. */
  method QuickSortFixed(a: array<int>, low: nat, high: nat)
    requires low >= high || high < a.Length
    modifies a
    ensures a[..] == QuickSorted(old(a[..]), low, high)
    decreases high - low
  {
    if low < high {
      var p := Partition(a, low, high);
      if p > 0 {
        QuickSortFixed(a, low, p - 1);
      }
      QuickSortFixed(a, p + 1, high);
    }
  }
}

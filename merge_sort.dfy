/**
 * merge_sort: bottom-up merge sort over two buffers `z[0]` and `z[1]`, both
 * starting as copies of the input. Each pass merges adjacent runs of `width`
 * elements of `z[d]` into `z[1 - d]`, then doubles `width` and flips `d`.
 * Elements are compared by an integer key with a strict `<`, so on equal keys the
 * right run's element is taken first.
 */
module MergeSort {

  /** `s` is in non-decreasing order of keys. */
  ghost predicate SortedByKey<T>(s: seq<T>, key: T -> int)
  {
    forall i, j | 0 <= i < j < |s| :: key(s[i]) <= key(s[j])
  }

  /** `std::cmp::min` on indices. */
  function Min(a: nat, b: nat): nat
  {
    if a < b then a else b
  }

  /** The positions `[lo, hi)` of `s`, nothing when `hi <= lo`. */
  function Run<T>(s: seq<T>, lo: nat, hi: nat): (r: seq<T>)
    requires hi <= |s|
    ensures |r| == if lo < hi then hi - lo else 0
  {
    if lo < hi then s[lo..hi] else []
  }

  /** How many of `[right, rmax)` are still to be taken. */
  function Rem(right: nat, rmax: nat): nat
  {
    if right < rmax then rmax - right else 0
  }

  /** The merge of a left and a right run: the head with the smaller key first,
      the right run's head when the keys are equal. */
  function Merge<T>(l: seq<T>, r: seq<T>, key: T -> int): (m: seq<T>)
    ensures |m| == |l| + |r|
    decreases |l| + |r|
  {
    if l == [] then r
    else if r == [] then l
    else if key(l[0]) < key(r[0]) then [l[0]] + Merge(l[1..], r, key)
    else [r[0]] + Merge(l, r[1..], key)
  }

  /** The buffer `d` that the three merge loops leave, from the state where
      `left`, `right` and `idx` have got to: while both runs have elements the one
      with the smaller key is copied, then what is left of either run. */
  function MergeFrom<T>(s: seq<T>, d: seq<T>, left: nat, lmax: nat, right: nat, rmax: nat, idx: nat, key: T -> int): (r: seq<T>)
    requires |d| == |s| && left <= lmax <= |s| && rmax <= |s|
    requires idx + (lmax - left) + Rem(right, rmax) <= |d|
    ensures |r| == |d|
    decreases (lmax - left) + Rem(right, rmax)
  {
    if left < lmax && right < rmax then
      if key(s[left]) < key(s[right]) then MergeFrom(s, d[idx := s[left]], left + 1, lmax, right, rmax, idx + 1, key)
      else MergeFrom(s, d[idx := s[right]], left, lmax, right + 1, rmax, idx + 1, key)
    else if left < lmax then MergeFrom(s, d[idx := s[left]], left + 1, lmax, right, rmax, idx + 1, key)
    else if right < rmax then MergeFrom(s, d[idx := s[right]], left, lmax, right + 1, rmax, idx + 1, key)
    else d
  }

  /** `d` with `m` written from `idx` on. */
  function Place<T>(d: seq<T>, idx: nat, m: seq<T>): (r: seq<T>)
    requires idx + |m| <= |d|
    ensures |r| == |d|
  {
    d[..idx] + m + d[idx + |m|..]
  }

  /** Writing `x` at `idx` and then `m` after it is writing `[x] + m` at `idx`. */
  lemma PlaceCons<T>(d: seq<T>, idx: nat, x: T, m: seq<T>)
    requires idx + 1 + |m| <= |d|
    ensures Place(d[idx := x], idx + 1, m) == Place(d, idx, [x] + m)
  {
    assert d[idx := x][..idx + 1] == d[..idx] + [x];
    assert d[idx := x][idx + 1 + |m|..] == d[idx + 1 + |m|..];
  }

  /** The merge loops write the merge of what is left of both runs from `idx` on
      and leave the rest of the buffer alone. */
  lemma {:induction false} MergeFromIs<T>(s: seq<T>, d: seq<T>, left: nat, lmax: nat, right: nat, rmax: nat, idx: nat, key: T -> int)
    requires |d| == |s| && left <= lmax <= |s| && rmax <= |s|
    requires idx + (lmax - left) + Rem(right, rmax) <= |d|
    ensures MergeFrom(s, d, left, lmax, right, rmax, idx, key)
         == Place(d, idx, Merge(Run(s, left, lmax), Run(s, right, rmax), key))
    decreases (lmax - left) + Rem(right, rmax), 1
  {
    if left < lmax && (right >= rmax || key(s[left]) < key(s[right])) {
      MergeFromLeft(s, d, left, lmax, right, rmax, idx, key);
    } else if right < rmax {
      MergeFromRight(s, d, left, lmax, right, rmax, idx, key);
    } else {
      assert Run(s, left, lmax) == [] && Run(s, right, rmax) == [];
      assert d == d[..idx] + d[idx..];
    }
  }

  /** The step that copies the left run's head. */
  lemma {:induction false} MergeFromLeft<T>(s: seq<T>, d: seq<T>, left: nat, lmax: nat, right: nat, rmax: nat, idx: nat, key: T -> int)
    requires |d| == |s| && left < lmax <= |s| && rmax <= |s|
    requires idx + (lmax - left) + Rem(right, rmax) <= |d|
    requires right >= rmax || key(s[left]) < key(s[right])
    ensures MergeFrom(s, d, left, lmax, right, rmax, idx, key)
         == Place(d, idx, Merge(Run(s, left, lmax), Run(s, right, rmax), key))
    decreases (lmax - left) + Rem(right, rmax), 0
  {
    var l, r := Run(s, left, lmax), Run(s, right, rmax);
    var m' := Merge(Run(s, left + 1, lmax), r, key);
    assert MergeFrom(s, d, left, lmax, right, rmax, idx, key) == Place(d[idx := s[left]], idx + 1, m') by {
      MergeFromIs(s, d[idx := s[left]], left + 1, lmax, right, rmax, idx + 1, key);
    }
    assert Merge(l, r, key) == [s[left]] + m' by {
      assert l[0] == s[left] && l[1..] == Run(s, left + 1, lmax);
    }
    PlaceCons(d, idx, s[left], m');
  }

  /** The step that copies the right run's head. */
  lemma {:induction false} MergeFromRight<T>(s: seq<T>, d: seq<T>, left: nat, lmax: nat, right: nat, rmax: nat, idx: nat, key: T -> int)
    requires |d| == |s| && left <= lmax <= |s| && right < rmax <= |s|
    requires idx + (lmax - left) + Rem(right, rmax) <= |d|
    requires left >= lmax || key(s[right]) <= key(s[left])
    ensures MergeFrom(s, d, left, lmax, right, rmax, idx, key)
         == Place(d, idx, Merge(Run(s, left, lmax), Run(s, right, rmax), key))
    decreases (lmax - left) + Rem(right, rmax), 0
  {
    var l, r := Run(s, left, lmax), Run(s, right, rmax);
    var m' := Merge(l, Run(s, right + 1, rmax), key);
    assert MergeFrom(s, d, left, lmax, right, rmax, idx, key) == Place(d[idx := s[right]], idx + 1, m') by {
      MergeFromIs(s, d[idx := s[right]], left, lmax, right + 1, rmax, idx + 1, key);
    }
    assert Merge(l, r, key) == [s[right]] + m' by {
      assert r[0] == s[right] && r[1..] == Run(s, right + 1, rmax);
    }
    PlaceCons(d, idx, s[right], m');
  }

  /** One iteration of the `while i < n` loop (lines 12-40): merges the run of
      `width` at `i` with the run of `width` after it (either may be cut short by
      the end) into `dst`. */
  method MergeRuns<T>(src: array<T>, dst: array<T>, i: nat, width: nat, key: T -> int)
    requires src != dst && src.Length == dst.Length && i < src.Length && 1 <= width
    modifies dst
    ensures dst[..] == MergeFrom(src[..], old(dst[..]), i, Min(i + width, src.Length), i + width, Min(i + 2 * width, src.Length), i, key)
  {
    var n := src.Length;
    var idx: nat := i;
    var left: nat := i;
    var right: nat := i + width;
    var lmax := Min(left + width, n);
    var rmax := Min(right + width, n);
    ghost var goal := MergeFrom(src[..], dst[..], i, lmax, right, rmax, i, key);
    while left < lmax && right < rmax
      invariant left <= lmax && idx + (lmax - left) + Rem(right, rmax) <= n
      invariant MergeFrom(src[..], dst[..], left, lmax, right, rmax, idx, key) == goal
      decreases (lmax - left) + Rem(right, rmax)
    {
      if key(src[left]) < key(src[right]) {
        dst[idx] := src[left];
        left := left + 1;
      } else {
        dst[idx] := src[right];
        right := right + 1;
      }
      idx := idx + 1;
    }
    while left < lmax
      invariant left <= lmax && idx + (lmax - left) + Rem(right, rmax) <= n
      invariant right >= rmax || left >= lmax
      invariant MergeFrom(src[..], dst[..], left, lmax, right, rmax, idx, key) == goal
    {
      dst[idx] := src[left];
      left := left + 1;
      idx := idx + 1;
    }
    while right < rmax
      invariant left == lmax && idx + Rem(right, rmax) <= n
      invariant MergeFrom(src[..], dst[..], left, lmax, right, rmax, idx, key) == goal
      decreases Rem(right, rmax)
    {
      dst[idx] := src[right];
      right := right + 1;
      idx := idx + 1;
    }
  }

  /** The buffer `d` that one pass leaves when its `while i < n` loop has got to
      `i`. */
  function PassOn<T>(s: seq<T>, d: seq<T>, width: nat, i: nat, key: T -> int): (r: seq<T>)
    requires |d| == |s| && 1 <= width
    ensures |r| == |d|
    decreases |s| - i
  {
    if i < |s| then
      PassOn(s, MergeFrom(s, d, i, Min(i + width, |s|), i + width, Min(i + 2 * width, |s|), i, key), width, i + 2 * width, key)
    else d
  }

  /** One pass (lines 9-43): `dst` ends as the merged runs of `src`. */
  method MergePass<T>(src: array<T>, dst: array<T>, width: nat, key: T -> int)
    requires src != dst && src.Length == dst.Length && 1 <= width
    modifies dst
    ensures dst[..] == PassFrom(src[..], width, 0, key)
  {
    var n := src.Length;
    var i := 0;
    ghost var d0 := dst[..];
    while i < n
      invariant PassOn(src[..], dst[..], width, i, key) == PassOn(src[..], d0, width, 0, key)
      decreases n - i
    {
      MergeRuns(src, dst, i, width, key);
      i := i + width * 2;
    }
    PassOnIs(src[..], d0, width, 0, key);
    assert d0[..0] + PassFrom(src[..], width, 0, key) == PassFrom(src[..], width, 0, key);
  }

  /** What one pass computes from position `i` on: the merges of adjacent runs of
      `width`, one after the other. */
  function PassFrom<T>(s: seq<T>, width: nat, i: nat, key: T -> int): (r: seq<T>)
    requires 1 <= width
    ensures |r| == if i < |s| then |s| - i else 0
    decreases |s| - i
  {
    if i < |s| then
      var lmax, rmax := Min(i + width, |s|), Min(i + 2 * width, |s|);
      Merge(s[i..lmax], s[lmax..rmax], key) + PassFrom(s, width, i + 2 * width, key)
    else []
  }

  /** A pass writes what `PassFrom` computes over the part from `i` on, whatever
      the buffer held before. */
  lemma {:induction false} PassOnIs<T>(s: seq<T>, d: seq<T>, width: nat, i: nat, key: T -> int)
    requires |d| == |s| && 1 <= width && i <= |s|
    ensures PassOn(s, d, width, i, key) == d[..i] + PassFrom(s, width, i, key)
    decreases |s| - i
  {
    if i < |s| {
      var lmax, rmax := Min(i + width, |s|), Min(i + 2 * width, |s|);
      var m := Merge(s[i..lmax], s[lmax..rmax], key);
      var d' := MergeFrom(s, d, i, lmax, i + width, rmax, i, key);
      assert d' == Place(d, i, m) by {
        MergeFromIs(s, d, i, lmax, i + width, rmax, i, key);
        assert Run(s, i, lmax) == s[i..lmax];
        assert Run(s, i + width, rmax) == s[lmax..rmax];
      }
      if i + 2 * width < |s| {
        PassOnIs(s, d', width, i + 2 * width, key);
        assert d'[..i + 2 * width] == d[..i] + m;
      } else {
        assert d' == d[..i] + m;
      }
    }
  }

  /** The passes from `width` on, until a run covers the whole sequence. */
  function Passes<T>(s: seq<T>, width: nat, key: T -> int): (r: seq<T>)
    requires 1 <= width
    ensures |r| == |s|
    decreases |s| - width
  {
    if width < |s| then Passes(PassFrom(s, width, 0, key), 2 * width, key) else s
  }

  /** What `merge_sort(array)` returns. */
  function MergeSorted<T>(s: seq<T>, key: T -> int): seq<T>
  {
    Passes(s, 1, key)
  }

  /** `array.to_vec()`: a fresh buffer holding a copy of `input`. */
  method ToVec<T>(input: seq<T>) returns (a: array<T>)
    ensures fresh(a) && a[..] == input
  {
    a := new T[|input|](k requires 0 <= k < |input| => input[k]);
    assert a[..] == input;
  }

  /** `merge_sort(array)`: both buffers start as copies of `input`; the result
      is a copy of the buffer the last pass wrote. */
  method MergeSort<T>(input: seq<T>, key: T -> int) returns (r: seq<T>)
    ensures r == MergeSorted(input, key)
    ensures SortedByKey(r, key) && multiset(r) == multiset(input)
    ensures |input| <= 1 ==> r == input
  {
    var n := |input|;
    var z0 := ToVec(input);
    var z1 := ToVec(input);
    var z := [z0, z1];
    var d := 0;
    var width := 1;
    while width < n
      invariant d == 0 || d == 1
      invariant 1 <= width && z[0] != z[1] && z[0].Length == n == z[1].Length
      invariant Passes(z[d][..], width, key) == MergeSorted(input, key)
      decreases n - width
    {
      MergePass(z[d], z[1 - d], width, key);
      width := width * 2;
      d := 1 - d;
    }
    r := z[d][..];
    MergeSortedSorts(input, key);
  }

  /** Every run of `width` elements of `s`, from the start, is sorted. */
  ghost predicate Runs<T>(s: seq<T>, width: nat, key: T -> int)
    requires 1 <= width
    decreases |s|
  {
    if |s| <= width then SortedByKey(s, key)
    else SortedByKey(s[..width], key) && Runs(s[width..], width, key)
  }

  /** Runs of one element are sorted. */
  lemma {:induction false} RunsOne<T>(s: seq<T>, key: T -> int)
    ensures Runs(s, 1, key)
    decreases |s|
  {
    if |s| > 1 {
      RunsOne(s[1..], key);
    }
  }

  /** Merging keeps every element. */
  lemma {:induction false} MergePerm<T>(l: seq<T>, r: seq<T>, key: T -> int)
    ensures multiset(Merge(l, r, key)) == multiset(l) + multiset(r)
    decreases |l| + |r|
  {
    if l != [] && r != [] {
      if key(l[0]) < key(r[0]) {
        var m := Merge(l[1..], r, key);
        assert multiset(Merge(l, r, key)) == multiset{l[0]} + multiset(m) by {
          assert Merge(l, r, key) == [l[0]] + m;
        }
        MergePerm(l[1..], r, key);
        assert multiset(l) == multiset{l[0]} + multiset(l[1..]) by {
          assert l == [l[0]] + l[1..];
        }
      } else {
        var m := Merge(l, r[1..], key);
        assert multiset(Merge(l, r, key)) == multiset{r[0]} + multiset(m) by {
          assert Merge(l, r, key) == [r[0]] + m;
        }
        MergePerm(l, r[1..], key);
        assert multiset(r) == multiset{r[0]} + multiset(r[1..]) by {
          assert r == [r[0]] + r[1..];
        }
      }
    }
  }

  /** With all keys of both runs at least `b`, so are all keys of the merge. */
  lemma MergeAbove<T>(l: seq<T>, r: seq<T>, key: T -> int, b: int)
    requires forall k | 0 <= k < |l| :: b <= key(l[k])
    requires forall k | 0 <= k < |r| :: b <= key(r[k])
    ensures forall k | 0 <= k < |l| + |r| :: b <= key(Merge(l, r, key)[k])
  {
    var m := Merge(l, r, key);
    forall k | 0 <= k < |m| ensures b <= key(m[k]) {
      MergePerm(l, r, key);
      assert m[k] in multiset(m);
      if m[k] in multiset(l) {
        var i :| 0 <= i < |l| && l[i] == m[k];
      } else {
        var i :| 0 <= i < |r| && r[i] == m[k];
      }
    }
  }

  /** Merging two sorted runs gives a sorted run. */
  lemma {:induction false} MergeSortedRuns<T>(l: seq<T>, r: seq<T>, key: T -> int)
    requires SortedByKey(l, key) && SortedByKey(r, key)
    ensures SortedByKey(Merge(l, r, key), key)
    decreases |l| + |r|
  {
    if l != [] && r != [] {
      if key(l[0]) < key(r[0]) {
        MergeSortedRuns(l[1..], r, key);
        MergeAbove(l[1..], r, key, key(l[0]));
      } else {
        MergeSortedRuns(l, r[1..], key);
        MergeAbove(l, r[1..], key, key(r[0]));
      }
    }
  }

  /** The first two runs of `s[i..]` are sorted when all its runs are, and so
      are the runs after them. */
  lemma RunsSplit<T>(s: seq<T>, width: nat, i: nat, key: T -> int)
    requires 1 <= width && i < |s| && Runs(s[i..], width, key)
    ensures SortedByKey(s[i..Min(i + width, |s|)], key)
    ensures SortedByKey(s[Min(i + width, |s|)..Min(i + 2 * width, |s|)], key)
    ensures i + 2 * width < |s| ==> Runs(s[i + 2 * width..], width, key)
  {
    var lmax, rmax := Min(i + width, |s|), Min(i + 2 * width, |s|);
    if lmax < |s| {
      assert s[i..][..width] == s[i..lmax] && s[i..][width..] == s[lmax..];
      if rmax < |s| {
        assert s[lmax..][..width] == s[lmax..rmax] && s[lmax..][width..] == s[rmax..];
      } else {
        assert s[lmax..] == s[lmax..rmax];
      }
    } else {
      assert s[i..] == s[i..lmax];
      assert s[lmax..rmax] == [];
    }
  }

  /** A run of `2 * width` followed by runs of `2 * width` is runs of
      `2 * width`. */
  lemma RunsCons<T>(m: seq<T>, rest: seq<T>, width: nat, key: T -> int)
    requires 1 <= width && SortedByKey(m, key)
    requires |m| == 2 * width && (rest == [] || Runs(rest, 2 * width, key))
    ensures Runs(m + rest, 2 * width, key)
  {
    if rest != [] {
      assert (m + rest)[..2 * width] == m && (m + rest)[2 * width..] == rest;
    } else {
      assert m + rest == m;
    }
  }

  /** A pass over runs of `width` gives runs of `2 * width`. */
  lemma {:induction false} PassFromRuns<T>(s: seq<T>, width: nat, i: nat, key: T -> int)
    requires 1 <= width && i < |s| && Runs(s[i..], width, key)
    ensures Runs(PassFrom(s, width, i, key), 2 * width, key)
    decreases |s| - i
  {
    var lmax, rmax := Min(i + width, |s|), Min(i + 2 * width, |s|);
    var m := Merge(s[i..lmax], s[lmax..rmax], key);
    var rest := PassFrom(s, width, i + 2 * width, key);
    assert PassFrom(s, width, i, key) == m + rest;
    assert SortedByKey(m, key) by {
      RunsSplit(s, width, i, key);
      MergeSortedRuns(s[i..lmax], s[lmax..rmax], key);
    }
    if rmax < |s| {
      assert Runs(rest, 2 * width, key) by {
        RunsSplit(s, width, i, key);
        PassFromRuns(s, width, rmax, key);
      }
      RunsCons(m, rest, width, key);
    } else {
      assert m + rest == m;
    }
  }

  /** `s[a..]` in three pieces. */
  lemma SliceThirds<T>(s: seq<T>, a: nat, b: nat, c: nat)
    requires a <= b <= c <= |s|
    ensures s[a..] == s[a..b] + s[b..c] + s[c..]
  {
  }

  /** A pass keeps the elements. */
  lemma {:induction false} PassFromPerm<T>(s: seq<T>, width: nat, i: nat, key: T -> int)
    requires 1 <= width && i < |s|
    ensures multiset(PassFrom(s, width, i, key)) == multiset(s[i..])
    decreases |s| - i
  {
    var lmax, rmax := Min(i + width, |s|), Min(i + 2 * width, |s|);
    var m := Merge(s[i..lmax], s[lmax..rmax], key);
    var rest := PassFrom(s, width, i + 2 * width, key);
    assert PassFrom(s, width, i, key) == m + rest;
    SliceThirds(s, i, lmax, rmax);
    MergePerm(s[i..lmax], s[lmax..rmax], key);
    if rmax < |s| {
      PassFromPerm(s, width, rmax, key);
    } else {
      assert s[rmax..] == [];
    }
  }

  /** Passes over sorted runs of `width` end with the whole sequence sorted and
      the same elements. */
  lemma {:induction false} PassesSorts<T>(s: seq<T>, width: nat, key: T -> int)
    requires 1 <= width && Runs(s, width, key)
    ensures SortedByKey(Passes(s, width, key), key) && multiset(Passes(s, width, key)) == multiset(s)
    decreases |s| - width
  {
    if width < |s| {
      assert s[0..] == s;
      PassFromRuns(s, width, 0, key);
      PassFromPerm(s, width, 0, key);
      PassesSorts(PassFrom(s, width, 0, key), 2 * width, key);
    }
  }

  /** `merge_sort` returns a sorted permutation of its input. */
  lemma MergeSortedSorts<T>(s: seq<T>, key: T -> int)
    ensures |MergeSorted(s, key)| == |s|
    ensures SortedByKey(MergeSorted(s, key), key) && multiset(MergeSorted(s, key)) == multiset(s)
  {
    RunsOne(s, key);
    PassesSorts(s, 1, key);
  }

  /** On equal keys the merge takes the right run's head first. */
  lemma MergeTieRight<T>(l: seq<T>, r: seq<T>, key: T -> int)
    requires l != [] && r != [] && key(l[0]) == key(r[0])
    ensures Merge(l, r, key)[0] == r[0] && Merge(l, r, key)[1..] == Merge(l, r[1..], key)
  {
  }

  /** So `merge_sort` is not stable: two elements with equal keys come out in the
      opposite order. */
  lemma NotStable()
    ensures MergeSorted([(1, 0), (1, 1)], (p: (int, int)) => p.0) == [(1, 1), (1, 0)]
  {
    var key := (p: (int, int)) => p.0;
    var s := [(1, 0), (1, 1)];
    assert Merge([(1, 0)], [(1, 1)], key) == [(1, 1), (1, 0)];
    assert PassFrom(s, 1, 0, key) == [(1, 1), (1, 0)] by {
      assert s[0..1] == [(1, 0)] && s[1..2] == [(1, 1)];
      assert PassFrom(s, 1, 2, key) == [];
    }
  }
}

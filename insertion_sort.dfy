/**
 * insertion_sort: sorts a slice in place with a caller-supplied "comes before"
 * comparator, sinking each element past its predecessors with adjacent swaps.
 */
module InsertionSort {
  import opened Seqs

  /** The comparator is a strict weak order: asymmetric, and "not before" is
      transitive. `a < b` on integers is one. */
  ghost predicate WeakOrder<T(!new)>(less: (T, T) -> bool)
  {
    && (forall x, y :: less(x, y) ==> !less(y, x))
    && (forall x, y, z :: !less(x, y) && !less(y, z) ==> !less(x, z))
  }

  /** No element of the first `k` positions comes before an element earlier than
      it. With `k == |s|`, `s` is sorted with respect to `less`. */
  ghost predicate SortedBy<T>(s: seq<T>, k: nat, less: (T, T) -> bool)
  {
    forall i, j | 0 <= i < j < |s| && j < k :: !less(s[j], s[i])
  }

  /** `pos` says where each element of `s` stood in `orig`: `s` is `orig` permuted
      by `pos`. */
  ghost predicate Tracks<T>(s: seq<T>, orig: seq<T>, pos: seq<nat>)
  {
    && |pos| == |s| == |orig|
    && (forall k | 0 <= k < |s| :: pos[k] < |orig| && s[k] == orig[pos[k]])
    && (forall i, j | 0 <= i < j < |pos| :: pos[i] != pos[j])
  }

  /** Elements that neither comes before the other keep their original relative
      order. */
  ghost predicate Stable<T>(s: seq<T>, pos: seq<nat>, less: (T, T) -> bool)
    requires |pos| == |s|
  {
    forall i, j | 0 <= i < j < |s| && !less(s[i], s[j]) && !less(s[j], s[i]) :: pos[i] < pos[j]
  }

  /** While element `y` sinks through `s[..idx + 1]`: the other elements of that
      prefix are in order, and `s[y]` comes before every element it has passed. */
  ghost predicate Sinking<T>(s: seq<T>, idx: nat, y: nat, less: (T, T) -> bool)
    requires y <= idx < |s|
  {
    && (forall i, j | 0 <= i < j <= idx && i != y && j != y :: !less(s[j], s[i]))
    && (forall k | y < k <= idx :: less(s[y], s[k]))
  }

  /** `s` with positions `y - 1` and `y` exchanged. */
  function SwapDown<T>(s: seq<T>, y: nat): (t: seq<T>)
    requires 0 < y < |s|
    ensures |t| == |s| && multiset(t) == multiset(s)
    ensures t[y - 1] == s[y] && t[y] == s[y - 1]
    ensures forall k | 0 <= k < |s| && k != y - 1 && k != y :: t[k] == s[k]
  {
    s[y := s[y - 1]][y - 1 := s[y]]
  }

  /** Swapping the sinking element with a predecessor it comes before keeps it
      sinking, one position further down. */
  lemma SwapSinking<T>(s: seq<T>, idx: nat, y: nat, less: (T, T) -> bool)
    requires 0 < y <= idx < |s| && Sinking(s, idx, y, less) && less(s[y], s[y - 1])
    ensures Sinking(SwapDown(s, y), idx, y - 1, less)
  {
    var t := SwapDown(s, y);
    forall i, j | 0 <= i < j <= idx && i != y - 1 && j != y - 1 ensures !less(t[j], t[i]) {
      if j == y { assert t[j] == s[y - 1] && t[i] == s[i]; }
      else if i == y { assert t[i] == s[y - 1] && t[j] == s[j]; }
      else { assert t[i] == s[i] && t[j] == s[j]; }
    }
  }

  /** The swap keeps the record of original positions and the relative order of
      equivalent elements, since the two exchanged elements are not equivalent. */
  lemma SwapStable<T>(s: seq<T>, orig: seq<T>, pos: seq<nat>, y: nat, less: (T, T) -> bool)
    requires 0 < y < |s| && Tracks(s, orig, pos) && Stable(s, pos, less) && less(s[y], s[y - 1])
    ensures Tracks(SwapDown(s, y), orig, SwapDown(pos, y))
    ensures Stable(SwapDown(s, y), SwapDown(pos, y), less)
  {
    var t, p := SwapDown(s, y), SwapDown(pos, y);
    forall i, j | 0 <= i < j < |p| ensures p[i] != p[j] {
      var i' := if i == y - 1 then y else if i == y then y - 1 else i;
      var j' := if j == y - 1 then y else if j == y then y - 1 else j;
      assert p[i] == pos[i'] && p[j] == pos[j'];
    }
    forall i, j | 0 <= i < j < |t| && !less(t[i], t[j]) && !less(t[j], t[i]) ensures p[i] < p[j] {
      var i' := if i == y - 1 then y else if i == y then y - 1 else i;
      var j' := if j == y - 1 then y else if j == y then y - 1 else j;
      assert t[i] == s[i'] && t[j] == s[j'] && p[i] == pos[i'] && p[j] == pos[j'];
      assert i' < j';
    }
  }

  /** When the sinking element stops (at the front, or behind an element it does not
      come before), the prefix up to `idx` is in order. This is where the comparator
      has to be a weak order. */
  lemma SinkDone<T(!new)>(s: seq<T>, idx: nat, y: nat, less: (T, T) -> bool)
    requires y <= idx < |s| && WeakOrder(less) && Sinking(s, idx, y, less)
    requires y == 0 || !less(s[y], s[y - 1])
    ensures SortedBy(s, idx + 1, less)
  {
    forall i, j | 0 <= i < j < |s| && j < idx + 1 ensures !less(s[j], s[i]) {
      if j == y {
        if i < y - 1 { assert !less(s[y - 1], s[i]); }
      } else if i == y {
        assert less(s[y], s[j]);
      }
    }
  }

  /** One pass of the outer loop: element `idx` is swapped down while it comes
      before its predecessor. The swaps keep the record of original positions and
      stability, and with a weak order the prefix up to `idx` ends in order. */
  method SinkDown<T(!new)>(a: array<T>, idx: nat, less: (T, T) -> bool, ghost orig: seq<T>, ghost pos0: seq<nat>)
    returns (ghost pos: seq<nat>)
    modifies a
    requires 1 <= idx < a.Length
    requires multiset(a[..]) == multiset(orig) && Tracks(a[..], orig, pos0) && Stable(a[..], pos0, less)
    requires WeakOrder(less) ==> SortedBy(a[..], idx, less)
    ensures multiset(a[..]) == multiset(orig) && Tracks(a[..], orig, pos) && Stable(a[..], pos, less)
    ensures WeakOrder(less) ==> SortedBy(a[..], idx + 1, less)
  {
    pos := pos0;
    var y := idx;
    while y > 0 && less(a[y], a[y - 1])
      invariant y <= idx
      invariant multiset(a[..]) == multiset(orig)
      invariant Tracks(a[..], orig, pos) && Stable(a[..], pos, less)
      invariant WeakOrder(less) ==> Sinking(a[..], idx, y, less)
    {
      ghost var s := a[..];
      SwapStable(s, orig, pos, y, less);
      if WeakOrder(less) { SwapSinking(s, idx, y, less); }
      a[y], a[y - 1] := a[y - 1], a[y];
      pos := SwapDown(pos, y);
      assert a[..] == SwapDown(s, y);
      y := y - 1;
    }
    if WeakOrder(less) { SinkDone(a[..], idx, y, less); }
  }

  /** `insertion_sort(array, sort)`: for each `idx` from 1, element `idx` is swapped
      down while it comes before its predecessor. The slice ends a permutation of
      what it was (the ghost `pos` names the permutation), equivalent elements keep
      their order, and with a weak-order comparator it ends sorted. */
  method InsertionSort<T(!new)>(a: array<T>, less: (T, T) -> bool) returns (ghost pos: seq<nat>)
    modifies a
    ensures multiset(a[..]) == multiset(old(a[..]))
    ensures Tracks(a[..], old(a[..]), pos) && Stable(a[..], pos, less)
    ensures WeakOrder(less) ==> SortedBy(a[..], a.Length, less)
  {
    pos := seq(a.Length, k => k);
    var idx := 1;
    while idx < a.Length
      invariant 1 <= idx
      invariant multiset(a[..]) == multiset(old(a[..]))
      invariant Tracks(a[..], old(a[..]), pos) && Stable(a[..], pos, less)
      invariant WeakOrder(less) ==> SortedBy(a[..], idx, less)
    {
      pos := SinkDown(a, idx, less, old(a[..]), pos);
      idx := idx + 1;
    }
  }

  /** The comparator of the tests, `a < b`, is a weak order, and sorting with it is
      sorting in non-decreasing order. */
  lemma IntLess(s: seq<int>)
    ensures WeakOrder((x: int, y: int) => x < y)
    ensures SortedBy(s, |s|, (x: int, y: int) => x < y) <==> Sorted(s)
  {
  }
}

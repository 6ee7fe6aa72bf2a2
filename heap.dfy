/**
 * heap: a binary max-heap stored level by level in a vector. The order is the
 * element type's `>`, modelled as `>` on an integer key of each element (a
 * priority, or the value itself).
 */
module Heap {
  import opened Wrappers
  import opened Seqs

  /** `parent_index`: the position of `idx`'s parent; position 0 has none. */
  function ParentIndex(idx: nat): (p: nat)
    requires idx > 0
    ensures p < idx && (idx == 2 * p + 1 || idx == 2 * p + 2)
  {
    (idx - 1) / 2
  }

  /** `lchild_index`: the left child of `idx`, whose parent is `idx`. */
  function LChildIndex(idx: nat): (c: nat)
    ensures c > idx && ParentIndex(c) == idx
  {
    2 * idx + 1
  }

  /** `rchild_index`: the right child of `idx`, whose parent is `idx`. */
  function RChildIndex(idx: nat): (c: nat)
    ensures c > idx && ParentIndex(c) == idx && c == LChildIndex(idx) + 1
  {
    2 * idx + 2
  }

  /** Every node from position `lo` on has a key at least its children's. With
      `lo == 0` this is the max-heap property. */
  ghost predicate OrderedFrom<T>(s: seq<T>, lo: nat, key: T -> int)
  {
    forall i | 0 < i < |s| && lo <= ParentIndex(i) :: key(s[ParentIndex(i)]) >= key(s[i])
  }

  /** The max-heap property. */
  ghost predicate IsHeap<T>(s: seq<T>, key: T -> int)
  {
    OrderedFrom(s, 0, key)
  }

  /** The larger of `parent` and its children below `heapsz`, the parent winning
      ties and the left child winning a tie with the right (lines 33-39). */
  function First<T>(s: seq<T>, parent: nat, heapsz: nat, key: T -> int): (f: nat)
    requires heapsz <= |s|
    ensures f == parent || (parent < f < heapsz && ParentIndex(f) == parent)
  {
    var l, r := LChildIndex(parent), RChildIndex(parent);
    var first := if l < heapsz && key(s[l]) > key(s[parent]) then l else parent;
    if r < heapsz && key(s[r]) > key(s[first]) then r else first
  }

  /** `First` picks a child only when it is larger than the parent, and then the
      larger child; when it keeps the parent, no child below `heapsz` is larger. */
  lemma FirstIsLargest<T>(s: seq<T>, parent: nat, heapsz: nat, key: T -> int)
    requires heapsz <= |s|
    ensures var f := First(s, parent, heapsz, key);
      && (f != parent ==> key(s[f]) > key(s[parent]))
      && (f != parent ==> forall c | 0 < c < heapsz && ParentIndex(c) == parent :: key(s[f]) >= key(s[c]))
      && (f == parent && parent < heapsz ==>
            forall c | 0 < c < heapsz && ParentIndex(c) == parent :: key(s[parent]) >= key(s[c]))
  {
  }

  /** What `shift_down(idx, heapsz)` leaves: the element at `idx` is swapped with
      its larger child below `heapsz` until neither child is larger. */
  function SiftDown<T>(s: seq<T>, idx: nat, heapsz: nat, key: T -> int): (r: seq<T>)
    requires heapsz <= |s|
    ensures |r| == |s|
    decreases heapsz - idx
  {
    var first := First(s, idx, heapsz, key);
    if first == idx then s else SiftDown(Swap(s, first, idx), first, heapsz, key)
  }

  /** What `shift_up(idx)` leaves: the element at `idx` is swapped with its parent
      while its key is larger. */
  function SiftUp<T>(s: seq<T>, idx: nat, key: T -> int): (r: seq<T>)
    requires idx < |s|
    ensures |r| == |s|
    decreases idx
  {
    if idx > 0 && key(s[idx]) > key(s[ParentIndex(idx)]) then
      SiftUp(Swap(s, idx, ParentIndex(idx)), ParentIndex(idx), key)
    else s
  }

  /** While an element sifts down from `lo`, it stands at `p`: every parent from
      `lo` on except `p` is ordered with its children, and `p`'s parent (when `p`
      is below `lo`) is at least `p`'s children. */
  ghost predicate SiftingDown<T>(s: seq<T>, lo: nat, p: nat, key: T -> int)
  {
    && lo <= p
    && (forall i | 0 < i < |s| && lo <= ParentIndex(i) && ParentIndex(i) != p ::
          key(s[ParentIndex(i)]) >= key(s[i]))
    && (p > 0 && lo <= ParentIndex(p) && p < |s| ==>
          forall i | 0 < i < |s| && ParentIndex(i) == p :: key(s[ParentIndex(p)]) >= key(s[i]))
  }

  /** One swap of `shift_down` moves the sifting element one level down. */
  lemma SiftDownStep<T>(s: seq<T>, lo: nat, p: nat, key: T -> int)
    requires p < |s| && SiftingDown(s, lo, p, key)
    requires First(s, p, |s|, key) != p
    ensures SiftingDown(Swap(s, First(s, p, |s|, key), p), lo, First(s, p, |s|, key), key)
  {
    var f := First(s, p, |s|, key);
    FirstIsLargest(s, p, |s|, key);
    var t := Swap(s, f, p);
    forall i | 0 < i < |t| && lo <= ParentIndex(i) && ParentIndex(i) != f
      ensures key(t[ParentIndex(i)]) >= key(t[i])
    {
      var q := ParentIndex(i);
      if q == p {
        if i != f { assert t[i] == s[i]; }
      } else if i == p {
        assert t[q] == s[q];
      } else {
        assert t[q] == s[q] && t[i] == s[i];
      }
    }
    forall i | 0 < i < |t| && ParentIndex(i) == f ensures key(t[ParentIndex(f)]) >= key(t[i]) {
      assert t[i] == s[i];
    }
  }

  /** Sifting down from `p` restores the order from `lo` on. */
  lemma {:induction false} SiftDownOrders<T>(s: seq<T>, lo: nat, p: nat, key: T -> int)
    requires SiftingDown(s, lo, p, key)
    ensures OrderedFrom(SiftDown(s, p, |s|, key), lo, key)
    decreases |s| - p
  {
    var f := First(s, p, |s|, key);
    if f != p {
      SiftDownStep(s, lo, p, key);
      SiftDownOrders(Swap(s, f, p), lo, f, key);
    } else if p < |s| {
      FirstIsLargest(s, p, |s|, key);
    } else {
      forall i | 0 < i < |s| && lo <= ParentIndex(i) ensures key(s[ParentIndex(i)]) >= key(s[i]) {
        assert ParentIndex(i) != p;
      }
    }
  }

  /** Sifting down only permutes. */
  lemma {:induction false} SiftDownPerm<T>(s: seq<T>, idx: nat, heapsz: nat, key: T -> int)
    requires heapsz <= |s|
    ensures multiset(SiftDown(s, idx, heapsz, key)) == multiset(s)
    decreases heapsz - idx
  {
    var f := First(s, idx, heapsz, key);
    if f != idx {
      SwapPerm(s, f, idx);
      SiftDownPerm(Swap(s, f, idx), f, heapsz, key);
    }
  }

  /** While an element sifts up, it stands at `c`: every node except `c` is at
      most its parent, and `c`'s parent is at least `c`'s children. */
  ghost predicate SiftingUp<T>(s: seq<T>, c: nat, key: T -> int)
  {
    && (forall i | 0 < i < |s| && i != c :: key(s[ParentIndex(i)]) >= key(s[i]))
    && (c > 0 ==> forall i | 0 < i < |s| && ParentIndex(i) == c :: key(s[ParentIndex(c)]) >= key(s[i]))
  }

  /** One swap of `shift_up` moves the sifting element one level up. */
  lemma SiftUpStep<T>(s: seq<T>, c: nat, key: T -> int)
    requires 0 < c < |s| && SiftingUp(s, c, key) && key(s[c]) > key(s[ParentIndex(c)])
    ensures SiftingUp(Swap(s, c, ParentIndex(c)), ParentIndex(c), key)
  {
    var p := ParentIndex(c);
    var t := Swap(s, c, p);
    forall i | 0 < i < |t| && i != p ensures key(t[ParentIndex(i)]) >= key(t[i]) {
      var q := ParentIndex(i);
      if q == p {
        if i != c { assert t[i] == s[i]; }
      } else if q == c {
        assert t[i] == s[i];
      } else {
        assert t[q] == s[q] && t[i] == s[i];
      }
    }
    if p > 0 {
      forall i | 0 < i < |t| && ParentIndex(i) == p ensures key(t[ParentIndex(p)]) >= key(t[i]) {
        if i != c { assert t[i] == s[i]; }
      }
    }
  }

  /** Sifting up from `c` restores the heap property. */
  lemma {:induction false} SiftUpOrders<T>(s: seq<T>, c: nat, key: T -> int)
    requires c < |s| && SiftingUp(s, c, key)
    ensures IsHeap(SiftUp(s, c, key), key)
    decreases c
  {
    if c > 0 && key(s[c]) > key(s[ParentIndex(c)]) {
      SiftUpStep(s, c, key);
      SiftUpOrders(Swap(s, c, ParentIndex(c)), ParentIndex(c), key);
    }
  }

  /** Sifting up only permutes. */
  lemma {:induction false} SiftUpPerm<T>(s: seq<T>, c: nat, key: T -> int)
    requires c < |s|
    ensures multiset(SiftUp(s, c, key)) == multiset(s)
    decreases c
  {
    if c > 0 && key(s[c]) > key(s[ParentIndex(c)]) {
      SwapPerm(s, c, ParentIndex(c));
      SiftUpPerm(Swap(s, c, ParentIndex(c)), ParentIndex(c), key);
    }
  }

  /** In a heap, the root's key is at least every element's. */
  lemma {:induction false} RootIsMax<T>(s: seq<T>, i: nat, key: T -> int)
    requires IsHeap(s, key) && i < |s|
    ensures key(s[0]) >= key(s[i])
    decreases i
  {
    if i > 0 {
      RootIsMax(s, ParentIndex(i), key);
    }
  }

  /** Every element of a non-empty heap has a key at most the root's. */
  lemma RootAboveAll<T>(s: seq<T>, key: T -> int)
    requires IsHeap(s, key) && |s| > 0
    ensures forall x | x in multiset(s) :: key(x) <= key(s[0])
  {
    forall x | x in multiset(s) ensures key(x) <= key(s[0]) {
      var i :| 0 <= i < |s| && s[i] == x;
      RootIsMax(s, i, key);
    }
  }

  /** What `build_heap` leaves: `shift_down(len/2 - 1 - i, len)` for `i` from `i`
      up to `len/2`. */
  function BuildFrom<T>(s: seq<T>, i: nat, key: T -> int): (r: seq<T>)
    ensures |r| == |s|
    decreases |s| / 2 - i
  {
    if i < |s| / 2 then BuildFrom(SiftDown(s, |s| / 2 - 1 - i, |s|, key), i + 1, key) else s
  }

  /** One step of `build_heap`: with the nodes after `idx` ordered, sifting `idx`
      down orders the nodes from `idx` on, as a permutation. */
  lemma BuildStep<T>(s: seq<T>, idx: nat, key: T -> int)
    requires idx < |s| && OrderedFrom(s, idx + 1, key)
    ensures OrderedFrom(SiftDown(s, idx, |s|, key), idx, key)
    ensures multiset(SiftDown(s, idx, |s|, key)) == multiset(s)
  {
    assert SiftingDown(s, idx, idx, key);
    SiftDownOrders(s, idx, idx, key);
    SiftDownPerm(s, idx, |s|, key);
  }

  /** After the steps before `i`, the nodes from `len/2 - i` on are ordered; the
      remaining steps order the whole vector, as a permutation. */
  lemma {:induction false} BuildFromHeap<T>(s: seq<T>, i: nat, key: T -> int)
    requires i <= |s| / 2 && OrderedFrom(s, |s| / 2 - i, key)
    ensures IsHeap(BuildFrom(s, i, key), key)
    ensures multiset(BuildFrom(s, i, key)) == multiset(s)
    decreases |s| / 2 - i
  {
    if i < |s| / 2 {
      var idx := |s| / 2 - 1 - i;
      var s' := SiftDown(s, idx, |s|, key);
      assert BuildFrom(s, i, key) == BuildFrom(s', i + 1, key);
      BuildStep(s, idx, key);
      assert |s'| / 2 - (i + 1) == idx;
      BuildFromHeap(s', i + 1, key);
      ghost var r := BuildFrom(s', i + 1, key);
      assert multiset(r) == multiset(s') == multiset(s);
    } else {
      var lo := |s| / 2 - i;
      assert lo == 0;
      assert OrderedFrom(s, lo, key);
      assert BuildFrom(s, i, key) == s;
    }
  }

  /** `build_heap` turns any vector into a heap with the same elements: at the
      start no node from `len/2` on has a child. */
  lemma BuildHeapSound<T>(s: seq<T>, key: T -> int)
    ensures IsHeap(BuildFrom(s, 0, key), key) && multiset(BuildFrom(s, 0, key)) == multiset(s)
  {
    assert OrderedFrom(s, |s| / 2, key) by {
      forall i | 0 < i < |s| ensures ParentIndex(i) < |s| / 2 { }
    }
    BuildFromHeap(s, 0, key);
  }

  /** The vector after `remove` has swapped the root with the last element and
      popped it. */
  function Popped<T>(s: seq<T>): (r: seq<T>)
    requires |s| > 0
    ensures |r| == |s| - 1
  {
    Swap(s, 0, |s| - 1)[..|s| - 1]
  }

  /** Removing from a non-empty heap: the root has a maximal key, and sifting the
      popped vector down from the root leaves a heap of the other elements. */
  lemma RemoveSound<T>(s: seq<T>, key: T -> int)
    requires IsHeap(s, key) && |s| > 0
    ensures IsHeap(SiftDown(Popped(s), 0, |s| - 1, key), key)
    ensures multiset(SiftDown(Popped(s), 0, |s| - 1, key)) + multiset{s[0]} == multiset(s)
    ensures forall x | x in multiset(s) :: key(x) <= key(s[0])
  {
    var p := Popped(s);
    assert SiftingDown(p, 0, 0, key) by {
      forall i | 0 < i < |p| && ParentIndex(i) != 0
        ensures key(p[ParentIndex(i)]) >= key(p[i])
      {
        assert p[ParentIndex(i)] == s[ParentIndex(i)] && p[i] == s[i];
      }
    }
    assert multiset(p) + multiset{s[0]} == multiset(s) by {
      SwapPerm(s, 0, |s| - 1);
      assert Swap(s, 0, |s| - 1) == p + [s[0]];
    }
    SiftDownOrders(p, 0, 0, key);
    SiftDownPerm(p, 0, |s| - 1, key);
    RootAboveAll(s, key);
  }

  /** Inserting into a heap: pushing `x` and sifting it up leaves a heap of the
      old elements and `x`. */
  lemma InsertSound<T>(s: seq<T>, x: T, key: T -> int)
    requires IsHeap(s, key)
    ensures IsHeap(SiftUp(s + [x], |s|, key), key)
    ensures multiset(SiftUp(s + [x], |s|, key)) == multiset(s) + multiset{x}
  {
    var pushed := s + [x];
    assert SiftingUp(pushed, |s|, key);
    SiftUpOrders(pushed, |s|, key);
    SiftUpPerm(pushed, |s|, key);
  }

  /** One step of `build_heap`'s loop. */
  lemma BuildFromStep<T>(s: seq<T>, i: nat, key: T -> int)
    requires i < |s| / 2
    ensures BuildFrom(s, i, key) == BuildFrom(SiftDown(s, |s| / 2 - 1 - i, |s|, key), i + 1, key)
  {
  }

  /** Keys that never increase along a sequence. */
  ghost predicate NonIncreasing<T>(s: seq<T>, key: T -> int)
  {
    forall i, j | 0 <= i < j < |s| :: key(s[i]) >= key(s[j])
  }

  class Heap<T> {
    var inner: seq<T>
    /** The order: `a > b` in the source is `key(a) > key(b)` here. */
    const key: T -> int

    ghost predicate Valid()
      reads this
    {
      IsHeap(inner, key)
    }

    /** `new`: an empty heap. */
    constructor (key: T -> int)
      ensures Valid() && inner == [] && this.key == key
    {
      inner := [];
      this.key := key;
    }

    /** `with_array`: a copy of `items`, made into a heap by `build_heap`. */
    constructor WithArray(items: seq<T>, key: T -> int)
      ensures Valid() && inner == BuildFrom(items, 0, key) && this.key == key
      ensures multiset(inner) == multiset(items)
    {
      inner := items;
      this.key := key;
      new;
      BuildHeap();
      BuildHeapSound(items, key);
    }

    /** `count`. */
    method Count() returns (n: nat)
      ensures n == |inner|
    {
      n := |inner|;
    }

    /** `is_empty`. */
    method IsEmpty() returns (b: bool)
      ensures b <==> inner == []
    {
      b := |inner| == 0;
    }

    /** `shift_down(idx, heapsz)`. */
    method ShiftDown(idx: nat, heapsz: nat)
      requires heapsz <= |inner|
      modifies this
      ensures inner == SiftDown(old(inner), idx, heapsz, key)
    {
      var parent: nat := idx;
      while true
        invariant heapsz <= |inner|
        invariant SiftDown(inner, parent, heapsz, key) == SiftDown(old(inner), idx, heapsz, key)
        decreases heapsz - parent
      {
        var lchild, rchild := LChildIndex(parent), RChildIndex(parent);
        var first := parent;
        if lchild < heapsz && key(inner[lchild]) > key(inner[first]) {
          first := lchild;
        }
        if rchild < heapsz && key(inner[rchild]) > key(inner[first]) {
          first := rchild;
        }
        assert first == First(inner, parent, heapsz, key);
        if first == parent {
          break;
        }
        inner := Swap(inner, first, parent);
        parent := first;
      }
    }

    /** `shift_up(idx)`. */
    method ShiftUp(idx: nat)
      requires idx < |inner|
      modifies this
      ensures inner == SiftUp(old(inner), idx, key)
    {
      var child: nat := idx;
      while child > 0
        invariant child < |inner|
        invariant SiftUp(inner, child, key) == SiftUp(old(inner), idx, key)
      {
        var parent := ParentIndex(child);
        if key(inner[child]) > key(inner[parent]) {
          inner := Swap(inner, child, parent);
          child := parent;
        } else {
          break;
        }
      }
    }

    /** `insert(value)`: push, then sift the new last element up. The heap gains
        exactly `value`. */
    method Insert(value: T)
      requires Valid()
      modifies this
      ensures inner == SiftUp(old(inner) + [value], |old(inner)|, key)
      ensures Valid() && multiset(inner) == multiset(old(inner)) + multiset{value}
    {
      inner := inner + [value];
      var len := |inner|;
      ghost var pushed := inner;
      assert SiftingUp(pushed, len - 1, key);
      ShiftUp(len - 1);
      SiftUpOrders(pushed, len - 1, key);
      SiftUpPerm(pushed, len - 1, key);
    }

    /** `remove`: `None` on an empty heap; otherwise the root, after swapping it
        with the last element, popping it and sifting the new root down. The
        result has a maximal key, and the heap keeps exactly the other elements. */
    method Remove() returns (r: Option<T>)
      requires Valid()
      modifies this
      ensures Valid()
      ensures r.None? <==> old(inner) == []
      ensures r.None? ==> inner == old(inner)
      ensures r.Some? ==> r.value == old(inner)[0] && inner == SiftDown(Popped(old(inner)), 0, |old(inner)| - 1, key)
      ensures r.Some? ==> |inner| == |old(inner)| - 1 && multiset(inner) + multiset{r.value} == multiset(old(inner))
      ensures r.Some? ==> forall x | x in multiset(old(inner)) :: key(x) <= key(r.value)
    {
      if |inner| == 0 {
        return None;
      }
      var len := |inner|;
      ghost var s := inner;
      inner := Swap(inner, 0, len - 1);
      var ret := inner[len - 1];
      inner := inner[..len - 1];
      assert inner == Popped(s);
      r := Some(ret);
      ShiftDown(0, len - 1);
      assert inner == SiftDown(Popped(s), 0, |s| - 1, key);
      RemoveSound(s, key);
    }

    /** `build_heap`: sift down every node that has a child, the last first. */
    method BuildHeap()
      modifies this
      ensures inner == BuildFrom(old(inner), 0, key)
    {
      var len := |inner|;
      for i := 0 to len / 2
        invariant |inner| == len
        invariant BuildFrom(inner, i, key) == BuildFrom(old(inner), 0, key)
      {
        var idx := len / 2 - 1 - i;
        ghost var prev := inner;
        ShiftDown(idx, len);
        assert BuildFrom(prev, i, key) == BuildFrom(inner, i + 1, key) by { BuildFromStep(prev, i, key); }
      }
    }

    /** `peek`: the root, a maximum, or `None`; nothing changes. */
    method Peek() returns (r: Option<T>)
      requires Valid()
      ensures r.None? <==> inner == []
      ensures r.Some? ==> r.value == inner[0] && forall x | x in multiset(inner) :: key(x) <= key(r.value)
    {
      if |inner| == 0 {
        return None;
      }
      RootAboveAll(inner, key);
      r := Some(inner[0]);
    }
  }

  /** Appending an element with a key at most the last one keeps the keys
      non-increasing. */
  lemma NonIncreasingSnoc<T>(s: seq<T>, x: T, key: T -> int)
    requires NonIncreasing(s, key) && (s != [] ==> key(x) <= key(s[|s| - 1]))
    ensures NonIncreasing(s + [x], key)
  {
    var t := s + [x];
    forall i, j | 0 <= i < j < |t| ensures key(t[i]) >= key(t[j]) {
      if j == |s| && i < |s| - 1 {
        assert key(s[i]) >= key(s[|s| - 1]);
      }
    }
  }

  /** Removing until `None` yields every element, largest key first, one fewer
      remaining each time, and leaves the heap empty. */
  method RemoveAll<T>(h: Heap<T>) returns (out: seq<T>)
    requires h.Valid()
    modifies h
    ensures h.Valid() && h.inner == []
    ensures multiset(out) == old(multiset(h.inner)) && NonIncreasing(out, h.key)
  {
    out := [];
    while true
      invariant h.Valid() && multiset(out) + multiset(h.inner) == old(multiset(h.inner))
      invariant NonIncreasing(out, h.key)
      invariant out != [] ==> forall x | x in multiset(h.inner) :: h.key(x) <= h.key(out[|out| - 1])
      decreases |h.inner|
    {
      ghost var before := h.inner;
      var x := h.Remove();
      if x.None? {
        return;
      }
      assert x.value in multiset(before);
      NonIncreasingSnoc(out, x.value, h.key);
      out := out + [x.value];
    }
  }
}

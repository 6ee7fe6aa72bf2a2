/**
 * segtree: a segment tree over a non-empty array. Every node covers an index range
 * `[lo, hi]` and holds the array's values over that range combined with `op`; a
 * leaf covers a single index, and an inner node splits its range at
 * `lo + (hi - lo) / 2`. `query` answers a range from the nodes it covers, and
 * `replace` rewrites one position and recomputes the nodes above it. The element
 * type's `ValueOp::op` is the parameter `op`; for `query` to mean the combination
 * over the range, `op` must be associative.
 */
module SegTree {
  import opened Wrappers

  datatype Node<T> = Node(value: T, lo: nat, hi: nat)

  datatype SegTree<T> = Leaf(node: Node<T>) | NotLeaf(left: SegTree<T>, node: Node<T>, right: SegTree<T>)
  {
    function Value(): T { node.value }
    function Lo(): nat { node.lo }
    function Hi(): nat { node.hi }

    /** `SegTree::query`: a range inside a shaped node's range, answered from the node
        itself when the ranges coincide, from the one child the range lies in, or by
        combining the answers of both children. A query over the node's whole range
        is the node's own value. */
    function Query(op: (T, T) -> T, l: nat, r: nat): (v: T)
      requires Shaped(this) && Lo() <= l <= r <= Hi()
      ensures l == Lo() && r == Hi() ==> v == Value()
    {
      match this
      case NotLeaf(lc, n, rc) =>
        if n.lo == l && n.hi == r then n.value
        else if lc.Hi() < l then rc.Query(op, l, r)
        else if rc.Lo() > r then lc.Query(op, l, r)
        else op(lc.Query(op, l, lc.Hi()), rc.Query(op, rc.Lo(), r))
      case Leaf(n) => n.value
    }

    /** `SegTree::replace`: the leaf on the path to `i` gets `x`, and every node on the
        path is recomputed from its children. The shape and every node's range stay
        as they were. */
    function Replace(op: (T, T) -> T, i: nat, x: T): (u: SegTree<T>)
      ensures u.Lo() == Lo() && u.Hi() == Hi() && SameRanges(u, this)
    {
      match this
      case Leaf(n) => Leaf(Node(x, n.lo, n.hi))
      case NotLeaf(lc, n, rc) =>
        if lc.Hi() < i then
          var rc' := rc.Replace(op, i, x);
          SameRangesRefl(lc);
          NotLeaf(lc, Node(op(lc.Value(), rc'.Value()), n.lo, n.hi), rc')
        else
          var lc' := lc.Replace(op, i, x);
          SameRangesRefl(rc);
          NotLeaf(lc', Node(op(lc'.Value(), rc.Value()), n.lo, n.hi), rc)
    }
  }

  /** `s` and `t` have the same shape and each node of `s` covers the range of the
      node of `t` in the same place. */
  ghost predicate SameRanges<T>(s: SegTree<T>, t: SegTree<T>)
  {
    s.Lo() == t.Lo() && s.Hi() == t.Hi() &&
    match s
    case Leaf(_) => t.Leaf?
    case NotLeaf(sl, _, sr) => t.NotLeaf? && SameRanges(sl, t.left) && SameRanges(sr, t.right)
  }

  lemma {:induction false} SameRangesRefl<T>(t: SegTree<T>)
    ensures SameRanges(t, t)
  {
    match t
    case Leaf(_) =>
    case NotLeaf(l, _, r) =>
      SameRangesRefl(l);
      SameRangesRefl(r);
  }

  /** `op` may be regrouped freely. */
  ghost predicate Associative<T(!new)>(op: (T, T) -> T)
  {
    forall a, b, c {:trigger op(op(a, b), c)} :: op(op(a, b), c) == op(a, op(b, c))
  }

  /** `op` folded over positions `l..=r` of `a`, grouped to the right. */
  function Fold<T>(op: (T, T) -> T, a: seq<T>, l: nat, r: nat): T
    requires l <= r < |a|
    decreases r - l
  {
    if l == r then a[l] else op(a[l], Fold(op, a, l + 1, r))
  }

  /** Under an associative `op`, folding `l..=r` combines the folds of `l..=m` and
      `m+1..=r`. */
  lemma {:induction false} FoldSplit<T(!new)>(op: (T, T) -> T, a: seq<T>, l: nat, m: nat, r: nat)
    requires Associative(op) && l <= m < r < |a|
    ensures Fold(op, a, l, r) == op(Fold(op, a, l, m), Fold(op, a, m + 1, r))
    decreases m - l
  {
    if l < m {
      FoldSplit(op, a, l + 1, m, r);
    }
  }

  /** The ranges fit together: a leaf covers one index, an inner node covers its left
      child's range followed directly by its right child's. */
  ghost predicate Shaped<T>(t: SegTree<T>)
  {
    match t
    case Leaf(n) => n.lo == n.hi
    case NotLeaf(l, n, r) =>
      && Shaped(l) && Shaped(r)
      && l.Lo() == n.lo && r.Hi() == n.hi && l.Hi() + 1 == r.Lo()
  }

  /** `t` is a segment tree of `a` under `op`: shaped, every leaf holds the array
      value at its index, and every inner node holds `op` of its children's values. */
  ghost predicate Summarises<T>(t: SegTree<T>, op: (T, T) -> T, a: seq<T>)
  {
    match t
    case Leaf(n) => n.lo == n.hi < |a| && n.value == a[n.lo]
    case NotLeaf(l, n, r) =>
      && Summarises(l, op, a) && Summarises(r, op, a)
      && l.Lo() == n.lo && r.Hi() == n.hi && l.Hi() + 1 == r.Lo()
      && n.value == op(l.Value(), r.Value())
  }

  lemma SummarisesShaped<T>(t: SegTree<T>, op: (T, T) -> T, a: seq<T>)
    requires Summarises(t, op, a)
    ensures Shaped(t) && t.Lo() <= t.Hi() < |a|
  {
  }

  /** The midpoint `lo + (hi - lo) / 2` at which `new` splits a range. */
  function Mid(lo: nat, hi: nat): (m: nat)
    requires lo < hi
    ensures lo <= m < hi
  {
    lo + (hi - lo) / 2
  }

  /** `SegTree::new(array, lo, hi)`: a segment tree of `a` covering exactly
      `[lo, hi]`. */
  function Build<T>(op: (T, T) -> T, a: seq<T>, lo: nat, hi: nat): (t: SegTree<T>)
    requires lo <= hi < |a|
    ensures t.Lo() == lo && t.Hi() == hi && Summarises(t, op, a)
    decreases hi - lo
  {
    if lo == hi then Leaf(Node(a[lo], lo, hi))
    else
      var mid := Mid(lo, hi);
      var l := Build(op, a, lo, mid);
      var r := Build(op, a, mid + 1, hi);
      NotLeaf(l, Node(op(l.Value(), r.Value()), lo, hi), r)
  }

  /** Under an associative `op`, every node of a segment tree holds `op` folded over
      the values of its range. */
  lemma {:induction false} SummaryValue<T(!new)>(t: SegTree<T>, op: (T, T) -> T, a: seq<T>)
    requires Associative(op) && Summarises(t, op, a)
    ensures t.Lo() <= t.Hi() < |a| && t.Value() == Fold(op, a, t.Lo(), t.Hi())
  {
    match t
    case Leaf(n) =>
    case NotLeaf(l, n, r) =>
      SummaryValue(l, op, a);
      SummaryValue(r, op, a);
      FoldSplit(op, a, n.lo, l.Hi(), n.hi);
  }

  /** On a segment tree and an associative `op`, `query(l, r)` is `op` folded over
      positions `l..=r`. */
  lemma {:induction false} QuerySummary<T(!new)>(t: SegTree<T>, op: (T, T) -> T, a: seq<T>, l: nat, r: nat)
    requires Associative(op) && Summarises(t, op, a) && t.Lo() <= l <= r <= t.Hi() < |a|
    ensures Shaped(t) && t.Query(op, l, r) == Fold(op, a, l, r)
  {
    SummarisesShaped(t, op, a);
    match t
    case Leaf(n) =>
    case NotLeaf(lc, n, rc) =>
      SummarisesShaped(lc, op, a);
      SummarisesShaped(rc, op, a);
      if n.lo == l && n.hi == r {
        SummaryValue(t, op, a);
      } else if lc.Hi() < l {
        QuerySummary(rc, op, a, l, r);
      } else if rc.Lo() > r {
        QuerySummary(lc, op, a, l, r);
      } else {
        QuerySummary(lc, op, a, l, lc.Hi());
        QuerySummary(rc, op, a, rc.Lo(), r);
        FoldSplit(op, a, l, lc.Hi(), r);
      }
  }

  /** Changing a position outside a node's range keeps it a segment tree. */
  lemma {:induction false} SummaryFrame<T>(t: SegTree<T>, op: (T, T) -> T, a: seq<T>, i: nat, x: T)
    requires Summarises(t, op, a) && i < |a| && (i < t.Lo() || t.Hi() < i)
    ensures Summarises(t, op, a[i := x])
  {
    match t
    case Leaf(n) =>
    case NotLeaf(l, n, r) =>
      SummarisesShaped(l, op, a);
      SummarisesShaped(r, op, a);
      SummaryFrame(l, op, a, i, x);
      SummaryFrame(r, op, a, i, x);
  }

  /** Replacing position `i` inside the range of a segment tree of `a` gives a
      segment tree of `a` with position `i` replaced, over the same range: later
      queries see `x` at `i` and the old values everywhere else. */
  lemma {:induction false} ReplaceSummary<T>(t: SegTree<T>, op: (T, T) -> T, a: seq<T>, i: nat, x: T)
    requires Summarises(t, op, a) && t.Lo() <= i <= t.Hi() < |a|
    ensures Summarises(t.Replace(op, i, x), op, a[i := x])
  {
    match t
    case Leaf(n) =>
    case NotLeaf(lc, n, rc) =>
      SummarisesShaped(lc, op, a);
      SummarisesShaped(rc, op, a);
      if lc.Hi() < i {
        ReplaceSummary(rc, op, a, i, x);
        SummaryFrame(lc, op, a, i, x);
      } else {
        ReplaceSummary(lc, op, a, i, x);
        SummaryFrame(rc, op, a, i, x);
      }
  }

  /** `SegmentTree`: the root over positions `0..=len-1` of the array it was built
      from; `contents` is that array as changed by later replacements. */
  class SegmentTree<T(!new)> {
    const op: (T, T) -> T
    var root: SegTree<T>
    ghost var contents: seq<T>

    ghost predicate Valid()
      reads this
    {
      Summarises(root, op, contents) && root.Lo() == 0 && root.Hi() == |contents| - 1
    }

    /** `SegmentTree::new`. */
    constructor (op: (T, T) -> T, a: seq<T>)
      requires |a| > 0
      ensures Valid() && contents == a && this.op == op
    {
      this.op := op;
      root := Build(op, a, 0, |a| - 1);
      contents := a;
    }

    /** `SegmentTree::query`: `None` where the source's assertions fail (`l > r`, or
        an end outside the root's range); otherwise, for an associative `op`, `op`
        folded over positions `l..=r`. */
    function Query(l: nat, r: nat): (v: Option<T>)
      reads this
      requires Valid()
      ensures v.Some? <==> l <= r < |contents|
      ensures v.Some? && Associative(op) ==> v.value == Fold(op, contents, l, r)
    {
      if l <= r && l >= root.Lo() && r <= root.Hi() then
        SummarisesShaped(root, op, contents);
        QueryMeaning(root, op, contents, l, r);
        Some(root.Query(op, l, r))
      else None
    }

    /** `SegmentTree::replace`: position `i` now holds `x`. */
    method Replace(i: nat, x: T)
      modifies this
      requires Valid() && i < |contents|
      ensures contents == old(contents)[i := x] && Valid()
    {
      ReplaceSummary(root, op, contents, i, x);
      root := root.Replace(op, i, x);
      contents := contents[i := x];
    }
  }

  /** `QuerySummary` where `op` is associative. */
  lemma QueryMeaning<T(!new)>(t: SegTree<T>, op: (T, T) -> T, a: seq<T>, l: nat, r: nat)
    requires Summarises(t, op, a) && t.Lo() <= l <= r <= t.Hi() < |a|
    ensures Shaped(t) && (Associative(op) ==> t.Query(op, l, r) == Fold(op, a, l, r))
  {
    SummarisesShaped(t, op, a);
    if Associative(op) {
      QuerySummary(t, op, a, l, r);
    }
  }

  /** The `ValueOp` of the tests: addition. */
  function Plus(x: int, y: int): int { x + y }

  lemma PlusAssociative()
    ensures Associative(Plus)
  {
  }

  /** The sums the scenarios below need. */
  lemma Sums()
    ensures var a := [1, 2, 3, 4, 5, 6, 7, 8];
      && Fold(Plus, a, 0, 7) == 36 && Fold(Plus, a, 2, 5) == 18 && Fold(Plus, a, 1, 1) == 2
      && Fold(Plus, a, 0, 4) == 15 && Fold(Plus, a[2 := 10], 0, 4) == 22 && Fold(Plus, a[2 := 10][0 := 5], 0, 0) == 5
  {
  }

  /** The sum queries of `test_query` on `[1, 2, 3, 4, 5, 6, 7, 8]`. */
  method QueryScenario() returns (s07: Option<int>, s25: Option<int>, s11: Option<int>)
    ensures s07 == Some(36) && s25 == Some(18) && s11 == Some(2)
  {
    PlusAssociative();
    Sums();
    var a := [1, 2, 3, 4, 5, 6, 7, 8];
    var t := new SegmentTree(Plus, a);
    s07 := t.Query(0, 7);
    s25 := t.Query(2, 5);
    s11 := t.Query(1, 1);
  }

  /** `test_replace`: the sum over `0..=4` before and after replacing position 2 by
      10, and position 0 after replacing it by 5. */
  method ReplaceScenario() returns (before: Option<int>, after: Option<int>, first: Option<int>)
    ensures before == Some(15) && after == Some(22) && first == Some(5)
  {
    PlusAssociative();
    Sums();
    var a := [1, 2, 3, 4, 5, 6, 7, 8];
    var t := new SegmentTree(Plus, a);
    before := t.Query(0, 4);
    t.Replace(2, 10);
    after := t.Query(0, 4);
    t.Replace(0, 5);
    first := t.Query(0, 0);
  }
}

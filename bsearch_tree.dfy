/**
 * bsearch_tree: an immutable binary search tree of integers with a distinct leaf
 * form. Smaller values go left, equal and larger values go right. `minimum` and
 * `maximum` stop with `None` at an empty child instead of at the node above it.
 */
module BSearchTree {
  import opened Wrappers
  import opened Seqs

  datatype BSearchTree = Empty | Leaf(v: int) | Node(left: BSearchTree, v: int, right: BSearchTree)
  {
    /** Every value stored in the tree, with multiplicity. */
    ghost function Elements(): multiset<int>
    {
      match this
      case Empty => multiset{}
      case Leaf(x) => multiset{x}
      case Node(l, x, r) => l.Elements() + multiset{x} + r.Elements()
    }

    /** Every value of the left subtree is below the node's value, every value of
        the right subtree at least it, in every node. */
    ghost predicate Ordered()
    {
      match this
      case Empty => true
      case Leaf(_) => true
      case Node(l, x, r) =>
        && l.Ordered() && r.Ordered()
        && (forall y | y in l.Elements() :: y < x)
        && (forall y | y in r.Elements() :: x <= y)
    }

    /** The in-order traversal of the tests. */
    function InOrder(): seq<int>
    {
      match this
      case Empty => []
      case Leaf(x) => [x]
      case Node(l, x, r) => l.InOrder() + [x] + r.InOrder()
    }

    function Count(): (n: nat)
      ensures n == |Elements()|
    {
      match this
      case Empty => 0
      case Leaf(_) => 1
      case Node(l, _, r) => 1 + l.Count() + r.Count()
    }

    function Value(): (r: Option<int>)
      ensures r.None? <==> this.Empty?
    {
      match this
      case Empty => None
      case Leaf(x) => Some(x)
      case Node(_, x, _) => Some(x)
    }

    function Height(): nat
    {
      match this
      case Empty => 0
      case Leaf(_) => 1
      case Node(l, _, r) => 1 + if l.Height() >= r.Height() then l.Height() else r.Height()
    }

    /** `insert`: the tree with one more occurrence of `x`, placed where it keeps the
        tree ordered. */
    function Insert(x: int): (r: BSearchTree)
      ensures r.Elements() == Elements() + multiset{x}
      ensures r.Count() == Count() + 1
      ensures r != Empty
    {
      match this
      case Empty => Leaf(x)
      case Leaf(y) => if x < y then Node(Leaf(x), y, Empty) else Node(Empty, y, Leaf(x))
      case Node(l, y, r) => if x < y then Node(l.Insert(x), y, r) else Node(l, y, r.Insert(x))
    }

    /** `search`: the subtree whose root value is `x`, if the search path meets one. */
    function Search(x: int): (r: Option<BSearchTree>)
      ensures r.Some? ==> r.value.Value() == Some(x) && x in Elements()
    {
      match this
      case Empty => None
      case Leaf(y) => if x == y then Some(this) else None
      case Node(l, y, r) => if x == y then Some(this) else if x < y then l.Search(x) else r.Search(x)
    }

    function Contains(x: int): bool
    {
      Search(x).Some?
    }

    /** `minimum` as written: follows left children; an empty left child gives
        `None`. */
    function Minimum(): (r: Option<BSearchTree>)
      ensures r.Some? ==> r.value.Leaf? && r.value.v in Elements()
    {
      match this
      case Empty => None
      case Leaf(_) => Some(this)
      case Node(l, _, _) => l.Minimum()
    }

    /** `maximum` as written: follows right children; an empty right child gives
        `None`. */
    function Maximum(): (r: Option<BSearchTree>)
      ensures r.Some? ==> r.value.Leaf? && r.value.v in Elements()
    {
      match this
      case Empty => None
      case Leaf(_) => Some(this)
      case Node(_, _, r) => r.Maximum()
    }

    /** `minimum` stopping at a node whose left child is empty. */
    function MinimumNode(): (r: Option<BSearchTree>)
      ensures r.Some? <==> !this.Empty?
      ensures r.Some? ==> !r.value.Empty? && r.value.v in Elements()
    {
      match this
      case Empty => None
      case Leaf(_) => Some(this)
      case Node(l, _, _) => if l.Empty? then Some(this) else l.MinimumNode()
    }

    /** `maximum` stopping at a node whose right child is empty. */
    function MaximumNode(): (r: Option<BSearchTree>)
      ensures r.Some? <==> !this.Empty?
      ensures r.Some? ==> !r.value.Empty? && r.value.v in Elements()
    {
      match this
      case Empty => None
      case Leaf(_) => Some(this)
      case Node(_, _, r) => if r.Empty? then Some(this) else r.MaximumNode()
    }
  }

  /** `insert` keeps the tree ordered (duplicates go right). */
  lemma {:induction false} InsertOrdered(t: BSearchTree, x: int)
    requires t.Ordered()
    ensures t.Insert(x).Ordered()
    decreases t, 1
  {
    if t.Leaf? {
      if x < t.v { NodeOrdered(Leaf(x), t.v, Empty); } else { NodeOrdered(Empty, t.v, Leaf(x)); }
    } else if t.Node? {
      if x < t.v { InsertLeftOrdered(t, x); } else { InsertRightOrdered(t, x); }
    }
  }

  lemma InsertLeftOrdered(t: BSearchTree, x: int)
    requires t.Node? && t.Ordered() && x < t.v
    ensures t.Insert(x).Ordered()
    decreases t, 0
  {
    InsertOrdered(t.left, x);
    var l' := t.left.Insert(x);
    forall z | z in l'.Elements() ensures z < t.v {
      assert z in t.left.Elements() || z == x;
    }
    NodeOrdered(l', t.v, t.right);
  }

  lemma InsertRightOrdered(t: BSearchTree, x: int)
    requires t.Node? && t.Ordered() && t.v <= x
    ensures t.Insert(x).Ordered()
    decreases t, 0
  {
    InsertOrdered(t.right, x);
    var r' := t.right.Insert(x);
    forall z | z in r'.Elements() ensures t.v <= z {
      assert z in t.right.Elements() || z == x;
    }
    NodeOrdered(t.left, t.v, r');
  }

  /** What `Ordered` asks of a node, as a rule to apply. */
  lemma NodeOrdered(l: BSearchTree, y: int, r: BSearchTree)
    requires l.Ordered() && r.Ordered()
    requires forall z | z in l.Elements() :: z < y
    requires forall z | z in r.Elements() :: y <= z
    ensures Node(l, y, r).Ordered()
  {
  }

  /** Two sorted sequences around a pivot, all of the first below it and all of the
      second at least it, join into a sorted sequence. */
  lemma SortedJoin(a: seq<int>, y: int, b: seq<int>)
    requires Sorted(a) && Sorted(b)
    requires forall i | 0 <= i < |a| :: a[i] < y
    requires forall i | 0 <= i < |b| :: y <= b[i]
    ensures Sorted(a + [y] + b)
  {
    var s := a + [y] + b;
    forall i, j | 0 <= i < j < |s| ensures s[i] <= s[j] {
      if j < |a| {
      } else if i < |a| {
        assert s[i] == a[i];
      } else if i > |a| {
        assert s[i] == b[i - |a| - 1] && s[j] == b[j - |a| - 1];
      } else {
        assert s[j] == b[j - |a| - 1];
      }
    }
  }

  /** The in-order traversal lists the elements, and lists them sorted when the tree
      is ordered. */
  lemma {:induction false} InOrderSorted(t: BSearchTree)
    requires t.Ordered()
    ensures multiset(t.InOrder()) == t.Elements() && Sorted(t.InOrder())
  {
    match t
    case Empty =>
    case Leaf(y) =>
    case Node(l, y, r) =>
      InOrderSorted(l);
      InOrderSorted(r);
      var a, b := l.InOrder(), r.InOrder();
      assert forall i | 0 <= i < |a| :: a[i] in l.Elements() by {
        forall i | 0 <= i < |a| ensures a[i] in l.Elements() { assert a[i] in multiset(a); }
      }
      assert forall i | 0 <= i < |b| :: b[i] in r.Elements() by {
        forall i | 0 <= i < |b| ensures b[i] in r.Elements() { assert b[i] in multiset(b); }
      }
      SortedJoin(a, y, b);
      assert t.InOrder() == a + [y] + b;
  }

  /** On an ordered tree `search(x)` finds a subtree exactly when `x` is stored, and
      `contains` agrees. */
  lemma {:induction false} SearchFinds(t: BSearchTree, x: int)
    requires t.Ordered()
    ensures t.Search(x).Some? <==> x in t.Elements()
    ensures t.Contains(x) <==> x in t.Elements()
  {
    match t
    case Empty =>
    case Leaf(y) =>
    case Node(l, y, r) =>
      if x < y { SearchFinds(l, x); } else if x > y { SearchFinds(r, x); }
  }

  /** The height of a tree of `n` values is between 1 (for `n > 0`) and `n`. */
  lemma {:induction false} HeightBounds(t: BSearchTree)
    ensures t.Height() <= t.Count()
    ensures t.Count() > 0 ==> t.Height() >= 1
  {
    match t
    case Empty =>
    case Leaf(_) =>
    case Node(l, _, r) => HeightBounds(l); HeightBounds(r);
  }

  /** Inserting 5 and then 7 into the empty tree gives a root whose left child is
      empty; `minimum` of it is `None` although the tree holds 5 and 7, while the
      corrected `minimum` finds the root. */
  lemma MinimumMisses()
    ensures var t := Empty.Insert(5).Insert(7);
      t == Node(Empty, 5, Leaf(7)) && t.Minimum() == None && t.Elements() == multiset{5, 7}
      && t.MinimumNode() == Some(t)
  {
  }

  /** The mirror image: inserting 7 and then 5 leaves an empty right child. */
  lemma MaximumMisses()
    ensures var t := Empty.Insert(7).Insert(5);
      t == Node(Leaf(5), 7, Empty) && t.Maximum() == None && t.Elements() == multiset{5, 7}
      && t.MaximumNode() == Some(t)
  {
  }

  /** On an ordered tree the corrected `minimum` holds a least stored value. */
  lemma {:induction false} MinimumNodeLeast(t: BSearchTree)
    requires t.Ordered() && !t.Empty?
    ensures forall y | y in t.Elements() :: t.MinimumNode().value.v <= y
  {
    match t
    case Leaf(_) =>
    case Node(l, x, r) =>
      if !l.Empty? {
        MinimumNodeLeast(l);
        var m := l.MinimumNode().value.v;
        assert m in l.Elements();
      }
  }

  /** On an ordered tree the corrected `maximum` holds a greatest stored value. */
  lemma {:induction false} MaximumNodeGreatest(t: BSearchTree)
    requires t.Ordered() && !t.Empty?
    ensures forall y | y in t.Elements() :: y <= t.MaximumNode().value.v
  {
    match t
    case Leaf(_) =>
    case Node(l, x, r) =>
      if !r.Empty? {
        MaximumNodeGreatest(r);
        var m := r.MaximumNode().value.v;
        assert m in r.Elements();
      } else {
        assert forall y | y in l.Elements() :: y < x;
      }
  }

  /** When `minimum` as written does return a leaf on an ordered tree, that leaf
      holds a least value. */
  lemma {:induction false} MinimumSound(t: BSearchTree)
    requires t.Ordered() && t.Minimum().Some?
    ensures forall y | y in t.Elements() :: t.Minimum().value.v <= y
  {
    match t
    case Leaf(_) =>
    case Node(l, x, r) =>
      MinimumSound(l);
  }

  /** Inserting 5, 4, 6, 11, 13, 9 and 14 into a leaf of 8 builds the tree of the
      tests. */
  lemma TestTreeBuilt()
    ensures Leaf(8).Insert(5).Insert(4).Insert(6).Insert(11).Insert(13).Insert(9).Insert(14)
      == Node(Node(Leaf(4), 5, Leaf(6)), 8, Node(Leaf(9), 11, Node(Empty, 13, Leaf(14))))
  {
    var t := Leaf(8).Insert(5).Insert(4).Insert(6);
    assert t == Node(Node(Leaf(4), 5, Leaf(6)), 8, Empty);
    assert t.Insert(11).Insert(13) == Node(Node(Leaf(4), 5, Leaf(6)), 8, Node(Empty, 11, Leaf(13)));
  }

  /** The size and height the tests expect of that tree. */
  lemma TestTreeMeasures()
    ensures var t := Node(Node(Leaf(4), 5, Leaf(6)), 8, Node(Leaf(9), 11, Node(Empty, 13, Leaf(14))));
      t.Count() == 8 && t.Height() == 4
  {
  }

  /** The extremes the tests expect of that tree. */
  lemma TestTreeExtremes()
    ensures var t := Node(Node(Leaf(4), 5, Leaf(6)), 8, Node(Leaf(9), 11, Node(Empty, 13, Leaf(14))));
      t.Minimum() == Some(Leaf(4)) && t.Maximum() == Some(Leaf(14))
  {
  }

  /** The in-order listing the tests expect of that tree. */
  lemma TestTreeInOrder()
    ensures Node(Node(Leaf(4), 5, Leaf(6)), 8, Node(Leaf(9), 11, Node(Empty, 13, Leaf(14)))).InOrder() == [4, 5, 6, 8, 9, 11, 13, 14]
  {
  }

  /** The searches the tests run on that tree. */
  lemma TestTreeSearches()
    ensures var t := Node(Node(Leaf(4), 5, Leaf(6)), 8, Node(Leaf(9), 11, Node(Empty, 13, Leaf(14))));
      && t.Search(11).Some? && t.Search(11).value.Value() == Some(11)
      && t.Search(12).None? && t.Contains(13) && !t.Contains(15)
  {
  }
}

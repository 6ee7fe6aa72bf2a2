/**
 * The abstract picture shared by the three linked trees (idtree, arena_tree and
 * rctree). Every node carries five optional links (parent, first and last child,
 * previous and next sibling). A picture is well formed when those links agree with
 * one ordered list of children per node, and when a rank that strictly decreases
 * from every parent to each of its children exists (so parent links never cycle).
 *
 * The three trees differ in how they store nodes (a vector of records, arena
 * references, reference-counted cells), but each of them is read here as a
 * `Picture`: a map from node identity to its links.
 */
module TreeShape {
  import opened Wrappers

  datatype Links<Id> = Links(parent: Option<Id>, firstChild: Option<Id>, lastChild: Option<Id>,
                             prevSibling: Option<Id>, nextSibling: Option<Id>)

  /** The links of a freshly created node. */
  function NoLinks<Id>(): Links<Id> { Links(None, None, None, None, None) }

  type Picture<Id> = map<Id, Links<Id>>

  /** Ghost description of a well-formed picture: the children of every node in
      order, a rank that decreases from parent to child, and a bound on the ranks. */
  datatype Shape<Id> = Shape(kids: map<Id, seq<Id>>, rank: map<Id, nat>, bound: nat)

  function First<Id>(s: seq<Id>): Option<Id> { if s == [] then None else Some(s[0]) }
  function Last<Id>(s: seq<Id>): Option<Id> { if s == [] then None else Some(s[|s| - 1]) }
  function Before<Id>(s: seq<Id>, i: nat): Option<Id> requires i < |s| { if i == 0 then None else Some(s[i - 1]) }
  function After<Id>(s: seq<Id>, i: nat): Option<Id> requires i < |s| { if i == |s| - 1 then None else Some(s[i + 1]) }

  predicate NoDup<T(==)>(s: seq<T>) { forall i, j | 0 <= i < j < |s| :: s[i] != s[j] }

  /** The links of `p` and of every element of `cs` spell out the list `cs` of children of `p`. */
  ghost predicate ListLinked<Id>(m: Picture<Id>, p: Id, cs: seq<Id>)
    requires p in m
  {
    && NoDup(cs)
    && m[p].firstChild == First(cs)
    && m[p].lastChild == Last(cs)
    && (forall i | 0 <= i < |cs| :: cs[i] in m && m[cs[i]].parent == Some(p))
    && (forall i {:trigger m[cs[i]]} | 0 <= i < |cs| ::
          m[cs[i]].prevSibling == Before(cs, i) && m[cs[i]].nextSibling == After(cs, i))
  }

  /** Every link of the picture agrees with the children lists `kids`. */
  ghost predicate Linked<Id>(m: Picture<Id>, kids: map<Id, seq<Id>>)
  {
    && kids.Keys == m.Keys
    && (forall p {:trigger ListLinked(m, p, kids[p])} | p in m :: ListLinked(m, p, kids[p]))
    && (forall c {:trigger m[c]} | c in m && m[c].parent.Some? :: m[c].parent.value in m && c in kids[m[c].parent.value])
    && (forall c {:trigger m[c]} | c in m && m[c].parent.None? :: m[c].prevSibling.None? && m[c].nextSibling.None?)
  }

  /** The rank decreases from every node to each of its children. */
  ghost predicate Ranked<Id>(sh: Shape<Id>)
  {
    && sh.rank.Keys == sh.kids.Keys
    && (forall p, c | p in sh.kids && c in sh.kids[p] :: c in sh.rank && sh.rank[c] < sh.rank[p])
    && (forall x | x in sh.rank :: sh.rank[x] < sh.bound)
  }

  ghost predicate Valid<Id>(m: Picture<Id>, sh: Shape<Id>)
  {
    Linked(m, sh.kids) && Ranked(sh)
  }

  /** A node that is nobody's child and has no siblings (its own children may remain). */
  ghost predicate Free<Id>(m: Picture<Id>, n: Id)
  {
    n in m && m[n].parent.None? && m[n].prevSibling.None? && m[n].nextSibling.None?
  }

  // ---------------------------------------------------------------------------
  // Basic facts about well-formed pictures

  lemma ChildFacts<Id>(m: Picture<Id>, sh: Shape<Id>, p: Id, i: nat)
    requires Valid(m, sh) && p in m && i < |sh.kids[p]|
    ensures sh.kids[p][i] in m && m[sh.kids[p][i]].parent == Some(p)
    ensures m[sh.kids[p][i]].prevSibling == Before(sh.kids[p], i)
    ensures m[sh.kids[p][i]].nextSibling == After(sh.kids[p], i)
    ensures sh.rank[sh.kids[p][i]] < sh.rank[p]
  {
    assert ListLinked(m, p, sh.kids[p]);
    assert sh.kids[p][i] in sh.kids[p];
  }

  /** A node with a parent sits at some position of that parent's children list. */
  lemma ParentFacts<Id>(m: Picture<Id>, sh: Shape<Id>, c: Id) returns (i: nat)
    requires Linked(m, sh.kids) && c in m && m[c].parent.Some?
    ensures m[c].parent.value in m && i < |sh.kids[m[c].parent.value]|
    ensures sh.kids[m[c].parent.value][i] == c
  {
    var p := m[c].parent.value;
    assert c in sh.kids[p];
    i :| 0 <= i < |sh.kids[p]| && sh.kids[p][i] == c;
  }

  /** A child's position in its parent's list is unique. */
  lemma IndexUnique<Id>(m: Picture<Id>, sh: Shape<Id>, p: Id, i: nat, j: nat)
    requires Linked(m, sh.kids) && p in m && i < |sh.kids[p]| && j < |sh.kids[p]|
    requires sh.kids[p][i] == sh.kids[p][j]
    ensures i == j
  {
    assert ListLinked(m, p, sh.kids[p]);
  }

  /** A node with no parent appears in no children list. */
  lemma RootInNoList<Id>(m: Picture<Id>, sh: Shape<Id>, n: Id, q: Id)
    requires Linked(m, sh.kids) && n in m && m[n].parent.None? && q in m
    ensures n !in sh.kids[q]
  {
    assert ListLinked(m, q, sh.kids[q]);
    forall i | 0 <= i < |sh.kids[q]| ensures sh.kids[q][i] != n {
      assert m[sh.kids[q][i]].parent == Some(q);
    }
  }

  // ---------------------------------------------------------------------------
  // Pre-order and the nested Start/End edges of a subtree

  datatype Edge<Id> = Start(node: Id) | End(node: Id)

  /** The nodes of the subtree of `x`, `x` first, each child's subtree in order. */
  ghost function PreOrder<Id>(sh: Shape<Id>, x: Id): seq<Id>
    requires Ranked(sh) && x in sh.kids
    decreases sh.rank[x], 1
  {
    [x] + ChildPreOrder(sh, x, 0)
  }

  ghost function ChildPreOrder<Id>(sh: Shape<Id>, p: Id, i: nat): seq<Id>
    requires Ranked(sh) && p in sh.kids && i <= |sh.kids[p]|
    decreases sh.rank[p], 0, |sh.kids[p]| - i
  {
    if i == |sh.kids[p]| then []
    else
      assert sh.kids[p][i] in sh.kids[p];
      PreOrder(sh, sh.kids[p][i]) + ChildPreOrder(sh, p, i + 1)
  }

  /** The bracketed walk around the subtree of `x`: Start(x), the walks of its
      children in order, End(x). */
  ghost function Edges<Id>(sh: Shape<Id>, x: Id): seq<Edge<Id>>
    requires Ranked(sh) && x in sh.kids
    decreases sh.rank[x], 1
  {
    [Start(x)] + ChildEdges(sh, x, 0) + [End(x)]
  }

  ghost function ChildEdges<Id>(sh: Shape<Id>, p: Id, i: nat): seq<Edge<Id>>
    requires Ranked(sh) && p in sh.kids && i <= |sh.kids[p]|
    decreases sh.rank[p], 0, |sh.kids[p]| - i
  {
    if i == |sh.kids[p]| then []
    else
      assert sh.kids[p][i] in sh.kids[p];
      Edges(sh, sh.kids[p][i]) + ChildEdges(sh, p, i + 1)
  }

  /** The nodes of the Start edges, in order. */
  function Starts<Id>(es: seq<Edge<Id>>): seq<Id>
  {
    if es == [] then []
    else (if es[0].Start? then [es[0].node] else []) + Starts(es[1..])
  }

  lemma {:induction false} StartsAppend<Id>(a: seq<Edge<Id>>, b: seq<Edge<Id>>)
    ensures Starts(a + b) == Starts(a) + Starts(b)
  {
    if a != [] {
      assert (a + b)[0] == a[0];
      assert (a + b)[1..] == a[1..] + b;
      StartsAppend(a[1..], b);
    } else {
      assert a + b == b;
    }
  }

  /** Keeping only the Start edges of the bracketed walk gives the pre-order. */
  lemma {:induction false} StartsOfEdges<Id>(sh: Shape<Id>, x: Id)
    requires Ranked(sh) && x in sh.kids
    ensures Starts(Edges(sh, x)) == PreOrder(sh, x)
    decreases sh.rank[x], 1
  {
    StartsAppend([Start(x)] + ChildEdges(sh, x, 0), [End(x)]);
    StartsAppend([Start(x)], ChildEdges(sh, x, 0));
    StartsOfChildEdges(sh, x, 0);
    assert Starts([End(x)]) == [];
    assert Starts([Start(x)]) == [x];
  }

  lemma {:induction false} StartsOfChildEdges<Id>(sh: Shape<Id>, p: Id, i: nat)
    requires Ranked(sh) && p in sh.kids && i <= |sh.kids[p]|
    ensures Starts(ChildEdges(sh, p, i)) == ChildPreOrder(sh, p, i)
    decreases sh.rank[p], 0, |sh.kids[p]| - i
  {
    if i < |sh.kids[p]| {
      assert sh.kids[p][i] in sh.kids[p];
      StartsAppend(Edges(sh, sh.kids[p][i]), ChildEdges(sh, p, i + 1));
      StartsOfEdges(sh, sh.kids[p][i]);
      StartsOfChildEdges(sh, p, i + 1);
    }
  }

  /** Every node of a subtree is in the picture and ranks no higher than the subtree's root. */
  lemma {:induction false} PreOrderRank<Id>(sh: Shape<Id>, x: Id, y: Id)
    requires Ranked(sh) && x in sh.kids && y in PreOrder(sh, x)
    ensures y in sh.kids && sh.rank[y] <= sh.rank[x]
    decreases sh.rank[x], 1
  {
    if y != x {
      assert y in ChildPreOrder(sh, x, 0);
      ChildPreOrderRank(sh, x, 0, y);
    }
  }

  lemma {:induction false} ChildPreOrderRank<Id>(sh: Shape<Id>, p: Id, i: nat, y: Id)
    requires Ranked(sh) && p in sh.kids && i <= |sh.kids[p]| && y in ChildPreOrder(sh, p, i)
    ensures y in sh.kids && sh.rank[y] < sh.rank[p]
    decreases sh.rank[p], 0, |sh.kids[p]| - i
  {
    assert i < |sh.kids[p]|;
    var c := sh.kids[p][i];
    assert c in sh.kids[p];
    if y in PreOrder(sh, c) {
      PreOrderRank(sh, c, y);
    } else {
      ChildPreOrderRank(sh, p, i + 1, y);
    }
  }

  /** The subtree of the `j`-th child is contained in the pre-order of the children from `i` on. */
  lemma {:induction false} ChildPreOrderContains<Id>(sh: Shape<Id>, p: Id, i: nat, j: nat, y: Id)
    requires Ranked(sh) && p in sh.kids && i <= j < |sh.kids[p]|
    requires sh.kids[p][j] in sh.kids && y in PreOrder(sh, sh.kids[p][j])
    ensures y in ChildPreOrder(sh, p, i)
    decreases j - i
  {
    if i < j {
      ChildPreOrderContains(sh, p, i + 1, j, y);
    }
  }

  // ---------------------------------------------------------------------------
  // The traversal state machine: `Traverse::next` of all three trees

  /** One step of the depth-first traversal rooted at `root`, given the edge just
      emitted: into the first child, across to the next sibling, or up to the parent;
      `None` once the End edge of the root itself has been emitted. */
  function TraverseNext<Id(==)>(m: Picture<Id>, root: Id, e: Edge<Id>): Option<Edge<Id>>
  {
    match e
    case Start(x) =>
      if x in m && m[x].firstChild.Some? then Some(Start(m[x].firstChild.value)) else Some(End(x))
    case End(x) =>
      if x == root then None
      else if x in m && m[x].nextSibling.Some? then Some(Start(m[x].nextSibling.value))
      else if x in m && m[x].parent.Some? then Some(End(m[x].parent.value))
      else None
  }

  /** The first `k` edges emitted from state `st`, and the state reached after them. */
  ghost function Run<Id>(m: Picture<Id>, root: Id, st: Option<Edge<Id>>, k: nat): (seq<Edge<Id>>, Option<Edge<Id>>)
    decreases k
  {
    if k == 0 || st.None? then ([], st)
    else
      var r := Run(m, root, TraverseNext(m, root, st.value), k - 1);
      ([st.value] + r.0, r.1)
  }

  lemma {:induction false} RunSplit<Id>(m: Picture<Id>, root: Id, st: Option<Edge<Id>>, a: nat, b: nat)
    ensures Run(m, root, st, a + b).0 == Run(m, root, st, a).0 + Run(m, root, Run(m, root, st, a).1, b).0
    ensures Run(m, root, st, a + b).1 == Run(m, root, Run(m, root, st, a).1, b).1
    decreases a
  {
    if a != 0 && st.Some? {
      RunSplit(m, root, TraverseNext(m, root, st.value), a - 1, b);
      assert a + b - 1 == (a - 1) + b;
    }
  }

  /** Starting at Start(x), where `root` lies nowhere strictly below `x`, the
      machine emits exactly the bracketed walk of `x` and then takes the step
      that follows End(x). */
  lemma {:induction false} RunSubtree<Id>(m: Picture<Id>, sh: Shape<Id>, root: Id, x: Id)
    requires Valid(m, sh) && x in m
    requires root !in ChildPreOrder(sh, x, 0)
    ensures Run(m, root, Some(Start(x)), |Edges(sh, x)|) == (Edges(sh, x), TraverseNext(m, root, End(x)))
    decreases sh.rank[x], 1
  {
    FirstChildState(m, sh, root, x);
    RunChildren(m, sh, root, x, 0);
    RunIntoChildren(m, sh, root, x);
  }

  lemma FirstChildState<Id>(m: Picture<Id>, sh: Shape<Id>, root: Id, x: Id)
    requires Linked(m, sh.kids) && x in m
    ensures TraverseNext(m, root, Start(x)) == Some(StateAt(sh, x, 0))
  {
    assert ListLinked(m, x, sh.kids[x]);
  }

  /** Start(x) followed by the walk of the children of `x`. */
  lemma RunIntoChildren<Id>(m: Picture<Id>, sh: Shape<Id>, root: Id, x: Id)
    requires Ranked(sh) && x in sh.kids
    requires TraverseNext(m, root, Start(x)) == Some(StateAt(sh, x, 0))
    requires Run(m, root, Some(StateAt(sh, x, 0)), |ChildEdges(sh, x, 0)| + 1)
          == (ChildEdges(sh, x, 0) + [End(x)], TraverseNext(m, root, End(x)))
    ensures Run(m, root, Some(Start(x)), |Edges(sh, x)|) == (Edges(sh, x), TraverseNext(m, root, End(x)))
  {
    var n := |ChildEdges(sh, x, 0)| + 1;
    assert |Edges(sh, x)| == n + 1;
    RunStep(m, root, Start(x), n);
    assert Edges(sh, x) == [Start(x)] + (ChildEdges(sh, x, 0) + [End(x)]);
  }

  ghost function StateAt<Id>(sh: Shape<Id>, x: Id, i: nat): Edge<Id>
    requires x in sh.kids
  {
    if i < |sh.kids[x]| then Start(sh.kids[x][i]) else End(x)
  }

  lemma {:induction false} RunChildren<Id>(m: Picture<Id>, sh: Shape<Id>, root: Id, x: Id, i: nat)
    requires Valid(m, sh) && x in m && i <= |sh.kids[x]|
    requires root !in ChildPreOrder(sh, x, i)
    ensures Run(m, root, Some(StateAt(sh, x, i)), |ChildEdges(sh, x, i)| + 1)
         == (ChildEdges(sh, x, i) + [End(x)], TraverseNext(m, root, End(x)))
    decreases sh.rank[x], 0, |sh.kids[x]| - i
  {
    if i < |sh.kids[x]| {
      var c := sh.kids[x][i];
      ChildFacts(m, sh, x, i);
      assert ChildPreOrder(sh, x, i) == PreOrder(sh, c) + ChildPreOrder(sh, x, i + 1);
      NotBelowChildren(sh, root, c);
      RunSubtree(m, sh, root, c);
      StepAfterChild(m, sh, root, x, i);
      RunChildren(m, sh, root, x, i + 1);
      RunNextChild(m, sh, root, x, i);
    } else {
      RunNoMoreChildren(m, sh, root, x, i);
    }
  }

  /** If `root` is not in the subtree of `c`, it is neither `c` nor below one of `c`'s children. */
  lemma NotBelowChildren<Id>(sh: Shape<Id>, root: Id, c: Id)
    requires Ranked(sh) && c in sh.kids && root !in PreOrder(sh, c)
    ensures c != root && root !in ChildPreOrder(sh, c, 0)
  {
    assert PreOrder(sh, c) == [c] + ChildPreOrder(sh, c, 0);
  }

  /** After End of the `i`-th child (which is not the root) comes the next child's Start, or End of the parent. */
  lemma StepAfterChild<Id>(m: Picture<Id>, sh: Shape<Id>, root: Id, x: Id, i: nat)
    requires Linked(m, sh.kids) && x in m && i < |sh.kids[x]| && sh.kids[x][i] != root
    ensures TraverseNext(m, root, End(sh.kids[x][i])) == Some(StateAt(sh, x, i + 1))
  {
    assert ListLinked(m, x, sh.kids[x]);
    assert m[sh.kids[x][i]].parent == Some(x);
    assert m[sh.kids[x][i]].nextSibling == After(sh.kids[x], i);
  }

  /** Gluing the walk of the `i`-th child to the walk of the children after it. */
  lemma RunNextChild<Id>(m: Picture<Id>, sh: Shape<Id>, root: Id, x: Id, i: nat)
    requires Ranked(sh) && x in sh.kids && i < |sh.kids[x]|
    requires sh.kids[x][i] in sh.kids
    requires Run(m, root, Some(Start(sh.kids[x][i])), |Edges(sh, sh.kids[x][i])|)
          == (Edges(sh, sh.kids[x][i]), TraverseNext(m, root, End(sh.kids[x][i])))
    requires TraverseNext(m, root, End(sh.kids[x][i])) == Some(StateAt(sh, x, i + 1))
    requires Run(m, root, Some(StateAt(sh, x, i + 1)), |ChildEdges(sh, x, i + 1)| + 1)
          == (ChildEdges(sh, x, i + 1) + [End(x)], TraverseNext(m, root, End(x)))
    ensures Run(m, root, Some(StateAt(sh, x, i)), |ChildEdges(sh, x, i)| + 1)
         == (ChildEdges(sh, x, i) + [End(x)], TraverseNext(m, root, End(x)))
  {
    var c := sh.kids[x][i];
    var e1, e2 := Edges(sh, c), ChildEdges(sh, x, i + 1);
    RunSplit(m, root, Some(Start(c)), |e1|, |e2| + 1);
    assert ChildEdges(sh, x, i) == e1 + e2;
    assert (e1 + e2) + [End(x)] == e1 + (e2 + [End(x)]);
    assert StateAt(sh, x, i) == Start(c);
  }

  lemma RunNoMoreChildren<Id>(m: Picture<Id>, sh: Shape<Id>, root: Id, x: Id, i: nat)
    requires Ranked(sh) && x in sh.kids && i == |sh.kids[x]|
    ensures Run(m, root, Some(StateAt(sh, x, i)), |ChildEdges(sh, x, i)| + 1)
         == (ChildEdges(sh, x, i) + [End(x)], TraverseNext(m, root, End(x)))
  {
    var e := StateAt(sh, x, i);
    assert e == End(x);
    RunLast(m, root, e);
    assert ChildEdges(sh, x, i) == [];
    assert |ChildEdges(sh, x, i)| + 1 == 1;
    assert ChildEdges(sh, x, i) + [e] == [e];
  }

  lemma RunLast<Id>(m: Picture<Id>, root: Id, e: Edge<Id>)
    ensures Run(m, root, Some(e), 1) == ([e], TraverseNext(m, root, e))
  {
    RunStep(m, root, e, 0);
    var st := TraverseNext(m, root, e);
    assert Run(m, root, st, 0) == ([], st);
    assert [e] + [] == [e];
  }

  /** One step of the machine. */
  lemma RunStep<Id>(m: Picture<Id>, root: Id, e: Edge<Id>, k: nat)
    ensures Run(m, root, Some(e), k + 1)
         == ([e] + Run(m, root, TraverseNext(m, root, e), k).0, Run(m, root, TraverseNext(m, root, e), k).1)
  {
  }

  /** `Traverse::next` run from Start(root) emits the bracketed walk of the root's
      subtree, edge by edge, and then stops. */
  lemma TraverseIsEdges<Id>(m: Picture<Id>, sh: Shape<Id>, root: Id)
    requires Valid(m, sh) && root in m
    ensures Run(m, root, Some(Start(root)), |Edges(sh, root)|) == (Edges(sh, root), None)
  {
    if root in ChildPreOrder(sh, root, 0) {
      ChildPreOrderRank(sh, root, 0, root);
    }
    RunSubtree(m, sh, root, root);
  }

  // ---------------------------------------------------------------------------
  // Progress of a traversal, as seen from the iterator's state

  /** The nodes of the picture are those of the shape, and the machine started at
      Start(root) emits the bracketed walk of `root` and stops: what every
      well-formed picture guarantees (`ValidWalkable`), and all that the progress
      lemmas below rely on. */
  ghost predicate Walkable<Id>(m: Picture<Id>, sh: Shape<Id>, root: Id)
  {
    && Ranked(sh) && m.Keys == sh.kids.Keys && root in m
    && Run(m, root, Some(Start(root)), |Edges(sh, root)|) == (Edges(sh, root), None)
  }

  lemma ValidWalkable<Id>(m: Picture<Id>, sh: Shape<Id>, root: Id)
    requires Valid(m, sh) && root in m
    ensures Walkable(m, sh, root)
  {
    TraverseIsEdges(m, sh, root);
  }

  /** From state `st`, `k` steps into the walk, the machine emits the rest of the
      bracketed walk and then stops. */
  ghost predicate Remaining<Id>(m: Picture<Id>, sh: Shape<Id>, root: Id, st: Option<Edge<Id>>, k: nat)
    requires Ranked(sh) && root in sh.kids
  {
    k <= |Edges(sh, root)| && Run(m, root, st, |Edges(sh, root)| - k) == (Edges(sh, root)[k..], None)
  }

  /** After `k` steps from Start(root) the iterator's state is the `k`-th edge of the
      walk, or `None` once all of it has been emitted. */
  ghost predicate Progress<Id>(m: Picture<Id>, sh: Shape<Id>, root: Id, st: Option<Edge<Id>>, k: nat)
    requires Ranked(sh) && root in sh.kids
  {
    k <= |Edges(sh, root)| && st == (if k < |Edges(sh, root)| then Some(Edges(sh, root)[k]) else None)
  }

  /** The number of nodes `descendants` has produced once `k` edges have been emitted. */
  ghost function Emitted<Id>(sh: Shape<Id>, root: Id, k: nat): nat
    requires Ranked(sh) && root in sh.kids && k <= |Edges(sh, root)|
  {
    |Starts(Edges(sh, root)[..k])|
  }

  /** The walk around `x` opens with Start(x), closes with End(x), and every edge
      of it belongs to a node of the subtree of `x`. */
  lemma EdgesShape<Id>(sh: Shape<Id>, x: Id)
    requires Ranked(sh) && x in sh.kids
    ensures |Edges(sh, x)| >= 2 && Edges(sh, x)[0] == Start(x) && Edges(sh, x)[|Edges(sh, x)| - 1] == End(x)
    ensures forall e | e in Edges(sh, x) :: e.node in PreOrder(sh, x)
  {
    forall e | e in Edges(sh, x) ensures e.node in PreOrder(sh, x) { EdgesNodes(sh, x, e); }
  }

  /** Every edge of the walk around `x` belongs to a node of the subtree of `x`. */
  lemma {:induction false} EdgesNodes<Id>(sh: Shape<Id>, x: Id, e: Edge<Id>)
    requires Ranked(sh) && x in sh.kids && e in Edges(sh, x)
    ensures e.node in PreOrder(sh, x)
    decreases sh.rank[x], 1
  {
    if e != Start(x) && e != End(x) {
      assert e in ChildEdges(sh, x, 0);
      ChildEdgesNodes(sh, x, 0, e);
    }
  }

  lemma {:induction false} ChildEdgesNodes<Id>(sh: Shape<Id>, p: Id, i: nat, e: Edge<Id>)
    requires Ranked(sh) && p in sh.kids && i <= |sh.kids[p]| && e in ChildEdges(sh, p, i)
    ensures e.node in ChildPreOrder(sh, p, i)
    decreases sh.rank[p], 0, |sh.kids[p]| - i
  {
    var c := sh.kids[p][i];
    assert c in sh.kids[p];
    if e in Edges(sh, c) {
      EdgesNodes(sh, c, e);
    } else {
      ChildEdgesNodes(sh, p, i + 1, e);
    }
  }

  lemma ProgressStart<Id>(m: Picture<Id>, sh: Shape<Id>, root: Id)
    requires Ranked(sh) && root in sh.kids
    ensures Progress(m, sh, root, Some(Start(root)), 0) && Emitted(sh, root, 0) == 0
  {
    assert Edges(sh, root)[..0] == [];
  }

  /** One step of the iterator: the edge it emits is the next edge of the walk, it
      belongs to a node of the root's subtree, and a Start edge is the next node of
      the pre-order. */
  lemma ProgressStep<Id>(m: Picture<Id>, sh: Shape<Id>, root: Id, e: Edge<Id>, k: nat)
    requires Walkable(m, sh, root) && Progress(m, sh, root, Some(e), k)
    ensures k < |Edges(sh, root)| && Edges(sh, root)[k] == e
    ensures e.node in PreOrder(sh, root) && e.node in m
    ensures Progress(m, sh, root, TraverseNext(m, root, e), k + 1)
    ensures Emitted(sh, root, k + 1) == Emitted(sh, root, k) + (if e.Start? then 1 else 0)
    ensures e.Start? ==> Emitted(sh, root, k) < |PreOrder(sh, root)| && PreOrder(sh, root)[Emitted(sh, root, k)] == e.node
  {
    EdgeSuccessor(m, sh, root, k);
    EdgesNodes(sh, root, e);
    PreOrderRank(sh, root, e.node);
    EmittedStep(sh, root, k);
  }

  /** The machine steps from each edge of the walk to the next one, and stops after
      the last. */
  lemma EdgeSuccessor<Id>(m: Picture<Id>, sh: Shape<Id>, root: Id, k: nat)
    requires Walkable(m, sh, root) && k < |Edges(sh, root)|
    ensures TraverseNext(m, root, Edges(sh, root)[k])
         == if k + 1 < |Edges(sh, root)| then Some(Edges(sh, root)[k + 1]) else None
  {
    EdgeAt(m, sh, root, k);
    ProgressAdvance(m, sh, root, Edges(sh, root)[k], k);
    RemainingState(m, sh, root, TraverseNext(m, root, Edges(sh, root)[k]), k + 1);
  }

  /** The `k`-th edge of the walk is a state from which the rest of it is emitted. */
  lemma {:induction false} EdgeAt<Id>(m: Picture<Id>, sh: Shape<Id>, root: Id, k: nat)
    requires Walkable(m, sh, root) && k < |Edges(sh, root)|
    ensures Remaining(m, sh, root, Some(Edges(sh, root)[k]), k)
  {
    if k == 0 {
      assert Edges(sh, root)[0..] == Edges(sh, root);
    } else {
      EdgeAt(m, sh, root, k - 1);
      ProgressAdvance(m, sh, root, Edges(sh, root)[k - 1], k - 1);
      RemainingState(m, sh, root, TraverseNext(m, root, Edges(sh, root)[k - 1]), k);
    }
  }

  /** The state from which exactly the rest of the walk is emitted is its next edge. */
  lemma RemainingState<Id>(m: Picture<Id>, sh: Shape<Id>, root: Id, st: Option<Edge<Id>>, k: nat)
    requires Ranked(sh) && root in sh.kids && Remaining(m, sh, root, st, k)
    ensures st == if k < |Edges(sh, root)| then Some(Edges(sh, root)[k]) else None
  {
    var c := |Edges(sh, root)| - k;
    if c > 0 && st.Some? {
      RunStep(m, root, st.value, c - 1);
    }
  }

  lemma ProgressAdvance<Id>(m: Picture<Id>, sh: Shape<Id>, root: Id, e: Edge<Id>, k: nat)
    requires Ranked(sh) && root in sh.kids && Remaining(m, sh, root, Some(e), k)
    ensures k < |Edges(sh, root)| && Edges(sh, root)[k] == e
    ensures Remaining(m, sh, root, TraverseNext(m, root, e), k + 1)
  {
    var es := Edges(sh, root);
    var c := |es| - k;
    RunStep(m, root, e, c - 1);
    var r := Run(m, root, TraverseNext(m, root, e), c - 1);
    ConsSuffix(e, r.0, es, k);
  }

  /** A suffix that starts with `x` is `x` followed by the next suffix. */
  lemma ConsSuffix<T>(x: T, a: seq<T>, s: seq<T>, k: nat)
    requires k <= |s| && [x] + a == s[k..]
    ensures k < |s| && s[k] == x && a == s[k + 1..]
  {
    assert s[k..][0] == x;
    assert s[k..][1..] == s[k + 1..];
  }

  lemma PrefixSnoc<T>(s: seq<T>, k: nat)
    requires k < |s|
    ensures s[..k + 1] == s[..k] + [s[k]]
  {
  }

  lemma SuffixCons<T>(s: seq<T>, k: nat)
    requires k < |s|
    ensures s[k..] == [s[k]] + s[k + 1..]
  {
    assert s[k..][1..] == s[k + 1..];
  }

  /** The count of Start edges grows by the kind of the `k`-th edge, and a Start edge
      there names the next node of the pre-order. */
  lemma EmittedStep<Id>(sh: Shape<Id>, root: Id, k: nat)
    requires Ranked(sh) && root in sh.kids && k < |Edges(sh, root)|
    ensures var e := Edges(sh, root)[k];
      Emitted(sh, root, k + 1) == Emitted(sh, root, k) + (if e.Start? then 1 else 0)
    ensures var e := Edges(sh, root)[k];
      e.Start? ==> Emitted(sh, root, k) < |PreOrder(sh, root)| && PreOrder(sh, root)[Emitted(sh, root, k)] == e.node
  {
    var es := Edges(sh, root);
    var e := es[k];
    assert es[..k + 1] == es[..k] + [e];
    StartsAppend(es[..k], [e]);
    assert Starts([e]) == (if e.Start? then [e.node] else []) by {
      assert [e][1..] == [];
    }
    assert es == es[..k] + es[k..];
    SuffixCons(es, k);
    StartsAppend(es[..k], es[k..]);
    StartsAppend([e], es[k + 1..]);
    StartsOfEdges(sh, root);
  }

  /** Once the iterator has stopped, the whole walk has been emitted. */
  lemma ProgressEnd<Id>(m: Picture<Id>, sh: Shape<Id>, root: Id, k: nat)
    requires Ranked(sh) && root in sh.kids && Progress(m, sh, root, None, k)
    ensures k == |Edges(sh, root)| && Emitted(sh, root, k) == |PreOrder(sh, root)|
  {
    var es := Edges(sh, root);
    assert es[..k] == es;
    StartsOfEdges(sh, root);
  }
}

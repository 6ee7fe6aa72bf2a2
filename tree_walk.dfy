/**
 * The relationship walks shared by the three linked trees: ancestors, preceding
 * and following siblings, children and reverse children all start at a node and
 * follow one link (parent, previous sibling or next sibling) until it is absent.
 * On a well-formed picture each walk ends, and this module says what it visits.
 */
module TreeWalk {
  import opened Wrappers
  import opened TreeShape
  import opened TreeEdit
  import opened Seqs

  /** The link a walk follows. */
  datatype Link = ParentLink | PrevLink | NextLink

  function Follow<Id>(l: Links<Id>, k: Link): Option<Id>
  {
    match k
    case ParentLink => l.parent
    case PrevLink => l.prevSibling
    case NextLink => l.nextSibling
  }

  /** The position of a child in its parent's list (0 for a node without parent). */
  ghost function Position<Id>(m: Picture<Id>, sh: Shape<Id>, y: Id): nat
    requires Linked(m, sh.kids) && y in m
  {
    if m[y].parent.None? then 0
    else
      var p := m[y].parent.value;
      assert y in sh.kids[p];
      IndexOf(sh.kids[p], y)
  }

  /** What every step of a walk decreases. */
  ghost function WalkMeasure<Id>(m: Picture<Id>, sh: Shape<Id>, k: Link, y: Id): nat
    requires Valid(m, sh) && y in m
  {
    match k
    case ParentLink => sh.bound - sh.rank[y]
    case NextLink => if m[y].parent.None? then 0 else |sh.kids[m[y].parent.value]| - Position(m, sh, y)
    case PrevLink => if m[y].parent.None? then 0 else Position(m, sh, y) + 1
  }

  /** A node with a parent, its position there, and its siblings. */
  lemma SiblingFacts<Id>(m: Picture<Id>, sh: Shape<Id>, y: Id) returns (p: Id, i: nat)
    requires Valid(m, sh) && y in m && m[y].parent.Some?
    ensures p == m[y].parent.value && p in m && i == Position(m, sh, y)
    ensures i < |sh.kids[p]| && sh.kids[p][i] == y
    ensures m[y].prevSibling == Before(sh.kids[p], i) && m[y].nextSibling == After(sh.kids[p], i)
    ensures i > 0 ==> sh.kids[p][i - 1] in m && m[sh.kids[p][i - 1]].parent == Some(p)
    ensures i < |sh.kids[p]| - 1 ==> sh.kids[p][i + 1] in m && m[sh.kids[p][i + 1]].parent == Some(p)
    ensures i > 0 ==> Position(m, sh, sh.kids[p][i - 1]) == i - 1
    ensures i < |sh.kids[p]| - 1 ==> Position(m, sh, sh.kids[p][i + 1]) == i + 1
  {
    p := m[y].parent.value;
    i := Position(m, sh, y);
    ChildFacts(m, sh, p, i);
    assert ListLinked(m, p, sh.kids[p]);
    if i > 0 {
      ChildFacts(m, sh, p, i - 1);
      var j := Position(m, sh, sh.kids[p][i - 1]);
      IndexUnique(m, sh, p, j, i - 1);
    }
    if i < |sh.kids[p]| - 1 {
      ChildFacts(m, sh, p, i + 1);
      var j := Position(m, sh, sh.kids[p][i + 1]);
      IndexUnique(m, sh, p, j, i + 1);
    }
  }

  lemma FollowDecreases<Id>(m: Picture<Id>, sh: Shape<Id>, k: Link, y: Id)
    requires Valid(m, sh) && y in m && Follow(m[y], k).Some?
    ensures Follow(m[y], k).value in m
    ensures WalkMeasure(m, sh, k, Follow(m[y], k).value) < WalkMeasure(m, sh, k, y)
  {
    if m[y].parent.Some? {
      var p, i := SiblingFacts(m, sh, y);
      assert y in sh.kids[p];
    }
  }

  /** The nodes visited from `y`, `y` included, following link `k` until it is absent. */
  ghost function Walk<Id>(m: Picture<Id>, sh: Shape<Id>, k: Link, y: Id): seq<Id>
    requires Valid(m, sh) && y in m
    decreases WalkMeasure(m, sh, k, y)
  {
    match Follow(m[y], k)
    case None => [y]
    case Some(z) => FollowDecreases(m, sh, k, y); [y] + Walk(m, sh, k, z)
  }

  /** A walk from an optional start: the children iterators start at the first
      (last) child, which may be absent. */
  ghost function WalkFrom<Id>(m: Picture<Id>, sh: Shape<Id>, k: Link, start: Option<Id>): seq<Id>
    requires Valid(m, sh) && (start.Some? ==> start.value in m)
  {
    if start.None? then [] else Walk(m, sh, k, start.value)
  }

  /** One step of a walk: the current node, then the walk from where its link leads. */
  lemma WalkFromStep<Id>(m: Picture<Id>, sh: Shape<Id>, k: Link, y: Id)
    requires Valid(m, sh) && y in m
    ensures Follow(m[y], k).Some? ==> Follow(m[y], k).value in m
    ensures WalkFrom(m, sh, k, Some(y)) == [y] + WalkFrom(m, sh, k, Follow(m[y], k))
  {
    if Follow(m[y], k).Some? { FollowDecreases(m, sh, k, y); }
  }

  /** The step of `WalkFromStep` seen from a loop that has collected `out` so far. */
  lemma WalkFromAppend<Id>(m: Picture<Id>, sh: Shape<Id>, k: Link, y: Id, out: seq<Id>)
    requires Valid(m, sh) && y in m
    ensures Follow(m[y], k).Some? ==> Follow(m[y], k).value in m
    ensures out + [y] + WalkFrom(m, sh, k, Follow(m[y], k)) == out + WalkFrom(m, sh, k, Some(y))
  {
    WalkFromStep(m, sh, k, y);
  }

  // ---------------------------------------------------------------------------
  // Sibling walks

  lemma {:induction false} WalkForward<Id>(m: Picture<Id>, sh: Shape<Id>, p: Id, i: nat)
    requires Valid(m, sh) && p in m && i < |sh.kids[p]|
    ensures sh.kids[p][i] in m && Walk(m, sh, NextLink, sh.kids[p][i]) == sh.kids[p][i..]
    decreases |sh.kids[p]| - i
  {
    var cs := sh.kids[p];
    ChildFacts(m, sh, p, i);
    WalkStep(m, sh, NextLink, cs[i]);
    if i < |cs| - 1 {
      WalkForward(m, sh, p, i + 1);
      SuffixCons(cs, i);
    }
  }

  lemma {:induction false} WalkBackward<Id>(m: Picture<Id>, sh: Shape<Id>, p: Id, i: nat)
    requires Valid(m, sh) && p in m && i < |sh.kids[p]|
    ensures sh.kids[p][i] in m && Walk(m, sh, PrevLink, sh.kids[p][i]) == Reverse(sh.kids[p][..i + 1])
    decreases i
  {
    var cs := sh.kids[p];
    ChildFacts(m, sh, p, i);
    WalkStep(m, sh, PrevLink, cs[i]);
    ReversePrefix(cs, i);
    if i > 0 {
      WalkBackward(m, sh, p, i - 1);
    }
  }

  /** One step of a walk from a node. */
  lemma WalkStep<Id>(m: Picture<Id>, sh: Shape<Id>, k: Link, y: Id)
    requires Valid(m, sh) && y in m
    ensures Follow(m[y], k).Some? ==> Follow(m[y], k).value in m
    ensures Walk(m, sh, k, y) == if Follow(m[y], k).None? then [y] else [y] + Walk(m, sh, k, Follow(m[y], k).value)
  {
    if Follow(m[y], k).Some? { FollowDecreases(m, sh, k, y); }
  }

  /** `following_siblings(y)` is `y` and the siblings after it; `y` alone for a node without parent. */
  lemma FollowingSiblings<Id>(m: Picture<Id>, sh: Shape<Id>, y: Id)
    requires Valid(m, sh) && y in m
    ensures m[y].parent.None? ==> Walk(m, sh, NextLink, y) == [y]
    ensures m[y].parent.Some? ==>
      var cs := sh.kids[m[y].parent.value];
      Position(m, sh, y) < |cs| && Walk(m, sh, NextLink, y) == cs[Position(m, sh, y)..]
  {
    if m[y].parent.Some? {
      var p, i := SiblingFacts(m, sh, y);
      WalkForward(m, sh, p, i);
    }
  }

  /** `preceding_siblings(y)` is `y` and the siblings before it, nearest first. */
  lemma PrecedingSiblings<Id>(m: Picture<Id>, sh: Shape<Id>, y: Id)
    requires Valid(m, sh) && y in m
    ensures m[y].parent.None? ==> Walk(m, sh, PrevLink, y) == [y]
    ensures m[y].parent.Some? ==>
      var cs := sh.kids[m[y].parent.value];
      Position(m, sh, y) < |cs| && Walk(m, sh, PrevLink, y) == Reverse(cs[..Position(m, sh, y) + 1])
  {
    if m[y].parent.Some? {
      var p, i := SiblingFacts(m, sh, y);
      WalkBackward(m, sh, p, i);
    }
  }

  /** `children(p)` lists the children of `p` in order, and `reverse_children(p)` the
      same nodes backwards. */
  lemma Children<Id>(m: Picture<Id>, sh: Shape<Id>, p: Id)
    requires Valid(m, sh) && p in m
    ensures m[p].firstChild.Some? ==> m[p].firstChild.value in m
    ensures m[p].lastChild.Some? ==> m[p].lastChild.value in m
    ensures WalkFrom(m, sh, NextLink, m[p].firstChild) == sh.kids[p]
    ensures WalkFrom(m, sh, PrevLink, m[p].lastChild) == Reverse(sh.kids[p])
  {
    var cs := sh.kids[p];
    assert ListLinked(m, p, cs);
    if cs != [] {
      WalkForward(m, sh, p, 0);
      WalkBackward(m, sh, p, |cs| - 1);
      assert cs[0..] == cs && cs[..|cs| - 1 + 1] == cs;
    }
  }

  // ---------------------------------------------------------------------------
  // Ancestors

  /** Which child's subtree of `p`, from position `i` on, holds `y`. */
  lemma {:induction false} ChildPreOrderSplit<Id>(sh: Shape<Id>, p: Id, i: nat, y: Id) returns (j: nat)
    requires Ranked(sh) && p in sh.kids && i <= |sh.kids[p]| && y in ChildPreOrder(sh, p, i)
    ensures i <= j < |sh.kids[p]| && sh.kids[p][j] in sh.kids && y in PreOrder(sh, sh.kids[p][j])
    decreases |sh.kids[p]| - i
  {
    assert i < |sh.kids[p]|;
    var c := sh.kids[p][i];
    assert c in sh.kids[p];
    if y in PreOrder(sh, c) {
      j := i;
    } else {
      j := ChildPreOrderSplit(sh, p, i + 1, y);
    }
  }

  /** A subtree holds the children of each of its nodes. */
  lemma {:induction false} PreOrderHoldsChild<Id>(sh: Shape<Id>, a: Id, p: Id, y: Id)
    requires Ranked(sh) && a in sh.kids && p in PreOrder(sh, a) && p in sh.kids && y in sh.kids[p] && y in sh.kids
    ensures y in PreOrder(sh, a)
    decreases sh.rank[a]
  {
    if p == a {
      PreOrderHasSelf(sh, y);
      PreOrderOfChild(sh, a, y, y);
    } else {
      assert p in ChildPreOrder(sh, a, 0);
      var j := ChildPreOrderSplit(sh, a, 0, p);
      var c := sh.kids[a][j];
      assert c in sh.kids[a];
      PreOrderHoldsChild(sh, c, p, y);
      PreOrderOfChild(sh, a, c, y);
    }
  }

  /** Every node a walk visits from `z` is visited from `y`, once `z` is. */
  lemma {:induction false} WalkClosed<Id>(m: Picture<Id>, sh: Shape<Id>, k: Link, y: Id, z: Id, w: Id)
    requires Valid(m, sh) && y in m && z in Walk(m, sh, k, y)
    ensures z in m
    ensures w in Walk(m, sh, k, z) ==> w in Walk(m, sh, k, y)
    decreases WalkMeasure(m, sh, k, y)
  {
    if z != y {
      var x := Follow(m[y], k).value;
      FollowDecreases(m, sh, k, y);
      WalkClosed(m, sh, k, x, z, w);
    }
  }

  /** Every node of `ancestors(y)` has `y` in its subtree. */
  lemma {:induction false} AncestorAbove<Id>(m: Picture<Id>, sh: Shape<Id>, y: Id, a: Id)
    requires Valid(m, sh) && y in m && a in Walk(m, sh, ParentLink, y)
    ensures a in m && y in PreOrder(sh, a)
    decreases WalkMeasure(m, sh, ParentLink, y)
  {
    if a == y {
      PreOrderHasSelf(sh, y);
    } else {
      var p := m[y].parent.value;
      FollowDecreases(m, sh, ParentLink, y);
      AncestorAbove(m, sh, p, a);
      var i := ParentFacts(m, sh, y);
      assert y in sh.kids[p];
      PreOrderHoldsChild(sh, a, p, y);
    }
  }

  /** Every node whose subtree holds `y` is among `ancestors(y)`. */
  lemma {:induction false} AboveAncestor<Id>(m: Picture<Id>, sh: Shape<Id>, y: Id, a: Id)
    requires Valid(m, sh) && y in m && a in m && y in PreOrder(sh, a)
    ensures a in Walk(m, sh, ParentLink, y)
    decreases sh.rank[a]
  {
    if y != a {
      assert y in ChildPreOrder(sh, a, 0);
      var j := ChildPreOrderSplit(sh, a, 0, y);
      var c := sh.kids[a][j];
      ChildFacts(m, sh, a, j);
      AboveAncestor(m, sh, y, c);
      assert a in Walk(m, sh, ParentLink, c);
      WalkClosed(m, sh, ParentLink, y, c, a);
    }
  }

  /** `ancestors(y)` are exactly the nodes whose subtree holds `y`. */
  lemma Ancestors<Id>(m: Picture<Id>, sh: Shape<Id>, y: Id, a: Id)
    requires Valid(m, sh) && y in m && a in m
    ensures a in Walk(m, sh, ParentLink, y) <==> y in PreOrder(sh, a)
  {
    if a in Walk(m, sh, ParentLink, y) { AncestorAbove(m, sh, y, a); }
    if y in PreOrder(sh, a) { AboveAncestor(m, sh, y, a); }
  }

  // ---------------------------------------------------------------------------
  // Each node occurs once in a pre-order

  /** Consecutive nodes of a walk are joined by the followed link, and the last one has none. */
  lemma {:induction false} WalkSteps<Id>(m: Picture<Id>, sh: Shape<Id>, k: Link, y: Id, s: nat)
    requires Valid(m, sh) && y in m && s < |Walk(m, sh, k, y)|
    ensures Walk(m, sh, k, y)[s] in m
    ensures s + 1 < |Walk(m, sh, k, y)| ==> Follow(m[Walk(m, sh, k, y)[s]], k) == Some(Walk(m, sh, k, y)[s + 1])
    ensures s + 1 == |Walk(m, sh, k, y)| ==> Follow(m[Walk(m, sh, k, y)[s]], k).None?
    decreases WalkMeasure(m, sh, k, y)
  {
    if s > 0 {
      var z := Follow(m[y], k).value;
      FollowDecreases(m, sh, k, y);
      WalkSteps(m, sh, k, z, s - 1);
    } else if Follow(m[y], k).Some? {
      var z := Follow(m[y], k).value;
      FollowDecreases(m, sh, k, y);
      assert Walk(m, sh, k, z)[0] == z;
    }
  }

  /** Ranks strictly increase along `ancestors(y)`. */
  lemma {:induction false} AncestorRanks<Id>(m: Picture<Id>, sh: Shape<Id>, y: Id, s: nat, t: nat)
    requires Valid(m, sh) && y in m && s < t < |Walk(m, sh, ParentLink, y)|
    ensures Walk(m, sh, ParentLink, y)[s] in sh.kids && Walk(m, sh, ParentLink, y)[t] in sh.kids
    ensures sh.rank[Walk(m, sh, ParentLink, y)[s]] < sh.rank[Walk(m, sh, ParentLink, y)[t]]
    decreases WalkMeasure(m, sh, ParentLink, y)
  {
    var w := Walk(m, sh, ParentLink, y);
    var p := m[y].parent.value;
    WalkStep(m, sh, ParentLink, y);
    var w' := Walk(m, sh, ParentLink, p);
    assert w[t] == w'[t - 1];
    if s == 0 {
      assert w[t] in w';
      AncestorAbove(m, sh, p, w[t]);
      PreOrderRank(sh, w[t], p);
      var i := ParentFacts(m, sh, y);
      ChildFacts(m, sh, p, i);
    } else {
      assert w[s] == w'[s - 1];
      AncestorRanks(m, sh, p, s - 1, t - 1);
    }
  }

  /** Past the node with parent `a`, a walk up reaches `a` and then only nodes ranked
      at least as high, so no other child of `a` follows. */
  lemma WalkPassesParent<Id>(m: Picture<Id>, sh: Shape<Id>, y: Id, s: nat, t: nat, a: Id)
    requires Valid(m, sh) && y in m && s < t < |Walk(m, sh, ParentLink, y)|
    requires Walk(m, sh, ParentLink, y)[s] in m && m[Walk(m, sh, ParentLink, y)[s]].parent == Some(a)
    requires a in sh.rank && Walk(m, sh, ParentLink, y)[t] in sh.rank
    ensures sh.rank[a] <= sh.rank[Walk(m, sh, ParentLink, y)[t]]
  {
    WalkSteps(m, sh, ParentLink, y, s);
    if s + 1 < t { AncestorRanks(m, sh, y, s + 1, t); }
  }

  /** Two different children of a node have disjoint subtrees. */
  lemma SubtreesDisjoint<Id>(m: Picture<Id>, sh: Shape<Id>, a: Id, i: nat, j: nat, y: Id)
    requires Valid(m, sh) && a in m && i < j < |sh.kids[a]|
    requires sh.kids[a][i] in sh.kids && sh.kids[a][j] in sh.kids
    ensures !(y in PreOrder(sh, sh.kids[a][i]) && y in PreOrder(sh, sh.kids[a][j]))
  {
    var ci, cj := sh.kids[a][i], sh.kids[a][j];
    if y in PreOrder(sh, ci) && y in PreOrder(sh, cj) {
      ChildFacts(m, sh, a, i);
      ChildFacts(m, sh, a, j);
      assert ci != cj by { assert ListLinked(m, a, sh.kids[a]); }
      PreOrderRank(sh, ci, y);
      AboveAncestor(m, sh, y, ci);
      AboveAncestor(m, sh, y, cj);
      var s := IndexOf(Walk(m, sh, ParentLink, y), ci);
      var t := IndexOf(Walk(m, sh, ParentLink, y), cj);
      if s < t {
        WalkPassesParent(m, sh, y, s, t, a);
      } else {
        WalkPassesParent(m, sh, y, t, s, a);
      }
    }
  }

  lemma NoDupConcat<T>(a: seq<T>, b: seq<T>)
    requires NoDup(a) && NoDup(b) && forall y | y in a :: y !in b
    ensures NoDup(a + b)
  {
    forall s, t | 0 <= s < t < |a + b| ensures (a + b)[s] != (a + b)[t] {
      if s < |a| && t >= |a| { assert (a + b)[s] in a && (a + b)[t] in b; }
    }
  }

  /** `descendants` visits every node of the subtree once. */
  lemma {:induction false} PreOrderNoDup<Id>(m: Picture<Id>, sh: Shape<Id>, x: Id)
    requires Valid(m, sh) && x in m
    ensures NoDup(PreOrder(sh, x))
    decreases sh.rank[x], 1
  {
    ChildPreOrderNoDup(m, sh, x, 0);
    forall y | y in ChildPreOrder(sh, x, 0) ensures y != x {
      ChildPreOrderRank(sh, x, 0, y);
    }
    NoDupConcat([x], ChildPreOrder(sh, x, 0));
  }

  lemma {:induction false} ChildPreOrderNoDup<Id>(m: Picture<Id>, sh: Shape<Id>, p: Id, i: nat)
    requires Valid(m, sh) && p in m && i <= |sh.kids[p]|
    ensures NoDup(ChildPreOrder(sh, p, i))
    decreases sh.rank[p], 0, |sh.kids[p]| - i
  {
    if i < |sh.kids[p]| {
      var c := sh.kids[p][i];
      ChildFacts(m, sh, p, i);
      PreOrderNoDup(m, sh, c);
      ChildPreOrderNoDup(m, sh, p, i + 1);
      forall y | y in PreOrder(sh, c) ensures y !in ChildPreOrder(sh, p, i + 1) {
        if y in ChildPreOrder(sh, p, i + 1) {
          var j := ChildPreOrderSplit(sh, p, i + 1, y);
          SubtreesDisjoint(m, sh, p, i, j, y);
        }
      }
      NoDupConcat(PreOrder(sh, c), ChildPreOrder(sh, p, i + 1));
    }
  }

  // ---------------------------------------------------------------------------
  // Searching a sequence of nodes

  /** The first node of `s` whose data is `v` (a node without data never matches). */
  function FirstMatch<Id, T(==)>(s: seq<Id>, data: map<Id, T>, v: T): Option<Id>
  {
    if s == [] then None
    else if s[0] in data && data[s[0]] == v then Some(s[0])
    else FirstMatch(s[1..], data, v)
  }

  /** What `FirstMatch` finds is a node of `s` with data `v` and no node before it
      has data `v`; when it finds nothing, no node of `s` has data `v`. */
  lemma {:induction false} FirstMatchSpec<Id, T>(s: seq<Id>, data: map<Id, T>, v: T)
    ensures var r := FirstMatch(s, data, v);
      && (r.Some? ==> r.value in s && r.value in data && data[r.value] == v)
      && (r.Some? ==> forall i | 0 <= i < IndexOf(s, r.value) :: s[i] !in data || data[s[i]] != v)
      && (r.None? ==> forall i | 0 <= i < |s| :: s[i] !in data || data[s[i]] != v)
  {
    if s != [] && !(s[0] in data && data[s[0]] == v) {
      FirstMatchSpec(s[1..], data, v);
      assert forall i | 1 <= i < |s| :: s[i] == s[1..][i - 1];
      var r := FirstMatch(s[1..], data, v);
      if r.Some? {
        assert s[0] != r.value;
      }
    }
  }

  /** Searching from position `c` on: a match at `c` is found, otherwise the search
      goes on from `c + 1`. */
  lemma FirstMatchFrom<Id, T>(s: seq<Id>, data: map<Id, T>, v: T, c: nat)
    requires c < |s|
    ensures FirstMatch(s[c..], data, v)
         == if s[c] in data && data[s[c]] == v then Some(s[c]) else FirstMatch(s[c + 1..], data, v)
  {
    assert s[c..][0] == s[c];
    assert s[c..][1..] == s[c + 1..];
  }

  /** A left-to-right search has found nothing before position `c`. */
  ghost predicate Searched<Id, T>(s: seq<Id>, data: map<Id, T>, v: T, c: nat)
  {
    c <= |s| && FirstMatch(s[c..], data, v) == FirstMatch(s, data, v)
  }

  /** One step of a left-to-right search that has found nothing before `c`. */
  lemma FirstMatchStep<Id, T>(s: seq<Id>, data: map<Id, T>, v: T, c: nat)
    requires c < |s| && FirstMatch(s[c..], data, v) == FirstMatch(s, data, v)
    ensures s[c] in data && data[s[c]] == v ==> FirstMatch(s, data, v) == Some(s[c])
    ensures !(s[c] in data && data[s[c]] == v) ==> FirstMatch(s[c + 1..], data, v) == FirstMatch(s, data, v)
  {
    FirstMatchFrom(s, data, v, c);
  }

  /** One step of `find_node` over the traversal: the machine moves on to the next
      edge; a Start edge whose node carries `v` is the first match of the pre-order,
      and any other edge leaves the search unfinished. */
  lemma SearchStep<Id, T>(m: Picture<Id>, sh: Shape<Id>, root: Id, e: Edge<Id>, k: nat, data: map<Id, T>, v: T)
    requires Walkable(m, sh, root) && Progress(m, sh, root, Some(e), k)
    requires Searched(PreOrder(sh, root), data, v, Emitted(sh, root, k))
    ensures e.node in m && k < |Edges(sh, root)|
    ensures Progress(m, sh, root, TraverseNext(m, root, e), k + 1)
    ensures e.Start? && e.node in data && data[e.node] == v ==> FirstMatch(PreOrder(sh, root), data, v) == Some(e.node)
    ensures !(e.Start? && e.node in data && data[e.node] == v) ==> Searched(PreOrder(sh, root), data, v, Emitted(sh, root, k + 1))
  {
    ProgressStep(m, sh, root, e, k);
    if e.Start? {
      FirstMatchStep(PreOrder(sh, root), data, v, Emitted(sh, root, k));
    }
  }

  /** A search that has run through the whole traversal found nothing. */
  lemma SearchEnd<Id, T>(m: Picture<Id>, sh: Shape<Id>, root: Id, k: nat, data: map<Id, T>, v: T)
    requires Ranked(sh) && root in sh.kids && Progress(m, sh, root, None, k)
    requires Searched(PreOrder(sh, root), data, v, Emitted(sh, root, k))
    ensures FirstMatch(PreOrder(sh, root), data, v) == None
  {
    ProgressEnd(m, sh, root, k);
    var pre := PreOrder(sh, root);
    assert pre[|pre|..] == [];
  }
}

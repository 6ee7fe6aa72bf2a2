/**
 * idtree: the nodes of a tree live in a vector owned by an `Arena`, and a node id is
 * an index into that vector. Edits overwrite the link fields of vector entries in
 * place. `detach` joins a node's neighbours around it but leaves the node's own
 * parent and sibling links as they were, so the edits that start with a `detach`
 * reach a well-formed tree only for a node that had no such links.
 */
module IdTree {
  import opened Wrappers
  import opened TreeShape
  import opened TreeEdit
  import opened TreeWalk
  import opened TreeAttach

  datatype Node<T> = Node(parent: Option<nat>, nextSibling: Option<nat>, prevSibling: Option<nat>,
                          firstChild: Option<nat>, lastChild: Option<nat>, data: T)

  function LinksOf<T>(d: Node<T>): Links<nat>
  {
    Links(d.parent, d.firstChild, d.lastChild, d.prevSibling, d.nextSibling)
  }

  /** The picture of a vector of nodes: id `i` is entry `i`. */
  function PictureOf<T>(ns: seq<Node<T>>): (m: Picture<nat>)
    ensures forall i: nat :: i in m <==> i < |ns|
  {
    map i | 0 <= i < |ns| :: LinksOf(ns[i])
  }

  function ContentsOf<T>(ns: seq<Node<T>>): (d: map<nat, T>)
    ensures forall i: nat :: i in d <==> i < |ns|
  {
    map i | 0 <= i < |ns| :: ns[i].data
  }

  lemma WriteLinks<T>(ns: seq<Node<T>>, x: nat, d: Node<T>)
    requires x < |ns| && d.data == ns[x].data
    ensures PictureOf(ns[x := d]) == PictureOf(ns)[x := LinksOf(d)]
    ensures ContentsOf(ns[x := d]) == ContentsOf(ns)
  {
  }

  // ---------------------------------------------------------------------------
  // The arena

  class Arena<T> {
    var nodes: seq<Node<T>>

    function Picture(): Picture<nat> reads this { PictureOf(nodes) }

    function Contents(): map<nat, T> reads this { ContentsOf(nodes) }

    /** `Arena::new`. */
    constructor ()
      ensures nodes == []
    {
      nodes := [];
    }

    /** `new_node`: the new id is the old number of nodes; the node has no links and
        every other node is unchanged. */
    method NewNode(data: T) returns (id: nat)
      modifies this
      ensures id == old(|nodes|) && id !in old(Picture())
      ensures Picture() == old(Picture())[id := NoLinks()]
      ensures Contents() == old(Contents())[id := data]
    {
      id := |nodes|;
      nodes := nodes + [Node(None, None, None, None, None, data)];
    }

    method SetParentOf(x: nat, v: Option<nat>)
      modifies this
      requires x < |nodes|
      ensures |nodes| == old(|nodes|)
      ensures Picture() == SetParent(old(Picture()), x, v) && Contents() == old(Contents())
      ensures old(Closed(Picture())) && LinkIn(old(Picture()), v) ==> Closed(Picture())
    {
      if Closed(Picture()) && LinkIn(Picture(), v) { SetClosed(Picture(), x, v); }
      WriteLinks(nodes, x, nodes[x].(parent := v));
      nodes := nodes[x := nodes[x].(parent := v)];
    }

    method SetFirstOf(x: nat, v: Option<nat>)
      modifies this
      requires x < |nodes|
      ensures |nodes| == old(|nodes|)
      ensures Picture() == SetFirst(old(Picture()), x, v) && Contents() == old(Contents())
      ensures old(Closed(Picture())) && LinkIn(old(Picture()), v) ==> Closed(Picture())
    {
      if Closed(Picture()) && LinkIn(Picture(), v) { SetClosed(Picture(), x, v); }
      WriteLinks(nodes, x, nodes[x].(firstChild := v));
      nodes := nodes[x := nodes[x].(firstChild := v)];
    }

    method SetLastOf(x: nat, v: Option<nat>)
      modifies this
      requires x < |nodes|
      ensures |nodes| == old(|nodes|)
      ensures Picture() == SetLast(old(Picture()), x, v) && Contents() == old(Contents())
      ensures old(Closed(Picture())) && LinkIn(old(Picture()), v) ==> Closed(Picture())
    {
      if Closed(Picture()) && LinkIn(Picture(), v) { SetClosed(Picture(), x, v); }
      WriteLinks(nodes, x, nodes[x].(lastChild := v));
      nodes := nodes[x := nodes[x].(lastChild := v)];
    }

    method SetPrevOf(x: nat, v: Option<nat>)
      modifies this
      requires x < |nodes|
      ensures |nodes| == old(|nodes|)
      ensures Picture() == SetPrev(old(Picture()), x, v) && Contents() == old(Contents())
      ensures old(Closed(Picture())) && LinkIn(old(Picture()), v) ==> Closed(Picture())
    {
      if Closed(Picture()) && LinkIn(Picture(), v) { SetClosed(Picture(), x, v); }
      WriteLinks(nodes, x, nodes[x].(prevSibling := v));
      nodes := nodes[x := nodes[x].(prevSibling := v)];
    }

    method SetNextOf(x: nat, v: Option<nat>)
      modifies this
      requires x < |nodes|
      ensures |nodes| == old(|nodes|)
      ensures Picture() == SetNext(old(Picture()), x, v) && Contents() == old(Contents())
      ensures old(Closed(Picture())) && LinkIn(old(Picture()), v) ==> Closed(Picture())
    {
      if Closed(Picture()) && LinkIn(Picture(), v) { SetClosed(Picture(), x, v); }
      WriteLinks(nodes, x, nodes[x].(nextSibling := v));
      nodes := nodes[x := nodes[x].(nextSibling := v)];
    }

    /** `detach`: the neighbours of `n` (or its parent's end links) are joined around
        it; the links of `n` itself stay. */
    method Detach(n: nat)
      modifies this
      requires n < |nodes| && NeighboursIn(Picture(), n)
      ensures |nodes| == old(|nodes|)
      ensures Picture() == Unlinked(old(Picture()), n) && Contents() == old(Contents())
    {
      ghost var m := Picture();
      var parent := nodes[n].parent;
      var prev := nodes[n].prevSibling;
      var next := nodes[n].nextSibling;
      assert LinksOf(nodes[n]) == m[n];
      if prev.Some? {
        SetNextOf(prev.value, next);
      } else if parent.Some? {
        SetFirstOf(parent.value, next);
      }
      if next.Some? {
        SetPrevOf(next.value, prev);
      } else if parent.Some? {
        SetLastOf(parent.value, prev);
      }
      DetachWrites(m, n);
    }

    /** The corrected `detach`: as `Detach`, then the parent and sibling links of `n`
        itself are cleared, as arena_tree and rctree do. On a well-formed tree the
        node comes out free and every children list just loses it, so each edit
        after it starts from a free node (`AppendFree`, `PrependFree`,
        `InsertBeforeFree`, `InsertAfterFree`). */
    method DetachCleared(n: nat, ghost sh: Shape<nat>)
      modifies this
      requires n < |nodes| && Valid(Picture(), sh) && Closed(Picture())
      ensures |nodes| == old(|nodes|) && Contents() == old(Contents())
      ensures Picture() == Detached(old(Picture()), n) && Free(Picture(), n)
      ensures Valid(Picture(), sh.(kids := KidsWithout(old(Picture()), sh.kids, n)))
    {
      ghost var m := Picture();
      DetachMoves(m, sh, n);
      DetachTakenValid(m, sh, n);
      Detach(n);
      SetParentOf(n, None);
      SetPrevOf(n, None);
      SetNextOf(n, None);
      ClearedIsDetached(m, n);
    }

    /** `append`: detach `n`, then make it the last child of `q`. */
    method Append(q: nat, n: nat)
      modifies this
      requires q < |nodes| && n < |nodes| && Closed(Picture())
      ensures |nodes| == old(|nodes|)
      ensures Picture() == AttachLast(Unlinked(old(Picture()), n), q, n) && Contents() == old(Contents())
      ensures Closed(Picture())
    {
      Detach(n);
      ghost var d := Picture();
      SetParentOf(n, Some(q));
      var last := nodes[q].lastChild;
      assert LinksOf(nodes[q]) == SetParent(d, n, Some(q))[q];
      if last.Some? {
        SetNextOf(last.value, Some(n));
        SetPrevOf(n, Some(last.value));
      } else {
        SetFirstOf(q, Some(n));
      }
      SetLastOf(q, Some(n));
    }

    /** `prepend`: detach `n`, then make it the first child of `q`. */
    method Prepend(q: nat, n: nat)
      modifies this
      requires q < |nodes| && n < |nodes| && Closed(Picture())
      ensures |nodes| == old(|nodes|)
      ensures Picture() == AttachFirst(Unlinked(old(Picture()), n), q, n) && Contents() == old(Contents())
      ensures Closed(Picture())
    {
      Detach(n);
      ghost var d := Picture();
      SetParentOf(n, Some(q));
      var first := nodes[q].firstChild;
      assert LinksOf(nodes[q]) == SetParent(d, n, Some(q))[q];
      if first.Some? {
        SetPrevOf(first.value, Some(n));
        SetNextOf(n, Some(first.value));
      } else {
        SetLastOf(q, Some(n));
      }
      SetFirstOf(q, Some(n));
    }

    /** `insert_before`: detach `n`, then put it just before `s`. */
    method InsertBefore(s: nat, n: nat)
      modifies this
      requires s < |nodes| && n < |nodes| && Closed(Picture())
      ensures |nodes| == old(|nodes|)
      ensures Picture() == AttachBefore(Unlinked(old(Picture()), n), s, n) && Contents() == old(Contents())
      ensures Closed(Picture())
    {
      Detach(n);
      ghost var d := Picture();
      var parent := nodes[s].parent;
      var prev := nodes[s].prevSibling;
      assert LinksOf(nodes[s]) == d[s];
      if prev.Some? {
        SetNextOf(prev.value, Some(n));
        SetPrevOf(n, Some(prev.value));
      } else if parent.Some? {
        SetFirstOf(parent.value, Some(n));
      }
      SetNextOf(n, Some(s));
      SetPrevOf(s, Some(n));
      SetParentOf(n, parent);
    }

    /** `insert_after`: detach `n`, then put it just after `s`. */
    method InsertAfter(s: nat, n: nat)
      modifies this
      requires s < |nodes| && n < |nodes| && Closed(Picture())
      ensures |nodes| == old(|nodes|)
      ensures Picture() == AttachAfter(Unlinked(old(Picture()), n), s, n) && Contents() == old(Contents())
      ensures Closed(Picture())
    {
      Detach(n);
      ghost var d := Picture();
      var parent := nodes[s].parent;
      var next := nodes[s].nextSibling;
      assert LinksOf(nodes[s]) == d[s];
      SetParentOf(n, parent);
      SetPrevOf(n, Some(s));
      SetNextOf(s, Some(n));
      if next.Some? {
        SetNextOf(n, Some(next.value));
        SetPrevOf(next.value, Some(n));
      } else if parent.Some? {
        SetLastOf(parent.value, Some(n));
      }
    }
  }

  // ---------------------------------------------------------------------------
  // Detach

  /** The two writes of `detach` (previous side, then next side) join the
      neighbours exactly as `Unlinked` does: they touch four different fields. */
  lemma DetachWrites(m: Picture<nat>, n: nat)
    requires n in m && NeighboursIn(m, n)
    ensures var l := m[n];
      var m1 := if l.prevSibling.Some? then SetNext(m, l.prevSibling.value, l.nextSibling)
                else if l.parent.Some? then SetFirst(m, l.parent.value, l.nextSibling) else m;
      var m2 := if l.nextSibling.Some? then SetPrev(m1, l.nextSibling.value, l.prevSibling)
                else if l.parent.Some? then SetLast(m1, l.parent.value, l.prevSibling) else m1;
      m2 == Unlinked(m, n)
  {
  }

  /** On a well-formed picture, `detach` leaves every children list spelling out the
      old lists without `n`; `n` keeps all its links. */
  lemma DetachChildren(m: Picture<nat>, sh: Shape<nat>, n: nat)
    requires Valid(m, sh) && n in m
    ensures Unlinked(m, n)[n] == m[n]
    ensures forall q | q in m :: ListLinked(Unlinked(m, n), q, KidsWithout(m, sh.kids, n)[q])
  {
    var u := Unlinked(m, n);
    var d := Detached(m, n);
    var k1 := KidsWithout(m, sh.kids, n);
    NotSelfLinked(m, sh, n);
    DetachLists(m, sh, n);
    UnlinkedDetachedAgree(m, n);
    forall q | q in m ensures ListLinked(u, q, k1[q]) {
      NotInKidsWithout(m, sh, n, q);
      ListFrame(d, u, q, k1[q], n);
    }
  }

  lemma UnlinkedDetachedAgree(m: Picture<nat>, n: nat)
    requires n in m
    ensures forall x | x in m && x != n :: Unlinked(m, n)[x] == Detached(m, n)[x]
    ensures Unlinked(m, n)[n].firstChild == Detached(m, n)[n].firstChild
    ensures Unlinked(m, n)[n].lastChild == Detached(m, n)[n].lastChild
  {
  }

  /** A list that avoids `n` reads the same in two pictures that differ only in the
      parent and sibling links of `n`. */
  lemma ListFrame(a: Picture<nat>, b: Picture<nat>, q: nat, cs: seq<nat>, n: nat)
    requires q in a && a.Keys == b.Keys && ListLinked(a, q, cs) && n !in cs
    requires forall x | x in a && x != n :: b[x] == a[x]
    requires n in a ==> a[n].firstChild == b[n].firstChild && a[n].lastChild == b[n].lastChild
    ensures ListLinked(b, q, cs)
  {
    forall i | 0 <= i < |cs| ensures b[cs[i]] == a[cs[i]] {
      assert cs[i] in cs;
    }
  }

  /** After `n` is taken out of all lists, it is in none of them. */
  lemma NotInKidsWithout(m: Picture<nat>, sh: Shape<nat>, n: nat, q: nat)
    requires Valid(m, sh) && n in m && q in m
    ensures n !in KidsWithout(m, sh.kids, n)[q]
  {
    if m[n].parent == Some(q) {
      var p, i := GapAt(m, sh.kids, n);
      assert ListLinked(m, p, sh.kids[p]);
      RemoveAtNoDup(sh.kids[p], i);
    } else {
      NotInOtherList(m, sh, n, q);
    }
  }

  /** Clearing the parent and sibling links of `n` after `Unlinked` gives `Detached`. */
  lemma ClearedIsDetached(m: Picture<nat>, n: nat)
    requires n in m
    ensures SetNext(SetPrev(SetParent(Unlinked(m, n), n, None), n, None), n, None) == Detached(m, n)
  {
  }

  /** A second `detach` of the same node writes the same values again, unless the
      node is its own neighbour. */
  lemma DetachTwice(m: Picture<nat>, n: nat)
    requires n in m && m[n].parent != Some(n) && m[n].prevSibling != Some(n) && m[n].nextSibling != Some(n)
    ensures Unlinked(m, n)[n] == m[n]
    ensures Unlinked(Unlinked(m, n), n) == Unlinked(m, n)
  {
  }

  // ---------------------------------------------------------------------------
  // The edits as written, on a node without parent and sibling links

  /** `append` of a free node: `children(q)` becomes the old list followed by `n`. */
  lemma AppendFree(m: Picture<nat>, sh: Shape<nat>, q: nat, n: nat)
    requires Valid(m, sh) && Closed(m) && Free(m, n) && q in m && q !in PreOrder(sh, n)
    ensures Valid(AttachLast(Unlinked(m, n), q, n), Moved(m, sh, n, q, |sh.kids[q]|))
    ensures Moved(m, sh, n, q, |sh.kids[q]|).kids == sh.kids[q := sh.kids[q] + [n]]
  {
    FreeUnlinked(m, n);
    AppendDetached(m, sh, q, n);
  }

  /** `prepend` of a free node: `children(q)` becomes `n` followed by the old list. */
  lemma PrependFree(m: Picture<nat>, sh: Shape<nat>, q: nat, n: nat)
    requires Valid(m, sh) && Closed(m) && Free(m, n) && q in m && q !in PreOrder(sh, n)
    ensures Valid(AttachFirst(Unlinked(m, n), q, n), Moved(m, sh, n, q, 0))
    ensures Moved(m, sh, n, q, 0).kids == sh.kids[q := [n] + sh.kids[q]]
  {
    FreeUnlinked(m, n);
    PrependDetached(m, sh, q, n);
  }

  /** `insert_before` of a free node: it lands just before `s` among the children of
      the parent of `s`. */
  lemma InsertBeforeFree(m: Picture<nat>, sh: Shape<nat>, s: nat, n: nat)
    requires Valid(m, sh) && Closed(m) && Free(m, n) && s in m && m[s].parent.Some?
    requires m[s].parent.value !in PreOrder(sh, n)
    ensures var p := m[s].parent.value;
      && s in sh.kids[p]
      && Valid(AttachBefore(Unlinked(m, n), s, n), Moved(m, sh, n, p, IndexOf(sh.kids[p], s)))
      && Moved(m, sh, n, p, IndexOf(sh.kids[p], s)).kids == sh.kids[p := InsertAt(sh.kids[p], IndexOf(sh.kids[p], s), n)]
  {
    FreeUnlinked(m, n);
    InsertBeforeDetached(m, sh, s, n);
  }

  /** `insert_after` of a free node: it lands just after `s` among the children of
      the parent of `s`. */
  lemma InsertAfterFree(m: Picture<nat>, sh: Shape<nat>, s: nat, n: nat) returns (p: nat, j: nat)
    requires Valid(m, sh) && Closed(m) && Free(m, n) && s in m && m[s].parent.Some?
    requires m[s].parent.value !in PreOrder(sh, n)
    ensures p == m[s].parent.value && s in sh.kids[p]
    ensures j == IndexOf(sh.kids[p], s) + 1 && j <= |sh.kids[p]|
    ensures Valid(AttachAfter(Unlinked(m, n), s, n), Moved(m, sh, n, p, j))
    ensures Moved(m, sh, n, p, j).kids == sh.kids[p := InsertAt(sh.kids[p], j, n)]
  {
    FreeUnlinked(m, n);
    p, j := InsertAfterDetached(m, sh, s, n);
  }

  // ---------------------------------------------------------------------------
  // The edits as written, on a node that still has a sibling: `detach` keeps the
  // node's own sibling links, and no children lists at all agree with the result

  /** A first child that names a previous sibling, or a last child that names a next
      sibling, is a picture no children lists agree with. */
  lemma HeadStale(r: Picture<nat>, p: nat, n: nat)
    requires p in r && n in r && r[p].firstChild == Some(n) && r[n].prevSibling.Some?
    ensures forall kids: map<nat, seq<nat>> :: !Linked(r, kids)
  {
    forall kids: map<nat, seq<nat>> ensures !Linked(r, kids) {
      if p in kids {
        assert !ListLinked(r, p, kids[p]);
      }
    }
  }

  lemma TailStale(r: Picture<nat>, p: nat, n: nat)
    requires p in r && n in r && r[p].lastChild == Some(n) && r[n].nextSibling.Some?
    ensures forall kids: map<nat, seq<nat>> :: !Linked(r, kids)
  {
    forall kids: map<nat, seq<nat>> ensures !Linked(r, kids) {
      if p in kids {
        assert !ListLinked(r, p, kids[p]);
      }
    }
  }

  /** `append` of a node that has a next sibling: `n` becomes the last child of `q`
      but still names its old next sibling. */
  lemma AppendStale(m: Picture<nat>, q: nat, n: nat)
    requires Closed(m) && q in m && n in m && m[n].nextSibling.Some?
    ensures forall kids: map<nat, seq<nat>> :: !Linked(AttachLast(Unlinked(m, n), q, n), kids)
  {
    TailStale(AttachLast(Unlinked(m, n), q, n), q, n);
  }

  /** `prepend` of a node that has a previous sibling: `n` becomes the first child of
      `q` but still names its old previous sibling. */
  lemma PrependStale(m: Picture<nat>, q: nat, n: nat)
    requires Closed(m) && q in m && n in m && m[n].prevSibling.Some?
    ensures forall kids: map<nat, seq<nat>> :: !Linked(AttachFirst(Unlinked(m, n), q, n), kids)
  {
    HeadStale(AttachFirst(Unlinked(m, n), q, n), q, n);
  }

  /** `insert_before` a first child `s` of a node that has a previous sibling: `n`
      becomes the first child but keeps its old previous sibling. */
  lemma InsertBeforeStale(m: Picture<nat>, sh: Shape<nat>, s: nat, n: nat)
    requires Valid(m, sh) && Closed(m) && s in m && n in m && s != n
    requires m[s].parent.Some? && m[s].prevSibling.None? && m[n].prevSibling.Some?
    ensures forall kids: map<nat, seq<nat>> :: !Linked(AttachBefore(Unlinked(m, n), s, n), kids)
  {
    NeighbourLinks(m, sh, n);
    StaleBefore(m, s, n);
  }

  lemma StaleBefore(m: Picture<nat>, s: nat, n: nat)
    requires Closed(m) && s in m && n in m && s != n && m[n].nextSibling != Some(s)
    requires m[s].parent.Some? && m[s].prevSibling.None? && m[n].prevSibling.Some?
    ensures forall kids: map<nat, seq<nat>> :: !Linked(AttachBefore(Unlinked(m, n), s, n), kids)
  {
    var u := Unlinked(m, n);
    assert u[s].parent == m[s].parent && u[s].prevSibling.None? && u[n].prevSibling == m[n].prevSibling;
    HeadStale(AttachBefore(u, s, n), m[s].parent.value, n);
  }

  /** `insert_after` a last child `s` of a node that has a next sibling: `n` becomes
      the last child but keeps its old next sibling. */
  lemma InsertAfterStale(m: Picture<nat>, sh: Shape<nat>, s: nat, n: nat)
    requires Valid(m, sh) && Closed(m) && s in m && n in m && s != n
    requires m[s].parent.Some? && m[s].nextSibling.None? && m[n].nextSibling.Some?
    ensures forall kids: map<nat, seq<nat>> :: !Linked(AttachAfter(Unlinked(m, n), s, n), kids)
  {
    NeighbourLinks(m, sh, n);
    StaleAfter(m, s, n);
  }

  lemma StaleAfter(m: Picture<nat>, s: nat, n: nat)
    requires Closed(m) && s in m && n in m && s != n && m[n].prevSibling != Some(s)
    requires m[s].parent.Some? && m[s].nextSibling.None? && m[n].nextSibling.Some?
    ensures forall kids: map<nat, seq<nat>> :: !Linked(AttachAfter(Unlinked(m, n), s, n), kids)
  {
    var u := Unlinked(m, n);
    assert u[s].parent == m[s].parent && u[s].nextSibling.None? && u[n].nextSibling == m[n].nextSibling;
    TailStale(AttachAfter(u, s, n), m[s].parent.value, n);
  }

  // ---------------------------------------------------------------------------
  // The walk iterators: `Ancestors`, `PrecedingSiblings`, `FollowingSiblings`,
  // `Children` and `ReverseChildren` differ only in the link they follow

  class NodeIter<T> {
    const arena: Arena<T>
    const link: Link
    var node: Option<nat>

    constructor (arena: Arena<T>, link: Link, start: Option<nat>)
      ensures this.arena == arena && this.link == link && node == start
    {
      this.arena := arena;
      this.link := link;
      node := start;
    }

    /** `next`: yield the current node and move along the link. */
    method Next() returns (r: Option<nat>)
      modifies this
      requires node.Some? ==> node.value < |arena.nodes|
      ensures r == old(node)
      ensures node == if r.Some? then Follow(arena.Picture()[r.value], link) else None
    {
      r := node;
      if r.Some? {
        var l := arena.nodes[r.value];
        assert LinksOf(l) == arena.Picture()[r.value];
        node := match link
          case ParentLink => l.parent
          case PrevLink => l.prevSibling
          case NextLink => l.nextSibling;
      }
    }
  }

  /** `ancestors(n)`: starts at `n` itself. */
  method Ancestors<T>(arena: Arena<T>, n: nat) returns (it: NodeIter<T>)
    ensures fresh(it) && it.arena == arena && it.link == ParentLink && it.node == Some(n)
  {
    it := new NodeIter(arena, ParentLink, Some(n));
  }

  /** `preceding_siblings(n)`: starts at `n` itself. */
  method PrecedingSiblings<T>(arena: Arena<T>, n: nat) returns (it: NodeIter<T>)
    ensures fresh(it) && it.arena == arena && it.link == PrevLink && it.node == Some(n)
  {
    it := new NodeIter(arena, PrevLink, Some(n));
  }

  /** `following_siblings(n)`: starts at `n` itself. */
  method FollowingSiblings<T>(arena: Arena<T>, n: nat) returns (it: NodeIter<T>)
    ensures fresh(it) && it.arena == arena && it.link == NextLink && it.node == Some(n)
  {
    it := new NodeIter(arena, NextLink, Some(n));
  }

  /** `children(p)`: starts at the first child of `p`. */
  method Children<T>(arena: Arena<T>, p: nat) returns (it: NodeIter<T>)
    requires p < |arena.nodes|
    ensures fresh(it) && it.arena == arena && it.link == NextLink
    ensures it.node == arena.Picture()[p].firstChild
  {
    it := new NodeIter(arena, NextLink, arena.nodes[p].firstChild);
  }

  /** `reverse_children(p)`: starts at the last child of `p`. */
  method ReverseChildren<T>(arena: Arena<T>, p: nat) returns (it: NodeIter<T>)
    requires p < |arena.nodes|
    ensures fresh(it) && it.arena == arena && it.link == PrevLink
    ensures it.node == arena.Picture()[p].lastChild
  {
    it := new NodeIter(arena, PrevLink, arena.nodes[p].lastChild);
  }

  /** Everything a walk iterator yields on a well-formed arena: the walk from its
      current node. */
  method Collect<T>(it: NodeIter<T>, ghost sh: Shape<nat>) returns (out: seq<nat>)
    modifies it
    requires Valid(it.arena.Picture(), sh) && (it.node.Some? ==> it.node.value in it.arena.Picture())
    ensures out == WalkFrom(it.arena.Picture(), sh, it.link, old(it.node)) && it.node.None?
  {
    ghost var m := it.arena.Picture();
    ghost var k := it.link;
    ghost var start := it.node;
    out := [];
    while it.node.Some?
      invariant it.arena.Picture() == m
      invariant it.node.Some? ==> it.node.value in m
      invariant out + WalkFrom(m, sh, k, it.node) == WalkFrom(m, sh, k, start)
      decreases if it.node.Some? then WalkMeasure(m, sh, k, it.node.value) + 1 else 0
    {
      ghost var y := it.node.value;
      WalkFromAppend(m, sh, k, y, out);
      var r := it.Next();
      if it.node.Some? { FollowDecreases(m, sh, k, y); }
      out := out + [r.value];
    }
  }

  // ---------------------------------------------------------------------------
  // `Traverse` and `Descendants`

  class Traverse<T> {
    const arena: Arena<T>
    const root: nat
    var next: Option<Edge<nat>>
    /** The number of edges emitted so far. */
    ghost var steps: nat

    /** `traverse(root)`: the first edge is Start(root). */
    constructor (arena: Arena<T>, root: nat)
      ensures this.arena == arena && this.root == root && next == Some(Start(root)) && steps == 0
    {
      this.arena := arena;
      this.root := root;
      next := Some(Start(root));
      steps := 0;
    }

    /** `next`: yield the pending edge and compute the one after it. */
    method Next() returns (r: Option<Edge<nat>>)
      modifies this
      requires next.Some? ==> next.value.node < |arena.nodes|
      ensures r == old(next) && steps == old(steps) + (if r.Some? then 1 else 0)
      ensures next == if r.Some? then TraverseNext(arena.Picture(), root, r.value) else None
    {
      r := next;
      if r.Some? {
        var x := r.value.node;
        var l := arena.nodes[x];
        assert LinksOf(l) == arena.Picture()[x];
        steps := steps + 1;
        match r.value
        case Start(_) =>
          next := if l.firstChild.Some? then Some(Start(l.firstChild.value)) else Some(End(x));
        case End(_) =>
          next := if x == root then None
                  else if l.nextSibling.Some? then Some(Start(l.nextSibling.value))
                  else if l.parent.Some? then Some(End(l.parent.value))
                  else None;
      }
    }
  }

  /** Every edge a fresh traversal yields on a well-formed arena: the bracketed walk of
      the subtree of its root. */
  method TraverseAll<T>(arena: Arena<T>, root: nat, ghost sh: Shape<nat>) returns (out: seq<Edge<nat>>)
    requires Walkable(arena.Picture(), sh, root)
    ensures out == Edges(sh, root)
    ensures out[0] == Start(root) && out[|out| - 1] == End(root)
    ensures forall e | e in out :: e.node in PreOrder(sh, root)
  {
    ghost var m := arena.Picture();
    var t := new Traverse(arena, root);
    ProgressStart(m, sh, root);
    out := [];
    while t.next.Some?
      invariant fresh(t) && t.arena == arena && t.root == root
      invariant Progress(m, sh, root, t.next, t.steps) && out == Edges(sh, root)[..t.steps]
      decreases |Edges(sh, root)| - t.steps
    {
      ProgressStep(m, sh, root, t.next.value, t.steps);
      var e := t.Next();
      PrefixSnoc(Edges(sh, root), t.steps - 1);
      out := out + [e.value];
    }
    ProgressEnd(m, sh, root, t.steps);
    assert out == Edges(sh, root);
    EdgesShape(sh, root);
  }

  class Descendants<T> {
    const traverse: Traverse<T>

    /** `descendants(root)`: a traversal of `root` that keeps only Start edges. */
    constructor (arena: Arena<T>, root: nat)
      ensures fresh(traverse) && traverse.arena == arena && traverse.root == root
      ensures traverse.next == Some(Start(root)) && traverse.steps == 0
    {
      traverse := new Traverse(arena, root);
    }

    /** `next`: the next node of the pre-order of the root's subtree, or `None` once
        the traversal is over. */
    method Next(ghost sh: Shape<nat>) returns (r: Option<nat>)
      modifies traverse
      requires Walkable(traverse.arena.Picture(), sh, traverse.root)
      requires Progress(traverse.arena.Picture(), sh, traverse.root, traverse.next, traverse.steps)
      ensures Progress(traverse.arena.Picture(), sh, traverse.root, traverse.next, traverse.steps)
      ensures var pre := PreOrder(sh, traverse.root);
        var i := Emitted(sh, traverse.root, old(traverse.steps));
        && r == (if i < |pre| then Some(pre[i]) else None)
        && Emitted(sh, traverse.root, traverse.steps) == i + (if r.Some? then 1 else 0)
    {
      ghost var m := traverse.arena.Picture();
      ghost var root := traverse.root;
      ghost var k0 := traverse.steps;
      while true
        invariant traverse.arena.Picture() == m && traverse.root == root && k0 <= traverse.steps
        invariant Progress(m, sh, root, traverse.next, traverse.steps)
        invariant Emitted(sh, root, traverse.steps) == Emitted(sh, root, k0)
        decreases |Edges(sh, root)| - traverse.steps
      {
        if traverse.next.None? {
          ProgressEnd(m, sh, root, traverse.steps);
          var _ := traverse.Next();
          return None;
        }
        ProgressStep(m, sh, root, traverse.next.value, traverse.steps);
        var e := traverse.Next();
        if e.value.Start? {
          return Some(e.value.node);
        }
      }
    }
  }

  /** Every node `descendants` yields: the pre-order of the root's subtree. */
  method DescendantsAll<T>(arena: Arena<T>, root: nat, ghost sh: Shape<nat>) returns (out: seq<nat>)
    requires Walkable(arena.Picture(), sh, root)
    ensures out == PreOrder(sh, root)
  {
    ghost var m := arena.Picture();
    ghost var pre := PreOrder(sh, root);
    var d := new Descendants(arena, root);
    ProgressStart(m, sh, root);
    out := [];
    while true
      invariant fresh(d.traverse) && d.traverse.arena == arena && d.traverse.root == root
      invariant Progress(m, sh, root, d.traverse.next, d.traverse.steps)
      invariant Emitted(sh, root, d.traverse.steps) == |out| <= |pre| && out == pre[..|out|]
      decreases |pre| - |out|
    {
      var x := d.Next(sh);
      if x.None? {
        assert out == pre;
        return;
      }
      PrefixSnoc(pre, |out|);
      out := out + [x.value];
    }
  }

  /** `find_node`: the first node of the pre-order of `root`'s subtree whose data is
      `v`, or `None`. */
  method FindNode<T(==)>(arena: Arena<T>, root: nat, v: T, ghost sh: Shape<nat>) returns (r: Option<nat>)
    requires Walkable(arena.Picture(), sh, root)
    ensures r == FirstMatch<nat, T>(PreOrder(sh, root), arena.Contents(), v)
  {
    ghost var m := arena.Picture();
    ghost var data := arena.Contents();
    ghost var pre := PreOrder(sh, root);
    var d := new Descendants(arena, root);
    ProgressStart(m, sh, root);
    ghost var c := 0;
    assert pre[0..] == pre;
    while true
      invariant fresh(d) && fresh(d.traverse) && d.traverse.arena == arena && d.traverse.root == root
      invariant Progress(m, sh, root, d.traverse.next, d.traverse.steps)
      invariant c == Emitted(sh, root, d.traverse.steps) && c <= |pre|
      invariant FirstMatch<nat, T>(pre[c..], data, v) == FirstMatch<nat, T>(pre, data, v)
      decreases |pre| - c
    {
      var x := d.Next(sh);
      if x.None? {
        assert pre[c..] == [];
        return None;
      }
      assert c < |pre| && x.value == pre[c];
      assert x.value in m by { PreOrderRank(sh, root, x.value); }
      assert data[x.value] == arena.nodes[x.value].data;
      FirstMatchFrom<nat, T>(pre, data, v, c);
      if arena.nodes[x.value].data == v {
        return x;
      }
      c := c + 1;
    }
  }
}

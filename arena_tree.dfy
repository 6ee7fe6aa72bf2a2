/**
 * arena_tree: every node is an object whose five links are mutable cells holding
 * references to other nodes; the nodes live as long as the arena that allocated
 * them. `detach` takes (empties) the node's parent and sibling links, so `append`
 * and `prepend` move a node correctly. `insert_before` and `insert_after` do not
 * set the parent of the inserted node, nor its link back to the node it is placed
 * next to: on a well-formed tree they leave a picture that no children lists
 * agree with.
 *
 * The arena is represented by a ghost set `S` of nodes; its picture maps every node
 * of `S` to its current links.
 */
module ArenaTree {
  import opened Wrappers
  import opened TreeShape
  import opened TreeEdit
  import opened TreeWalk
  import opened TreeAttach

  class ArenaNode<T> {
    var parent: Option<ArenaNode<T>>
    var firstChild: Option<ArenaNode<T>>
    var lastChild: Option<ArenaNode<T>>
    var prevSibling: Option<ArenaNode<T>>
    var nextSibling: Option<ArenaNode<T>>
    const data: T

    function Fields(): Links<ArenaNode<T>>
      reads this
    {
      Links(parent, firstChild, lastChild, prevSibling, nextSibling)
    }

    /** `ArenaNode::new`: a node without links. */
    constructor (data: T)
      ensures Fields() == NoLinks() && this.data == data
    {
      parent, firstChild, lastChild, prevSibling, nextSibling := None, None, None, None, None;
      this.data := data;
    }

    // The cell writes (`Cell::set`), each stated on the picture of the arena.

    method WriteParent(v: Option<ArenaNode<T>>, ghost S: set<ArenaNode<T>>)
      modifies this
      requires this in S
      ensures PictureOf(S) == SetParent(old(PictureOf(S)), this, v)
      ensures old(Closed(PictureOf(S))) && LinkIn(old(PictureOf(S)), v) ==> Closed(PictureOf(S))
    {
      ghost var m := PictureOf(S);
      parent := v;
      if Closed(m) && LinkIn(m, v) { SetClosed(m, this, v); }
    }

    method WriteFirst(v: Option<ArenaNode<T>>, ghost S: set<ArenaNode<T>>)
      modifies this
      requires this in S
      ensures PictureOf(S) == SetFirst(old(PictureOf(S)), this, v)
      ensures old(Closed(PictureOf(S))) && LinkIn(old(PictureOf(S)), v) ==> Closed(PictureOf(S))
    {
      ghost var m := PictureOf(S);
      firstChild := v;
      if Closed(m) && LinkIn(m, v) { SetClosed(m, this, v); }
    }

    method WriteLast(v: Option<ArenaNode<T>>, ghost S: set<ArenaNode<T>>)
      modifies this
      requires this in S
      ensures PictureOf(S) == SetLast(old(PictureOf(S)), this, v)
      ensures old(Closed(PictureOf(S))) && LinkIn(old(PictureOf(S)), v) ==> Closed(PictureOf(S))
    {
      ghost var m := PictureOf(S);
      lastChild := v;
      if Closed(m) && LinkIn(m, v) { SetClosed(m, this, v); }
    }

    method WritePrev(v: Option<ArenaNode<T>>, ghost S: set<ArenaNode<T>>)
      modifies this
      requires this in S
      ensures PictureOf(S) == SetPrev(old(PictureOf(S)), this, v)
      ensures old(Closed(PictureOf(S))) && LinkIn(old(PictureOf(S)), v) ==> Closed(PictureOf(S))
    {
      ghost var m := PictureOf(S);
      prevSibling := v;
      if Closed(m) && LinkIn(m, v) { SetClosed(m, this, v); }
    }

    method WriteNext(v: Option<ArenaNode<T>>, ghost S: set<ArenaNode<T>>)
      modifies this
      requires this in S
      ensures PictureOf(S) == SetNext(old(PictureOf(S)), this, v)
      ensures old(Closed(PictureOf(S))) && LinkIn(old(PictureOf(S)), v) ==> Closed(PictureOf(S))
    {
      ghost var m := PictureOf(S);
      nextSibling := v;
      if Closed(m) && LinkIn(m, v) { SetClosed(m, this, v); }
    }

    /** `detach`: take the node's parent and sibling links, then join the next side
        and the previous side around it. */
    method Detach(ghost S: set<ArenaNode<T>>)
      modifies S
      requires this in S && Closed(PictureOf(S))
      ensures PictureOf(S) == DetachTaken(old(PictureOf(S)), this) && Closed(PictureOf(S))
    {
      ghost var m := PictureOf(S);
      var p := parent;
      WriteParent(None, S);
      var next := nextSibling;
      WriteNext(None, S);
      var prev := prevSibling;
      WritePrev(None, S);
      if next.Some? {
        next.value.WritePrev(prev, S);
      } else if p.Some? {
        p.value.WriteLast(prev, S);
      }
      if prev.Some? {
        prev.value.WriteNext(next, S);
      } else if p.Some? {
        p.value.WriteFirst(next, S);
      }
    }

    /** `append`: detach `n`, then make it the last child of this node. */
    method Append(n: ArenaNode<T>, ghost S: set<ArenaNode<T>>)
      modifies S
      requires this in S && n in S && Closed(PictureOf(S))
      ensures PictureOf(S) == AttachLast(DetachTaken(old(PictureOf(S)), n), this, n) && Closed(PictureOf(S))
    {
      n.Detach(S);
      ghost var d := PictureOf(S);
      n.WriteParent(Some(this), S);
      var last := lastChild;
      if last.Some? {
        n.WritePrev(last, S);
        last.value.WriteNext(Some(n), S);
        PrevNextCommute(SetParent(d, n, Some(this)), n, last, last.value, Some(n));
      } else {
        WriteFirst(Some(n), S);
      }
      WriteLast(Some(n), S);
    }

    /** `prepend`: detach `n`, then make it the first child of this node. */
    method Prepend(n: ArenaNode<T>, ghost S: set<ArenaNode<T>>)
      modifies S
      requires this in S && n in S && Closed(PictureOf(S))
      ensures PictureOf(S) == AttachFirst(DetachTaken(old(PictureOf(S)), n), this, n) && Closed(PictureOf(S))
    {
      n.Detach(S);
      n.WriteParent(Some(this), S);
      var first := firstChild;
      if first.Some? {
        first.value.WritePrev(Some(n), S);
        n.WriteNext(first, S);
      } else {
        WriteLast(Some(n), S);
      }
      WriteFirst(Some(n), S);
    }

    /** `insert_before` as written: after the detach, `n` is linked after the
        previous sibling of this node (or made its parent's first child) and this
        node's `prevSibling` is set to `n`; `n.parent` and `n.nextSibling` are not
        written. */
    method InsertBefore(n: ArenaNode<T>, ghost S: set<ArenaNode<T>>)
      modifies S
      requires this in S && n in S && Closed(PictureOf(S))
      ensures PictureOf(S) == ArenaAttachBefore(DetachTaken(old(PictureOf(S)), n), this, n) && Closed(PictureOf(S))
    {
      n.Detach(S);
      var p := parent;
      var prev := prevSibling;
      if prev.Some? {
        prev.value.WriteNext(Some(n), S);
        n.WritePrev(prev, S);
      } else if p.Some? {
        p.value.WriteFirst(Some(n), S);
      }
      WritePrev(Some(n), S);
    }

    /** `insert_after` as written: after the detach, `n` is linked before the next
        sibling of this node (or made its parent's last child) and this node's
        `nextSibling` is set to `n`; `n.parent` and `n.prevSibling` are not
        written. */
    method InsertAfter(n: ArenaNode<T>, ghost S: set<ArenaNode<T>>)
      modifies S
      requires this in S && n in S && Closed(PictureOf(S))
      ensures PictureOf(S) == ArenaAttachAfter(DetachTaken(old(PictureOf(S)), n), this, n) && Closed(PictureOf(S))
    {
      n.Detach(S);
      var p := parent;
      var next := nextSibling;
      if next.Some? {
        next.value.WritePrev(Some(n), S);
        n.WriteNext(next, S);
      } else if p.Some? {
        p.value.WriteLast(Some(n), S);
      }
      WriteNext(Some(n), S);
    }

    /** `insert_before` with the two missing writes added: `n` also takes the
        parent of this node and names it as its next sibling. */
    method InsertBeforeLinked(n: ArenaNode<T>, ghost S: set<ArenaNode<T>>)
      modifies S
      requires this in S && n in S && Closed(PictureOf(S))
      ensures PictureOf(S) == AttachBefore(DetachTaken(old(PictureOf(S)), n), this, n) && Closed(PictureOf(S))
    {
      n.Detach(S);
      var p := parent;
      var prev := prevSibling;
      if prev.Some? {
        prev.value.WriteNext(Some(n), S);
        n.WritePrev(prev, S);
      } else if p.Some? {
        p.value.WriteFirst(Some(n), S);
      }
      n.WriteNext(Some(this), S);
      WritePrev(Some(n), S);
      n.WriteParent(p, S);
    }

    /** `insert_after` with the two missing writes added: `n` also takes the
        parent of this node and names it as its previous sibling. */
    method InsertAfterLinked(n: ArenaNode<T>, ghost S: set<ArenaNode<T>>)
      modifies S
      requires this in S && n in S && Closed(PictureOf(S))
      ensures PictureOf(S) == AttachAfter(DetachTaken(old(PictureOf(S)), n), this, n) && Closed(PictureOf(S))
    {
      n.Detach(S);
      var p := parent;
      var next := nextSibling;
      n.WriteParent(p, S);
      n.WritePrev(Some(this), S);
      WriteNext(Some(n), S);
      if next.Some? {
        n.WriteNext(next, S);
        next.value.WritePrev(Some(n), S);
      } else if p.Some? {
        p.value.WriteLast(Some(n), S);
      }
    }
  }

  /** The picture of the arena `S`: every node with its current links. */
  function PictureOf<T>(S: set<ArenaNode<T>>): (m: Picture<ArenaNode<T>>)
    reads S
    ensures m.Keys == S
  {
    map x | x in S :: x.Fields()
  }

  /** Nothing in the arena changed since the enclosing method began, so neither its
      picture did. */
  twostate lemma PictureFrame<T>(S: set<ArenaNode<T>>)
    requires unchanged(S)
    ensures PictureOf(S) == old(PictureOf(S))
  {
  }

  function ContentsOf<T>(S: set<ArenaNode<T>>): (d: map<ArenaNode<T>, T>)
    ensures d.Keys == S
  {
    map x | x in S :: x.data
  }

  /** The two writes of `append` in arena_tree's order touch different fields. */
  lemma PrevNextCommute<Id>(m: Picture<Id>, a: Id, va: Option<Id>, b: Id, vb: Option<Id>)
    requires a in m && b in m
    ensures SetNext(SetPrev(m, a, va), b, vb) == SetPrev(SetNext(m, b, vb), a, va)
  {
  }

  // ---------------------------------------------------------------------------
  // `insert_before` and `insert_after` as written

  /** The writes of `insert_before` after its detach. */
  function ArenaAttachBefore<Id>(d: Picture<Id>, s: Id, n: Id): (r: Picture<Id>)
    requires s in d && n in d && LinkIn(d, d[s].parent) && LinkIn(d, d[s].prevSibling)
    ensures r.Keys == d.Keys
  {
    var parent := d[s].parent;
    var prev := d[s].prevSibling;
    var d1 := if prev.Some? then SetPrev(SetNext(d, prev.value, Some(n)), n, prev)
              else if parent.Some? then SetFirst(d, parent.value, Some(n))
              else d;
    SetPrev(d1, s, Some(n))
  }

  /** The writes of `insert_after` after its detach. */
  function ArenaAttachAfter<Id>(d: Picture<Id>, s: Id, n: Id): (r: Picture<Id>)
    requires s in d && n in d && LinkIn(d, d[s].parent) && LinkIn(d, d[s].nextSibling)
    ensures r.Keys == d.Keys
  {
    var parent := d[s].parent;
    var next := d[s].nextSibling;
    var d1 := if next.Some? then SetNext(SetPrev(d, next.value, Some(n)), n, next)
              else if parent.Some? then SetLast(d, parent.value, Some(n))
              else d;
    SetNext(d1, s, Some(n))
  }

  /** A node whose previous sibling does not name it as next sibling: no children
      lists agree with such a picture. */
  lemma PrevNotBack<Id>(r: Picture<Id>, s: Id, n: Id)
    requires s in r && n in r && r[s].prevSibling == Some(n) && r[n].nextSibling != Some(s)
    ensures forall kids: map<Id, seq<Id>> :: !Linked(r, kids)
  {
    forall kids: map<Id, seq<Id>> ensures !Linked(r, kids) {
      if Linked(r, kids) {
        LinkedPrevBack(r, kids, s);
        assert false;
      }
    }
  }

  /** The mirror image: a node whose next sibling does not name it back. */
  lemma NextNotBack<Id>(r: Picture<Id>, s: Id, n: Id)
    requires s in r && n in r && r[s].nextSibling == Some(n) && r[n].prevSibling != Some(s)
    ensures forall kids: map<Id, seq<Id>> :: !Linked(r, kids)
  {
    forall kids: map<Id, seq<Id>> ensures !Linked(r, kids) {
      if Linked(r, kids) {
        LinkedNextBack(r, kids, s);
        assert false;
      }
    }
  }

  /** In linked lists, a previous sibling names the node back as its next sibling. */
  lemma LinkedPrevBack<Id>(r: Picture<Id>, kids: map<Id, seq<Id>>, s: Id)
    requires Linked(r, kids) && s in r && r[s].prevSibling.Some?
    ensures r[s].prevSibling.value in r && r[r[s].prevSibling.value].nextSibling == Some(s)
  {
    var p := r[s].parent.value;
    var cs := kids[p];
    assert ListLinked(r, p, cs);
    var i := IndexOf(cs, s);
    assert r[cs[i]].prevSibling == Before(cs, i);
    assert r[cs[i - 1]].nextSibling == After(cs, i - 1);
  }

  /** In linked lists, a next sibling names the node back as its previous sibling. */
  lemma LinkedNextBack<Id>(r: Picture<Id>, kids: map<Id, seq<Id>>, s: Id)
    requires Linked(r, kids) && s in r && r[s].nextSibling.Some?
    ensures r[s].nextSibling.value in r && r[r[s].nextSibling.value].prevSibling == Some(s)
  {
    var p := r[s].parent.value;
    var cs := kids[p];
    assert ListLinked(r, p, cs);
    var i := IndexOf(cs, s);
    assert r[cs[i]].nextSibling == After(cs, i);
    assert r[cs[i + 1]].prevSibling == Before(cs, i + 1);
  }

  /** `insert_before`'s writes on a node `n` without next sibling leave `s` naming
      `n` as previous sibling and `n` not naming `s` back. */
  lemma BeforeLeavesStale<Id>(d: Picture<Id>, s: Id, n: Id)
    requires s in d && n in d && LinkIn(d, d[s].parent) && LinkIn(d, d[s].prevSibling)
    requires s != n && d[s].prevSibling != Some(n) && d[n].nextSibling.None?
    ensures var r := ArenaAttachBefore(d, s, n); r[s].prevSibling == Some(n) && r[n].nextSibling != Some(s)
  {
  }

  /** The mirror image for `insert_after`. */
  lemma AfterLeavesStale<Id>(d: Picture<Id>, s: Id, n: Id)
    requires s in d && n in d && LinkIn(d, d[s].parent) && LinkIn(d, d[s].nextSibling)
    requires s != n && d[s].nextSibling != Some(n) && d[n].prevSibling.None?
    ensures var r := ArenaAttachAfter(d, s, n); r[s].nextSibling == Some(n) && r[n].prevSibling != Some(s)
  {
  }

  /** On every well-formed tree, `insert_before` of a node other than `s` leaves `s`
      naming `n` as previous sibling while `n` has no next sibling: no children
      lists agree with the result. */
  lemma InsertBeforeBreaks<Id>(m: Picture<Id>, sh: Shape<Id>, s: Id, n: Id)
    requires Valid(m, sh) && Closed(m) && s in m && n in m && s != n
    ensures forall kids: map<Id, seq<Id>> :: !Linked(ArenaAttachBefore(DetachTaken(m, n), s, n), kids)
  {
    var d := DetachTaken(m, n);
    DetachTakenValid(m, sh, n);
    NotSelfLinked(m, sh, n);
    NeighbourLinks(m, sh, s);
    assert d[s] == UnlinkedAt(m, n, s);
    assert d[s].prevSibling != Some(n);
    BeforeLeavesStale(d, s, n);
    PrevNotBack(ArenaAttachBefore(d, s, n), s, n);
  }

  /** On every well-formed tree, `insert_after` of a node other than `s` leaves `s`
      naming `n` as next sibling while `n` has no previous sibling. */
  lemma InsertAfterBreaks<Id>(m: Picture<Id>, sh: Shape<Id>, s: Id, n: Id)
    requires Valid(m, sh) && Closed(m) && s in m && n in m && s != n
    ensures forall kids: map<Id, seq<Id>> :: !Linked(ArenaAttachAfter(DetachTaken(m, n), s, n), kids)
  {
    var d := DetachTaken(m, n);
    DetachTakenValid(m, sh, n);
    NotSelfLinked(m, sh, n);
    NeighbourLinks(m, sh, s);
    assert d[s] == UnlinkedAt(m, n, s);
    assert d[s].nextSibling != Some(n);
    AfterLeavesStale(d, s, n);
    NextNotBack(ArenaAttachAfter(d, s, n), s, n);
  }

  /** The tree built by the arena_tree test before its first `insert_before`,
      with nodes named by their data: root 5 has the child 1, whose children are
      4, 2, 3; node 6 is new. */
  function TestTree(): Picture<nat>
  {
    map[5 := Links(None, Some(1), Some(1), None, None),
        1 := Links(Some(5), Some(4), Some(3), None, None),
        4 := Links(Some(1), None, None, None, Some(2)),
        2 := Links(Some(1), None, None, Some(4), Some(3)),
        3 := Links(Some(1), None, None, Some(2), None),
        6 := NoLinks()]
  }

  /** After `1.insert_before(6)` the traversal from 5 stops after node 6, which has
      neither a next sibling nor a parent: `descendants(5)` is [5, 6] from then on,
      not the 5, 6, 1, 4, 2, 3 the intended edit gives. */
  lemma InsertBeforeTestRun()
    ensures var r := ArenaAttachBefore(DetachTaken(TestTree(), 6), 1, 6);
      && Run(r, 5, Some(Start(5)), 4) == ([Start(5), Start(6), End(6)], None)
      && Starts(Run(r, 5, Some(Start(5)), 4).0) == [5, 6]
  {
    var r := ArenaAttachBefore(DetachTaken(TestTree(), 6), 1, 6);
    assert r[5] == Links(None, Some(6), Some(1), None, None);
    assert r[6] == NoLinks();
    assert TraverseNext(r, 5, Start(5)) == Some(Start(6));
    assert TraverseNext(r, 5, Start(6)) == Some(End(6));
    assert TraverseNext(r, 5, End(6)) == None;
    var e0: seq<Edge<nat>> := [];
    assert Run(r, 5, None, 1) == (e0, None);
    assert Run(r, 5, Some(End(6)), 2) == ([End(6)] + e0, None);
    assert [End(6)] + e0 == [End(6)];
    assert Run(r, 5, Some(Start(6)), 3) == ([Start(6)] + [End(6)], None);
    assert Run(r, 5, Some(Start(5)), 4) == ([Start(5)] + ([Start(6)] + [End(6)]), None);
    assert [Start(5)] + ([Start(6)] + [End(6)]) == [Start(5), Start(6), End(6)];
    assert Starts([Start(5), Start(6), End(6)]) == [5] + Starts([Start(6), End(6)]);
    assert Starts([Start(6), End(6)]) == [6] + Starts([End(6)]);
    assert Starts([End(6)]) == [] + Starts([]);
  }

  // ---------------------------------------------------------------------------
  // The relationship iterators: `Ancestors`, `PrecedingSiblings`,
  // `FollowingSiblings`, `Children` and `ReverseChildren` differ only in the link
  // they follow

  class Relationship<T> {
    const link: Link
    var node: Option<ArenaNode<T>>

    constructor (link: Link, start: Option<ArenaNode<T>>)
      ensures this.link == link && node == start
    {
      this.link := link;
      node := start;
    }

    /** `next`: yield the current node and move along the link. */
    method Next() returns (r: Option<ArenaNode<T>>)
      modifies this
      ensures r == old(node)
      ensures node == if r.Some? then Follow(r.value.Fields(), link) else None
    {
      r := node;
      if r.Some? {
        var x := r.value;
        node := match link
          case ParentLink => x.parent
          case PrevLink => x.prevSibling
          case NextLink => x.nextSibling;
      }
    }
  }

  /** `ancestors`: starts at `n` itself. */
  method Ancestors<T>(n: ArenaNode<T>) returns (it: Relationship<T>)
    ensures fresh(it) && it.link == ParentLink && it.node == Some(n)
  {
    it := new Relationship(ParentLink, Some(n));
  }

  /** `preceding_siblings`: starts at `n` itself. */
  method PrecedingSiblings<T>(n: ArenaNode<T>) returns (it: Relationship<T>)
    ensures fresh(it) && it.link == PrevLink && it.node == Some(n)
  {
    it := new Relationship(PrevLink, Some(n));
  }

  /** `following_siblings`: starts at `n` itself. */
  method FollowingSiblings<T>(n: ArenaNode<T>) returns (it: Relationship<T>)
    ensures fresh(it) && it.link == NextLink && it.node == Some(n)
  {
    it := new Relationship(NextLink, Some(n));
  }

  /** `children`: starts at the first child of `p`. */
  method Children<T>(p: ArenaNode<T>) returns (it: Relationship<T>)
    ensures fresh(it) && it.link == NextLink && it.node == p.firstChild
  {
    it := new Relationship(NextLink, p.firstChild);
  }

  /** `reverse_children`: starts at the last child of `p`. */
  method ReverseChildren<T>(p: ArenaNode<T>) returns (it: Relationship<T>)
    ensures fresh(it) && it.link == PrevLink && it.node == p.lastChild
  {
    it := new Relationship(PrevLink, p.lastChild);
  }

  /** Everything a relationship iterator yields in a well-formed arena: the walk
      from its current node. */
  method Collect<T>(it: Relationship<T>, ghost S: set<ArenaNode<T>>, ghost sh: Shape<ArenaNode<T>>)
    returns (out: seq<ArenaNode<T>>)
    modifies it
    requires Valid(PictureOf(S), sh) && (it.node.Some? ==> it.node.value in S)
    ensures out == WalkFrom(old(PictureOf(S)), sh, it.link, old(it.node)) && it.node.None?
  {
    ghost var m := PictureOf(S);
    ghost var start := it.node;
    out := [];
    while it.node.Some?
      invariant unchanged(S)
      invariant it.node.Some? ==> it.node.value in m
      invariant out + WalkFrom(m, sh, it.link, it.node) == WalkFrom(m, sh, it.link, start)
      decreases if it.node.Some? then WalkMeasure(m, sh, it.link, it.node.value) + 1 else 0
    {
      ghost var y := it.node.value;
      WalkFromStep(m, sh, it.link, y);
      var r := it.Next();
      PictureFrame(S);
      assert r.value.Fields() == m[y];
      if it.node.Some? { FollowDecreases(m, sh, it.link, y); }
      out := out + [r.value];
    }
  }

  // ---------------------------------------------------------------------------
  // `Traverse` and `Descendants`

  class Traverse<T> {
    const root: ArenaNode<T>
    var next: Option<Edge<ArenaNode<T>>>
    /** The number of edges emitted so far. */
    ghost var steps: nat

    /** `traverse`: the first edge is Start(root). */
    constructor (root: ArenaNode<T>)
      ensures this.root == root && next == Some(Start(root)) && steps == 0
    {
      this.root := root;
      next := Some(Start(root));
      steps := 0;
    }

    /** `next`: yield the pending edge and compute the one after it. */
    method Next(ghost S: set<ArenaNode<T>>, ghost m: Picture<ArenaNode<T>>) returns (r: Option<Edge<ArenaNode<T>>>)
      modifies this
      requires m == PictureOf(S) && (next.Some? ==> next.value.node in S)
      ensures r == old(next) && steps == old(steps) + (if r.Some? then 1 else 0)
      ensures next == if r.Some? then TraverseNext(m, root, r.value) else None
    {
      r := next;
      if r.Some? {
        var x := r.value.node;
        assert x.Fields() == m[x];
        steps := steps + 1;
        match r.value
        case Start(_) =>
          next := if x.firstChild.Some? then Some(Start(x.firstChild.value)) else Some(End(x));
        case End(_) =>
          next := if x == root then None
                  else if x.nextSibling.Some? then Some(Start(x.nextSibling.value))
                  else if x.parent.Some? then Some(End(x.parent.value))
                  else None;
      }
    }
  }

  /** Every edge a fresh traversal yields in a well-formed arena: the bracketed walk
      of the subtree of its root. */
  method TraverseAll<T>(root: ArenaNode<T>, ghost S: set<ArenaNode<T>>, ghost sh: Shape<ArenaNode<T>>)
    returns (out: seq<Edge<ArenaNode<T>>>)
    requires Walkable(PictureOf(S), sh, root)
    ensures out == Edges(sh, root)
    ensures out[0] == Start(root) && out[|out| - 1] == End(root)
    ensures forall e | e in out :: e.node in PreOrder(sh, root)
  {
    ghost var m := PictureOf(S);
    var t := new Traverse(root);
    ProgressStart(m, sh, root);
    out := [];
    while t.next.Some?
      invariant fresh(t) && t.root == root && unchanged(S)
      invariant Progress(m, sh, root, t.next, t.steps) && out == Edges(sh, root)[..t.steps]
      decreases |Edges(sh, root)| - t.steps
    {
      ProgressStep(m, sh, root, t.next.value, t.steps);
      PictureFrame(S);
      var e := t.Next(S, m);
      PrefixSnoc(Edges(sh, root), t.steps - 1);
      out := out + [e.value];
    }
    ProgressEnd(m, sh, root, t.steps);
    assert out == Edges(sh, root);
    EdgesShape(sh, root);
  }

  class Descendants<T> {
    const traverse: Traverse<T>

    /** `descendants`: a traversal of `root` that keeps only Start edges. */
    constructor (root: ArenaNode<T>)
      ensures fresh(traverse) && traverse.root == root
      ensures traverse.next == Some(Start(root)) && traverse.steps == 0
    {
      traverse := new Traverse(root);
    }

    /** `next`: the next node of the pre-order of the root's subtree, or `None` once
        the traversal is over. */
    method Next(ghost S: set<ArenaNode<T>>, ghost m: Picture<ArenaNode<T>>, ghost sh: Shape<ArenaNode<T>>)
      returns (r: Option<ArenaNode<T>>)
      modifies traverse
      requires m == PictureOf(S) && Walkable(m, sh, traverse.root)
      requires Progress(m, sh, traverse.root, traverse.next, traverse.steps)
      ensures Progress(m, sh, traverse.root, traverse.next, traverse.steps)
      ensures var pre := PreOrder(sh, traverse.root);
        var i := Emitted(sh, traverse.root, old(traverse.steps));
        && r == (if i < |pre| then Some(pre[i]) else None)
        && Emitted(sh, traverse.root, traverse.steps) == i + (if r.Some? then 1 else 0)
    {
      ghost var root := traverse.root;
      ghost var k0 := traverse.steps;
      while true
        invariant unchanged(S) && traverse.root == root && k0 <= traverse.steps
        invariant Progress(m, sh, root, traverse.next, traverse.steps)
        invariant Emitted(sh, root, traverse.steps) == Emitted(sh, root, k0)
        decreases |Edges(sh, root)| - traverse.steps
      {
        PictureFrame(S);
        if traverse.next.None? {
          ProgressEnd(m, sh, root, traverse.steps);
          var _ := traverse.Next(S, m);
          return None;
        }
        ProgressStep(m, sh, root, traverse.next.value, traverse.steps);
        var e := traverse.Next(S, m);
        if e.value.Start? {
          return Some(e.value.node);
        }
      }
    }
  }

  /** Every node `descendants` yields: the pre-order of the root's subtree. */
  method DescendantsAll<T>(root: ArenaNode<T>, ghost S: set<ArenaNode<T>>, ghost sh: Shape<ArenaNode<T>>)
    returns (out: seq<ArenaNode<T>>)
    requires Walkable(PictureOf(S), sh, root)
    ensures out == PreOrder(sh, root)
  {
    ghost var m := PictureOf(S);
    ghost var pre := PreOrder(sh, root);
    var d := new Descendants(root);
    ProgressStart(m, sh, root);
    out := [];
    while true
      invariant fresh(d.traverse) && d.traverse.root == root && unchanged(S)
      invariant Progress(m, sh, root, d.traverse.next, d.traverse.steps)
      invariant Emitted(sh, root, d.traverse.steps) == |out| <= |pre| && out == pre[..|out|]
      decreases |pre| - |out|
    {
      PictureFrame(S);
      var x := d.Next(S, m, sh);
      if x.None? {
        assert out == pre;
        return;
      }
      PrefixSnoc(pre, |out|);
      out := out + [x.value];
    }
  }

  /** `find_node`: the Start edges of a traversal of `root`, in order, until one
      carries `v` — the first node of the pre-order of `root`'s subtree whose data is
      `v`, or `None`. */
  method FindNode<T(==)>(root: ArenaNode<T>, v: T, ghost S: set<ArenaNode<T>>, ghost sh: Shape<ArenaNode<T>>)
    returns (r: Option<ArenaNode<T>>)
    requires Walkable(PictureOf(S), sh, root)
    ensures r == FirstMatch<ArenaNode<T>, T>(PreOrder(sh, root), ContentsOf(S), v)
  {
    ghost var m := PictureOf(S);
    ghost var data := ContentsOf(S);
    ghost var pre := PreOrder(sh, root);
    var t := new Traverse(root);
    ProgressStart(m, sh, root);
    assert pre[0..] == pre;
    while true
      invariant fresh(t) && t.root == root && unchanged(S)
      invariant Progress(m, sh, root, t.next, t.steps)
      invariant Searched(pre, data, v, Emitted(sh, root, t.steps))
      decreases |Edges(sh, root)| - t.steps
    {
      if t.next.None? {
        SearchEnd(m, sh, root, t.steps, data, v);
        return None;
      }
      SearchStep(m, sh, root, t.next.value, t.steps, data, v);
      PictureFrame(S);
      var e := t.Next(S, m);
      if e.value.Start? {
        var x := e.value.node;
        assert x in data && data[x] == x.data;
        if x.data == v {
          return Some(x);
        }
      }
    }
  }
}

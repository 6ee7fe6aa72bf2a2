/**
 * rctree: every node is a reference-counted cell (`Rc<RefCell<Node>>`); the
 * parent, last child and previous sibling links are weak references, the others
 * strong. `detach` takes (empties) the node's parent and sibling links, and the
 * four edits write every link a move needs.
 *
 * The heap of live nodes is represented by a ghost set `S`; its picture maps every
 * node of `S` to its current links. Weak links are read as always upgradable (every
 * node of `S` is alive), and `NodeRef` is the object reference itself. A
 * `borrow_mut` of a cell that is already borrowed panics: each edit requires that
 * the cells it borrows at the same time are distinct, and the Safe lemmas say when
 * that holds on a well-formed tree.
 */
module RcTree {
  import opened Wrappers
  import opened TreeShape
  import opened TreeEdit
  import opened TreeWalk
  import opened TreeAttach

  class Node<T> {
    var parent: Option<Node<T>>
    var firstChild: Option<Node<T>>
    var lastChild: Option<Node<T>>
    var prevSibling: Option<Node<T>>
    var nextSibling: Option<Node<T>>
    const data: T

    function Fields(): Links<Node<T>>
      reads this
    {
      Links(parent, firstChild, lastChild, prevSibling, nextSibling)
    }

    /** `NodeRef::new`: a node without links. */
    constructor (data: T)
      ensures Fields() == NoLinks() && this.data == data
    {
      parent, firstChild, lastChild, prevSibling, nextSibling := None, None, None, None, None;
      this.data := data;
    }

    // The field writes through `borrow_mut`, each stated on the picture of the heap.

    method WriteParent(v: Option<Node<T>>, ghost S: set<Node<T>>)
      modifies this
      requires this in S
      ensures PictureOf(S) == SetParent(old(PictureOf(S)), this, v)
      ensures old(Closed(PictureOf(S))) && LinkIn(old(PictureOf(S)), v) ==> Closed(PictureOf(S))
    {
      ghost var m := PictureOf(S);
      parent := v;
      if Closed(m) && LinkIn(m, v) { SetClosed(m, this, v); }
    }

    method WriteFirst(v: Option<Node<T>>, ghost S: set<Node<T>>)
      modifies this
      requires this in S
      ensures PictureOf(S) == SetFirst(old(PictureOf(S)), this, v)
      ensures old(Closed(PictureOf(S))) && LinkIn(old(PictureOf(S)), v) ==> Closed(PictureOf(S))
    {
      ghost var m := PictureOf(S);
      firstChild := v;
      if Closed(m) && LinkIn(m, v) { SetClosed(m, this, v); }
    }

    method WriteLast(v: Option<Node<T>>, ghost S: set<Node<T>>)
      modifies this
      requires this in S
      ensures PictureOf(S) == SetLast(old(PictureOf(S)), this, v)
      ensures old(Closed(PictureOf(S))) && LinkIn(old(PictureOf(S)), v) ==> Closed(PictureOf(S))
    {
      ghost var m := PictureOf(S);
      lastChild := v;
      if Closed(m) && LinkIn(m, v) { SetClosed(m, this, v); }
    }

    method WritePrev(v: Option<Node<T>>, ghost S: set<Node<T>>)
      modifies this
      requires this in S
      ensures PictureOf(S) == SetPrev(old(PictureOf(S)), this, v)
      ensures old(Closed(PictureOf(S))) && LinkIn(old(PictureOf(S)), v) ==> Closed(PictureOf(S))
    {
      ghost var m := PictureOf(S);
      prevSibling := v;
      if Closed(m) && LinkIn(m, v) { SetClosed(m, this, v); }
    }

    method WriteNext(v: Option<Node<T>>, ghost S: set<Node<T>>)
      modifies this
      requires this in S
      ensures PictureOf(S) == SetNext(old(PictureOf(S)), this, v)
      ensures old(Closed(PictureOf(S))) && LinkIn(old(PictureOf(S)), v) ==> Closed(PictureOf(S))
    {
      ghost var m := PictureOf(S);
      nextSibling := v;
      if Closed(m) && LinkIn(m, v) { SetClosed(m, this, v); }
    }

    /** `Node::detach` (reached through `NodeRef::detach`, which borrows this node):
        take the parent, previous and next sibling links, then join the next side
        and the previous side around the node. */
    method Detach(ghost S: set<Node<T>>)
      modifies S
      requires this in S && Closed(PictureOf(S)) && DetachSpares(PictureOf(S), this, this)
      ensures PictureOf(S) == DetachTaken(old(PictureOf(S)), this) && Closed(PictureOf(S))
    {
      ghost var m := PictureOf(S);
      var p := parent;
      WriteParent(None, S);
      var prev := prevSibling;
      WritePrev(None, S);
      var next := nextSibling;
      WriteNext(None, S);
      TakeOrder(m, this);
      if next.Some? {
        next.value.WritePrev(prev, S);
      } else if p.Some? {
        p.value.WriteLast(prev, S);
      }
      if prev.Some? {
        prev.value.WriteNext(next, S);
      } else if p.Some? {
        p.value.WriteFirst(next, S);
      }
    }

    /** `append`: detach `n`, give it this node as parent, take the last child and
        link `n` after it (or make `n` the first child), and make `n` the last
        child. */
    method Append(n: Node<T>, ghost S: set<Node<T>>)
      modifies S
      requires this in S && n in S && Closed(PictureOf(S)) && AppendBorrows(PictureOf(S), this, n)
      ensures PictureOf(S) == AttachLast(DetachTaken(old(PictureOf(S)), n), this, n) && Closed(PictureOf(S))
    {
      n.Detach(S);
      ghost var d := PictureOf(S);
      n.WriteParent(Some(this), S);
      var last := lastChild;
      WriteLast(None, S);
      if last.Some? {
        n.WritePrev(last, S);
      }
      WriteLast(Some(n), S);
      if last.Some? {
        last.value.WriteNext(Some(n), S);
      } else {
        WriteFirst(Some(n), S);
      }
      RcAttachLastIs(d, this, n);
    }

    /** `prepend`: detach `n`, give it this node as parent, take the first child and
        link `n` before it (or make `n` the last child), and make `n` the first
        child. */
    method Prepend(n: Node<T>, ghost S: set<Node<T>>)
      modifies S
      requires this in S && n in S && Closed(PictureOf(S)) && PrependBorrows(PictureOf(S), this, n)
      ensures PictureOf(S) == AttachFirst(DetachTaken(old(PictureOf(S)), n), this, n) && Closed(PictureOf(S))
    {
      n.Detach(S);
      ghost var d := PictureOf(S);
      n.WriteParent(Some(this), S);
      var first := firstChild;
      WriteFirst(None, S);
      if first.Some? {
        first.value.WritePrev(Some(n), S);
        n.WriteNext(first, S);
      } else {
        WriteLast(Some(n), S);
      }
      WriteFirst(Some(n), S);
      RcAttachFirstIs(d, this, n);
    }

    /** `insert_after`: detach `n`, give it this node's parent and this node as
        previous sibling, take the next sibling and link `n` before it (or make `n`
        the parent's last child), and make `n` this node's next sibling. */
    method InsertAfter(n: Node<T>, ghost S: set<Node<T>>)
      modifies S
      requires this in S && n in S && Closed(PictureOf(S)) && InsertAfterBorrows(PictureOf(S), this, n)
      ensures PictureOf(S) == AttachAfter(DetachTaken(old(PictureOf(S)), n), this, n) && Closed(PictureOf(S))
    {
      n.Detach(S);
      ghost var d := PictureOf(S);
      var p := parent;
      n.WriteParent(p, S);
      n.WritePrev(Some(this), S);
      var next := nextSibling;
      WriteNext(None, S);
      if next.Some? {
        next.value.WritePrev(Some(n), S);
        n.WriteNext(next, S);
      } else if p.Some? {
        p.value.WriteLast(Some(n), S);
      }
      WriteNext(Some(n), S);
      RcAttachAfterIs(d, this, n);
    }

    /** `insert_before`: detach `n`, give it this node's parent and this node as
        next sibling, take the previous sibling and link `n` after it (or make `n`
        the parent's first child), and make `n` this node's previous sibling. */
    method InsertBefore(n: Node<T>, ghost S: set<Node<T>>)
      modifies S
      requires this in S && n in S && Closed(PictureOf(S)) && InsertBeforeBorrows(PictureOf(S), this, n)
      ensures PictureOf(S) == RcAttachBefore(DetachTaken(old(PictureOf(S)), n), this, n) && Closed(PictureOf(S))
    {
      n.Detach(S);
      var p := parent;
      n.WriteParent(p, S);
      n.WriteNext(Some(this), S);
      var prev := prevSibling;
      WritePrev(None, S);
      if prev.Some? {
        n.WritePrev(prev, S);
      }
      WritePrev(Some(n), S);
      if prev.Some? {
        prev.value.WriteNext(Some(n), S);
      } else if p.Some? {
        p.value.WriteFirst(Some(n), S);
      }
    }
  }

  /** The picture of the heap `S`: every node with its current links. */
  function PictureOf<T>(S: set<Node<T>>): (m: Picture<Node<T>>)
    reads S
    ensures m.Keys == S
  {
    map x | x in S :: x.Fields()
  }

  /** Nothing in the heap changed since the enclosing method began, so neither its
      picture did. */
  twostate lemma PictureFrame<T>(S: set<Node<T>>)
    requires unchanged(S)
    ensures PictureOf(S) == old(PictureOf(S))
  {
  }

  function ContentsOf<T>(S: set<Node<T>>): (d: map<Node<T>, T>)
    ensures d.Keys == S
  {
    map x | x in S :: x.data
  }

  // ---------------------------------------------------------------------------
  // The cells each edit borrows at the same time

  /** `Node::detach` of `n` borrows the next sibling of `n` (or else its parent),
      then the previous sibling (or else the parent), while `x` is borrowed. */
  ghost predicate DetachSpares<Id>(m: Picture<Id>, n: Id, x: Id)
    requires n in m
  {
    var l := m[n];
    && (if l.nextSibling.Some? then l.nextSibling.value != x else l.parent != Some(x))
    && (if l.prevSibling.Some? then l.prevSibling.value != x else l.parent != Some(x))
  }

  /** `append` borrows `q`, then `n` (detached while both are borrowed), and finally
      the old last child while `q` is still borrowed. */
  ghost predicate AppendBorrows<Id>(m: Picture<Id>, q: Id, n: Id)
    requires Closed(m) && q in m && n in m
  {
    && q != n && DetachSpares(m, n, n) && DetachSpares(m, n, q)
    && DetachTaken(m, n)[q].lastChild != Some(q)
  }

  /** `prepend` borrows `q` and `n`, and the old first child while both are
      borrowed. */
  ghost predicate PrependBorrows<Id>(m: Picture<Id>, q: Id, n: Id)
    requires Closed(m) && q in m && n in m
  {
    && q != n && DetachSpares(m, n, n) && DetachSpares(m, n, q)
    && DetachTaken(m, n)[q].firstChild != Some(q) && DetachTaken(m, n)[q].firstChild != Some(n)
  }

  /** `insert_after` borrows `s` and `n`, and while both are borrowed the next
      sibling of `s` or, when there is none, its parent. */
  ghost predicate InsertAfterBorrows<Id>(m: Picture<Id>, s: Id, n: Id)
    requires Closed(m) && s in m && n in m
  {
    && s != n && DetachSpares(m, n, n) && DetachSpares(m, n, s)
    && var l := DetachTaken(m, n)[s];
       if l.nextSibling.Some? then l.nextSibling.value != s && l.nextSibling.value != n
       else l.parent != Some(s) && l.parent != Some(n)
  }

  /** `insert_before` borrows `s` and `n`, and after releasing `n` the previous
      sibling of `s` or, when there is none, its parent. */
  ghost predicate InsertBeforeBorrows<Id>(m: Picture<Id>, s: Id, n: Id)
    requires Closed(m) && s in m && n in m
  {
    && s != n && DetachSpares(m, n, n) && DetachSpares(m, n, s)
    && var l := DetachTaken(m, n)[s];
       if l.prevSibling.Some? then l.prevSibling.value != s else l.parent != Some(s)
  }

  // ---------------------------------------------------------------------------
  // The writes each edit performs after its `detach`, in rctree's order

  /** The three takes that open `Node::detach` (parent, previous sibling, next
      sibling) leave the same links as the order `DetachTaken` lists them in. */
  lemma TakeOrder<Id>(m: Picture<Id>, n: Id)
    requires n in m
    ensures SetNext(SetPrev(SetParent(m, n, None), n, None), n, None)
         == SetPrev(SetNext(SetParent(m, n, None), n, None), n, None)
  {
    assert m[n].(parent := None, prevSibling := None, nextSibling := None)
        == m[n].(parent := None, nextSibling := None, prevSibling := None);
  }

  /** `append` after its detach: `n` gets parent `q`; the last child of `q` is taken
      and becomes the previous sibling of `n`; `n` becomes the last child; the old
      last child (or else `q` as first child) is linked to `n`. */
  function RcAttachLast<Id>(d: Picture<Id>, q: Id, n: Id): (r: Picture<Id>)
    requires q in d && n in d && LinkIn(d, d[q].lastChild)
    ensures r.Keys == d.Keys
  {
    var last := d[q].lastChild;
    var d1 := SetLast(SetParent(d, n, Some(q)), q, None);
    var d2 := SetLast(if last.Some? then SetPrev(d1, n, last) else d1, q, Some(n));
    if last.Some? then SetNext(d2, last.value, Some(n)) else SetFirst(d2, q, Some(n))
  }

  /** `prepend` after its detach: `n` gets parent `q`; the first child of `q` is
      taken, names `n` as previous sibling and becomes its next sibling (or else `n`
      becomes the last child); `n` becomes the first child. */
  function RcAttachFirst<Id>(d: Picture<Id>, q: Id, n: Id): (r: Picture<Id>)
    requires q in d && n in d && LinkIn(d, d[q].firstChild)
    ensures r.Keys == d.Keys
  {
    var first := d[q].firstChild;
    var d1 := SetFirst(SetParent(d, n, Some(q)), q, None);
    var d2 := if first.Some? then SetNext(SetPrev(d1, first.value, Some(n)), n, first) else SetLast(d1, q, Some(n));
    SetFirst(d2, q, Some(n))
  }

  /** `insert_after` after its detach: `n` gets the parent of `s` and `s` as previous
      sibling; the next sibling of `s` is taken and linked after `n` (or else `n`
      becomes the parent's last child); `n` becomes the next sibling of `s`. */
  function RcAttachAfter<Id>(d: Picture<Id>, s: Id, n: Id): (r: Picture<Id>)
    requires s in d && n in d && LinkIn(d, d[s].parent) && LinkIn(d, d[s].nextSibling)
    ensures r.Keys == d.Keys
  {
    var parent := d[s].parent;
    var next := d[s].nextSibling;
    var d1 := SetNext(SetPrev(SetParent(d, n, parent), n, Some(s)), s, None);
    var d2 := if next.Some? then SetNext(SetPrev(d1, next.value, Some(n)), n, next)
              else if parent.Some? then SetLast(d1, parent.value, Some(n))
              else d1;
    SetNext(d2, s, Some(n))
  }

  /** `insert_before` after its detach: `n` gets the parent of `s` and `s` as next
      sibling; the previous sibling of `s` is taken and becomes the previous sibling
      of `n`; `n` becomes the previous sibling of `s`; finally the old previous
      sibling (or else the parent, as first child) is linked to `n`. */
  function RcAttachBefore<Id>(d: Picture<Id>, s: Id, n: Id): (r: Picture<Id>)
    requires s in d && n in d && LinkIn(d, d[s].parent) && LinkIn(d, d[s].prevSibling)
    ensures r.Keys == d.Keys
  {
    var parent := d[s].parent;
    var prev := d[s].prevSibling;
    var d1 := SetPrev(SetNext(SetParent(d, n, parent), n, Some(s)), s, None);
    var d2 := SetPrev(if prev.Some? then SetPrev(d1, n, prev) else d1, s, Some(n));
    if prev.Some? then SetNext(d2, prev.value, Some(n))
    else if parent.Some? then SetFirst(d2, parent.value, Some(n))
    else d2
  }

  /** rctree's `append` writes leave the same links as the shared `AttachLast`. */
  lemma RcAttachLastIs<Id>(d: Picture<Id>, q: Id, n: Id)
    requires q in d && n in d && q != n && LinkIn(d, d[q].lastChild)
    ensures RcAttachLast(d, q, n) == AttachLast(d, q, n)
  {
  }

  /** rctree's `prepend` writes leave the same links as the shared `AttachFirst`. */
  lemma RcAttachFirstIs<Id>(d: Picture<Id>, q: Id, n: Id)
    requires q in d && n in d && q != n && LinkIn(d, d[q].firstChild)
    ensures RcAttachFirst(d, q, n) == AttachFirst(d, q, n)
  {
  }

  /** rctree's `insert_after` writes leave the same links as the shared
      `AttachAfter`. */
  lemma RcAttachAfterIs<Id>(d: Picture<Id>, s: Id, n: Id)
    requires s in d && n in d && s != n && LinkIn(d, d[s].parent) && LinkIn(d, d[s].nextSibling)
    ensures RcAttachAfter(d, s, n) == AttachAfter(d, s, n)
  {
  }

  /** rctree's `insert_before` writes leave the same links as the shared
      `AttachBefore` unless the previous sibling of `s` is `n` itself; in that case
      `n` ends up as its own next sibling instead of naming `s`. */
  lemma RcAttachBeforeIs<Id>(d: Picture<Id>, s: Id, n: Id)
    requires s in d && n in d && s != n && LinkIn(d, d[s].parent) && LinkIn(d, d[s].prevSibling)
    ensures RcAttachBefore(d, s, n) == AttachBefore(d, s, n) <==> d[s].prevSibling != Some(n)
  {
  }

  // ---------------------------------------------------------------------------
  // The edits on a well-formed tree

  /** The end children of `q` in a well-formed picture: the first one has no previous
      sibling, the last one no next sibling, both name `q` as parent and rank below
      it, and one exists exactly when the other does. */
  lemma EndChildren<Id>(m: Picture<Id>, sh: Shape<Id>, q: Id)
    requires Valid(m, sh) && q in m
    ensures m[q].firstChild.None? <==> m[q].lastChild.None?
    ensures m[q].firstChild.Some? ==> var c := m[q].firstChild.value;
      c in m && m[c].parent == Some(q) && m[c].prevSibling.None? && c in sh.rank && sh.rank[c] < sh.rank[q]
    ensures m[q].lastChild.Some? ==> var c := m[q].lastChild.value;
      c in m && m[c].parent == Some(q) && m[c].nextSibling.None? && c in sh.rank && sh.rank[c] < sh.rank[q]
  {
    var cs := sh.kids[q];
    assert ListLinked(m, q, cs);
    if cs != [] {
      assert m[cs[0]].prevSibling == Before(cs, 0);
      assert m[cs[|cs| - 1]].nextSibling == After(cs, |cs| - 1);
    }
  }

  /** The `debug_assert` of `append` holds on a well-formed tree: once `n` is
      detached, a node without last child has no first child either. */
  lemma AppendDebugAssert<Id>(m: Picture<Id>, sh: Shape<Id>, q: Id, n: Id)
    requires Valid(m, sh) && Closed(m) && q in m && n in m
    ensures DetachTaken(m, n)[q].lastChild.None? ==> DetachTaken(m, n)[q].firstChild.None?
  {
    DetachMoves(m, sh, n);
    EndChildren(DetachTaken(m, n), sh.(kids := KidsWithout(m, sh.kids, n)), q);
  }

  /** The first `debug_assert` of `prepend` holds on a well-formed tree: once `n` is
      detached, the first child of `q` has no previous sibling. (The second one
      checks a field `prepend` has just taken, so it always holds.) */
  lemma PrependDebugAssert<Id>(m: Picture<Id>, sh: Shape<Id>, q: Id, n: Id)
    requires Valid(m, sh) && Closed(m) && q in m && n in m
    ensures var d := DetachTaken(m, n);
      d[q].firstChild.Some? ==> d[q].firstChild.value in d && d[d[q].firstChild.value].prevSibling.None?
  {
    DetachMoves(m, sh, n);
    EndChildren(DetachTaken(m, n), sh.(kids := KidsWithout(m, sh.kids, n)), q);
  }

  /** On a well-formed tree `append` and `prepend` borrow no cell twice unless `n`
      is already a child of `q` or a sibling of it. */
  lemma AppendSafe<Id>(m: Picture<Id>, sh: Shape<Id>, q: Id, n: Id)
    requires Valid(m, sh) && Closed(m) && q in m && n in m && q != n
    requires m[n].parent != Some(q) && m[n].prevSibling != Some(q) && m[n].nextSibling != Some(q)
    ensures AppendBorrows(m, q, n) && PrependBorrows(m, q, n)
  {
    NotSelfLinked(m, sh, n);
    DetachMoves(m, sh, n);
    EndChildren(DetachTaken(m, n), sh.(kids := KidsWithout(m, sh.kids, n)), q);
  }

  /** On a well-formed tree `insert_after` and `insert_before` borrow no cell twice
      unless `n` is a child or a sibling of `s`, or the parent of `s`. */
  lemma InsertSafe<Id>(m: Picture<Id>, sh: Shape<Id>, s: Id, n: Id)
    requires Valid(m, sh) && Closed(m) && s in m && n in m && s != n
    requires m[n].parent != Some(s) && m[n].prevSibling != Some(s) && m[n].nextSibling != Some(s)
    requires m[s].parent != Some(n)
    ensures InsertAfterBorrows(m, s, n) && InsertBeforeBorrows(m, s, n)
  {
    var d := DetachTaken(m, n);
    var sh1 := sh.(kids := KidsWithout(m, sh.kids, n));
    NotSelfLinked(m, sh, n);
    DetachMoves(m, sh, n);
    NotSelfLinked(d, sh1, s);
    NeighbourLinks(d, sh1, s);
    assert d[s].parent == m[s].parent;
  }

  /** On a well-formed tree rctree's `insert_before` leaves the links of the shared
      `AttachBefore`, so it moves `n` immediately before `s` (see InsertBeforeMoves). */
  lemma InsertBeforeAgrees<Id>(m: Picture<Id>, sh: Shape<Id>, s: Id, n: Id)
    requires Valid(m, sh) && Closed(m) && s in m && n in m && s != n
    ensures RcAttachBefore(DetachTaken(m, n), s, n) == AttachBefore(DetachTaken(m, n), s, n)
  {
    var d := DetachTaken(m, n);
    DetachMoves(m, sh, n);
    NeighbourLinks(d, sh.(kids := KidsWithout(m, sh.kids, n)), s);
    RcAttachBeforeIs(d, s, n);
  }

  // ---------------------------------------------------------------------------
  // The node iterators: `Ancestors`, `PrecedingSiblings`, `FollowingSiblings`,
  // `Children` and `ReverseChildren` differ only in the link they follow

  class NodeIter<T> {
    const link: Link
    var node: Option<Node<T>>

    constructor (link: Link, start: Option<Node<T>>)
      ensures this.link == link && node == start
    {
      this.link := link;
      node := start;
    }

    /** `next`: yield the current node and move along the link. */
    method Next() returns (r: Option<Node<T>>)
      modifies this
      ensures r == old(node)
      ensures node == if r.Some? then Follow(r.value.Fields(), link) else None
    {
      r := node;
      if r.Some? {
        var x := r.value;
        node := match link
          case ParentLink => x.parent
          case PrevLink => x.prevSibling
          case NextLink => x.nextSibling;
      }
    }
  }

  /** `ancestors`: starts at `n` itself. */
  method Ancestors<T>(n: Node<T>) returns (it: NodeIter<T>)
    ensures fresh(it) && it.link == ParentLink && it.node == Some(n)
  {
    it := new NodeIter(ParentLink, Some(n));
  }

  /** `preceding_siblings`: starts at `n` itself. */
  method PrecedingSiblings<T>(n: Node<T>) returns (it: NodeIter<T>)
    ensures fresh(it) && it.link == PrevLink && it.node == Some(n)
  {
    it := new NodeIter(PrevLink, Some(n));
  }

  /** `following_siblings`: starts at `n` itself. */
  method FollowingSiblings<T>(n: Node<T>) returns (it: NodeIter<T>)
    ensures fresh(it) && it.link == NextLink && it.node == Some(n)
  {
    it := new NodeIter(NextLink, Some(n));
  }

  /** `children`: starts at the first child of `p`. */
  method Children<T>(p: Node<T>) returns (it: NodeIter<T>)
    ensures fresh(it) && it.link == NextLink && it.node == p.firstChild
  {
    it := new NodeIter(NextLink, p.firstChild);
  }

  /** `reverse_children`: starts at the last child of `p`. */
  method ReverseChildren<T>(p: Node<T>) returns (it: NodeIter<T>)
    ensures fresh(it) && it.link == PrevLink && it.node == p.lastChild
  {
    it := new NodeIter(PrevLink, p.lastChild);
  }

  /** Everything a relationship iterator yields in a well-formed tree: the walk
      from its current node. */
  method Collect<T>(it: NodeIter<T>, ghost S: set<Node<T>>, ghost sh: Shape<Node<T>>)
    returns (out: seq<Node<T>>)
    modifies it
    requires Valid(PictureOf(S), sh) && (it.node.Some? ==> it.node.value in S)
    ensures out == WalkFrom(old(PictureOf(S)), sh, it.link, old(it.node)) && it.node.None?
  {
    ghost var m := PictureOf(S);
    ghost var start := it.node;
    out := [];
    while it.node.Some?
      invariant unchanged(S)
      invariant it.node.Some? ==> it.node.value in m
      invariant out + WalkFrom(m, sh, it.link, it.node) == WalkFrom(m, sh, it.link, start)
      decreases if it.node.Some? then WalkMeasure(m, sh, it.link, it.node.value) + 1 else 0
    {
      ghost var y := it.node.value;
      WalkFromStep(m, sh, it.link, y);
      var r := it.Next();
      PictureFrame(S);
      assert r.value.Fields() == m[y];
      if it.node.Some? { FollowDecreases(m, sh, it.link, y); }
      out := out + [r.value];
    }
  }

  // ---------------------------------------------------------------------------
  // `Traverse` and `Descendants`

  class Traverse<T> {
    const root: Node<T>
    var next: Option<Edge<Node<T>>>
    /** The number of edges emitted so far. */
    ghost var steps: nat

    /** `traverse`: the first edge is Start(root). */
    constructor (root: Node<T>)
      ensures this.root == root && next == Some(Start(root)) && steps == 0
    {
      this.root := root;
      next := Some(Start(root));
      steps := 0;
    }

    /** `next`: yield the pending edge and compute the one after it. */
    method Next(ghost S: set<Node<T>>, ghost m: Picture<Node<T>>) returns (r: Option<Edge<Node<T>>>)
      modifies this
      requires m == PictureOf(S) && (next.Some? ==> next.value.node in S)
      ensures r == old(next) && steps == old(steps) + (if r.Some? then 1 else 0)
      ensures next == if r.Some? then TraverseNext(m, root, r.value) else None
    {
      r := next;
      if r.Some? {
        var x := r.value.node;
        assert x.Fields() == m[x];
        steps := steps + 1;
        match r.value
        case Start(_) =>
          next := if x.firstChild.Some? then Some(Start(x.firstChild.value)) else Some(End(x));
        case End(_) =>
          next := if x == root then None
                  else if x.nextSibling.Some? then Some(Start(x.nextSibling.value))
                  else if x.parent.Some? then Some(End(x.parent.value))
                  else None;
      }
    }
  }

  /** Every edge a fresh traversal yields in a well-formed tree: the bracketed walk
      of the subtree of its root. */
  method TraverseAll<T>(root: Node<T>, ghost S: set<Node<T>>, ghost sh: Shape<Node<T>>)
    returns (out: seq<Edge<Node<T>>>)
    requires Walkable(PictureOf(S), sh, root)
    ensures out == Edges(sh, root)
    ensures out[0] == Start(root) && out[|out| - 1] == End(root)
    ensures forall e | e in out :: e.node in PreOrder(sh, root)
  {
    ghost var m := PictureOf(S);
    var t := new Traverse(root);
    ProgressStart(m, sh, root);
    out := [];
    while t.next.Some?
      invariant fresh(t) && t.root == root && unchanged(S)
      invariant Progress(m, sh, root, t.next, t.steps) && out == Edges(sh, root)[..t.steps]
      decreases |Edges(sh, root)| - t.steps
    {
      ProgressStep(m, sh, root, t.next.value, t.steps);
      PictureFrame(S);
      var e := t.Next(S, m);
      PrefixSnoc(Edges(sh, root), t.steps - 1);
      out := out + [e.value];
    }
    ProgressEnd(m, sh, root, t.steps);
    assert out == Edges(sh, root);
    EdgesShape(sh, root);
  }

  class Descendants<T> {
    const traverse: Traverse<T>

    /** `descendants`: a traversal of `root` that keeps only Start edges. */
    constructor (root: Node<T>)
      ensures fresh(traverse) && traverse.root == root
      ensures traverse.next == Some(Start(root)) && traverse.steps == 0
    {
      traverse := new Traverse(root);
    }

    /** `next`: the next node of the pre-order of the root's subtree, or `None` once
        the traversal is over. */
    method Next(ghost S: set<Node<T>>, ghost m: Picture<Node<T>>, ghost sh: Shape<Node<T>>)
      returns (r: Option<Node<T>>)
      modifies traverse
      requires m == PictureOf(S) && Walkable(m, sh, traverse.root)
      requires Progress(m, sh, traverse.root, traverse.next, traverse.steps)
      ensures Progress(m, sh, traverse.root, traverse.next, traverse.steps)
      ensures var pre := PreOrder(sh, traverse.root);
        var i := Emitted(sh, traverse.root, old(traverse.steps));
        && r == (if i < |pre| then Some(pre[i]) else None)
        && Emitted(sh, traverse.root, traverse.steps) == i + (if r.Some? then 1 else 0)
    {
      ghost var root := traverse.root;
      ghost var k0 := traverse.steps;
      while true
        invariant unchanged(S) && traverse.root == root && k0 <= traverse.steps
        invariant Progress(m, sh, root, traverse.next, traverse.steps)
        invariant Emitted(sh, root, traverse.steps) == Emitted(sh, root, k0)
        decreases |Edges(sh, root)| - traverse.steps
      {
        PictureFrame(S);
        if traverse.next.None? {
          ProgressEnd(m, sh, root, traverse.steps);
          var _ := traverse.Next(S, m);
          return None;
        }
        ProgressStep(m, sh, root, traverse.next.value, traverse.steps);
        var e := traverse.Next(S, m);
        if e.value.Start? {
          return Some(e.value.node);
        }
      }
    }
  }

  /** Every node `descendants` yields: the pre-order of the root's subtree. */
  method DescendantsAll<T>(root: Node<T>, ghost S: set<Node<T>>, ghost sh: Shape<Node<T>>)
    returns (out: seq<Node<T>>)
    requires Walkable(PictureOf(S), sh, root)
    ensures out == PreOrder(sh, root)
  {
    ghost var m := PictureOf(S);
    ghost var pre := PreOrder(sh, root);
    var d := new Descendants(root);
    ProgressStart(m, sh, root);
    out := [];
    while true
      invariant fresh(d.traverse) && d.traverse.root == root && unchanged(S)
      invariant Progress(m, sh, root, d.traverse.next, d.traverse.steps)
      invariant Emitted(sh, root, d.traverse.steps) == |out| <= |pre| && out == pre[..|out|]
      decreases |pre| - |out|
    {
      PictureFrame(S);
      var x := d.Next(S, m, sh);
      if x.None? {
        assert out == pre;
        return;
      }
      PrefixSnoc(pre, |out|);
      out := out + [x.value];
    }
  }

  /** `find_node`: the Start edges of a traversal of `root`, in order, until one
      carries `v` — the first node of the pre-order of `root`'s subtree whose data is
      `v`, or `None`. */
  method FindNode<T(==)>(root: Node<T>, v: T, ghost S: set<Node<T>>, ghost sh: Shape<Node<T>>)
    returns (r: Option<Node<T>>)
    requires Walkable(PictureOf(S), sh, root)
    ensures r == FirstMatch<Node<T>, T>(PreOrder(sh, root), ContentsOf(S), v)
  {
    ghost var m := PictureOf(S);
    ghost var data := ContentsOf(S);
    ghost var pre := PreOrder(sh, root);
    var t := new Traverse(root);
    ProgressStart(m, sh, root);
    assert pre[0..] == pre;
    while true
      invariant fresh(t) && t.root == root && unchanged(S)
      invariant Progress(m, sh, root, t.next, t.steps)
      invariant Searched(pre, data, v, Emitted(sh, root, t.steps))
      decreases |Edges(sh, root)| - t.steps
    {
      if t.next.None? {
        SearchEnd(m, sh, root, t.steps, data, v);
        return None;
      }
      SearchStep(m, sh, root, t.next.value, t.steps, data, v);
      PictureFrame(S);
      var e := t.Next(S, m);
      if e.value.Start? {
        var x := e.value.node;
        assert x in data && data[x] == x.data;
        if x.data == v {
          return Some(x);
        }
      }
    }
  }
}

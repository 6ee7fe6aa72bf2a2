/**
 * The writes that `append`, `prepend`, `insert_before` and `insert_after` perform
 * once the moved node has been detached, shared by idtree and rctree (arena_tree's
 * two insertions write less, see ArenaTree). On a node without parent and sibling
 * links each write sequence is exactly a splice, and on a well-formed picture
 * detaching then attaching moves the node to the requested gap.
 */
module TreeAttach {
  import opened Wrappers
  import opened TreeShape
  import opened TreeEdit

  // ---------------------------------------------------------------------------
  // `detach` as arena_tree and rctree write it

  /** The node's parent and sibling links are taken (left empty) first; then the
      next side is joined (the next sibling's `prevSibling`, or the parent's
      `lastChild`), then the previous side. */
  function DetachTaken<Id>(m: Picture<Id>, n: Id): (r: Picture<Id>)
    requires n in m && NeighboursIn(m, n)
    ensures r.Keys == m.Keys && (Closed(m) ==> Closed(r))
  {
    var l := m[n];
    var m0 := SetPrev(SetNext(SetParent(m, n, None), n, None), n, None);
    var m1 := if l.nextSibling.Some? then SetPrev(m0, l.nextSibling.value, l.prevSibling)
              else if l.parent.Some? then SetLast(m0, l.parent.value, l.prevSibling) else m0;
    TakenClosed(m, n, m0, m1);
    if l.prevSibling.Some? then SetNext(m1, l.prevSibling.value, l.nextSibling)
    else if l.parent.Some? then SetFirst(m1, l.parent.value, l.nextSibling) else m1
  }

  lemma TakenClosed<Id>(m: Picture<Id>, n: Id, m0: Picture<Id>, m1: Picture<Id>)
    requires n in m && NeighboursIn(m, n)
    requires m0 == SetPrev(SetNext(SetParent(m, n, None), n, None), n, None)
    requires var l := m[n];
      m1 == if l.nextSibling.Some? then SetPrev(m0, l.nextSibling.value, l.prevSibling)
            else if l.parent.Some? then SetLast(m0, l.parent.value, l.prevSibling) else m0
    ensures m1.Keys == m.Keys
    ensures var l := m[n];
      Closed(m) ==> && Closed(m1)
                    && (l.prevSibling.Some? ==> Closed(SetNext(m1, l.prevSibling.value, l.nextSibling)))
                    && (l.parent.Some? ==> Closed(SetFirst(m1, l.parent.value, l.nextSibling)))
  {
    var l := m[n];
    if Closed(m) {
      SetClosed(m, n, None);
      SetClosed(SetParent(m, n, None), n, None);
      SetClosed(SetNext(SetParent(m, n, None), n, None), n, None);
      if l.nextSibling.Some? {
        SetClosed(m0, l.nextSibling.value, l.prevSibling);
      } else if l.parent.Some? {
        SetClosed(m0, l.parent.value, l.prevSibling);
      }
      if l.prevSibling.Some? {
        SetClosed(m1, l.prevSibling.value, l.nextSibling);
      }
      if l.parent.Some? {
        SetClosed(m1, l.parent.value, l.nextSibling);
      }
    }
  }

  /** Unless `n` is its own parent or sibling, those writes join the neighbours and
      clear `n`'s links exactly as `Detached` says. */
  lemma TakenIsDetached<Id>(m: Picture<Id>, n: Id)
    requires n in m && NeighboursIn(m, n)
    requires m[n].parent != Some(n) && m[n].prevSibling != Some(n) && m[n].nextSibling != Some(n)
    ensures DetachTaken(m, n) == Detached(m, n)
  {
  }

  /** On a well-formed picture `detach` is `Detached`, and detaching again changes
      nothing. */
  lemma DetachTakenValid<Id>(m: Picture<Id>, sh: Shape<Id>, n: Id)
    requires Valid(m, sh) && Closed(m) && n in m
    ensures DetachTaken(m, n) == Detached(m, n) && Free(Detached(m, n), n)
    ensures DetachTaken(Detached(m, n), n) == Detached(m, n)
  {
    NotSelfLinked(m, sh, n);
    TakenIsDetached(m, n);
    var d := Detached(m, n);
    assert d[n] == UnlinkedAt(m, n, n).(parent := None, prevSibling := None, nextSibling := None);
    assert Free(d, n);
    DetachFreeUnchanged(d, n);
  }

  /** `detach` of a node without parent and sibling links changes nothing. */
  lemma DetachFreeUnchanged<Id>(m: Picture<Id>, n: Id)
    requires Free(m, n)
    ensures DetachTaken(m, n) == m
  {
    assert m[n].(parent := None, nextSibling := None, prevSibling := None) == m[n];
  }

  // ---------------------------------------------------------------------------
  // The writes each edit performs after its `detach`, in source order

  /** `append`: `n` gets parent `q`, follows the old last child if there is one (or
      becomes the first child), and becomes the last child. */
  function AttachLast<Id>(d: Picture<Id>, q: Id, n: Id): (r: Picture<Id>)
    requires q in d && n in d && LinkIn(d, d[q].lastChild)
    ensures r.Keys == d.Keys
  {
    var d1 := SetParent(d, n, Some(q));
    var d2 := if d1[q].lastChild.Some? then SetPrev(SetNext(d1, d1[q].lastChild.value, Some(n)), n, d1[q].lastChild)
              else SetFirst(d1, q, Some(n));
    SetLast(d2, q, Some(n))
  }

  /** `prepend`: mirror image of `append` at the front of the list. */
  function AttachFirst<Id>(d: Picture<Id>, q: Id, n: Id): (r: Picture<Id>)
    requires q in d && n in d && LinkIn(d, d[q].firstChild)
    ensures r.Keys == d.Keys
  {
    var d1 := SetParent(d, n, Some(q));
    var d2 := if d1[q].firstChild.Some? then SetNext(SetPrev(d1, d1[q].firstChild.value, Some(n)), n, d1[q].firstChild)
              else SetLast(d1, q, Some(n));
    SetFirst(d2, q, Some(n))
  }

  /** `insert_before`: `n` goes between `s` and its previous sibling (or becomes the
      parent's first child) and takes the parent of `s`. */
  function AttachBefore<Id>(d: Picture<Id>, s: Id, n: Id): (r: Picture<Id>)
    requires s in d && n in d && LinkIn(d, d[s].parent) && LinkIn(d, d[s].prevSibling)
    ensures r.Keys == d.Keys
  {
    var parent := d[s].parent;
    var prev := d[s].prevSibling;
    var d1 := if prev.Some? then SetPrev(SetNext(d, prev.value, Some(n)), n, prev)
              else if parent.Some? then SetFirst(d, parent.value, Some(n))
              else d;
    SetParent(SetPrev(SetNext(d1, n, Some(s)), s, Some(n)), n, parent)
  }

  /** `insert_after`: `n` goes between `s` and its next sibling (or becomes the
      parent's last child) and takes the parent of `s`. */
  function AttachAfter<Id>(d: Picture<Id>, s: Id, n: Id): (r: Picture<Id>)
    requires s in d && n in d && LinkIn(d, d[s].parent) && LinkIn(d, d[s].nextSibling)
    ensures r.Keys == d.Keys
  {
    var parent := d[s].parent;
    var next := d[s].nextSibling;
    var d1 := SetNext(SetPrev(SetParent(d, n, parent), n, Some(s)), s, Some(n));
    if next.Some? then SetPrev(SetNext(d1, n, next), next.value, Some(n))
    else if parent.Some? then SetLast(d1, parent.value, Some(n))
    else d1
  }


  // ---------------------------------------------------------------------------
  // Edits of a node without parent and sibling links: exactly a splice

  lemma AttachLastSplices<Id>(d: Picture<Id>, kids: map<Id, seq<Id>>, q: Id, n: Id)
    requires Linked(d, kids) && Closed(d) && Free(d, n) && q in d && q != n
    ensures AttachLast(d, q, n) == Spliced(d, q, Left(kids[q], |kids[q]|), Right(kids[q], |kids[q]|), n)
  {
    var cs := kids[q];
    assert ListLinked(d, q, cs);
    if cs != [] {
      assert cs[|cs| - 1] != n;
    }
    AttachLastLocal(d, q, n);
  }

  lemma AttachLastLocal<Id>(d: Picture<Id>, q: Id, n: Id)
    requires q in d && n in d && q != n && LinkIn(d, d[q].lastChild) && d[q].lastChild != Some(n)
    requires d[n].prevSibling.None? && d[n].nextSibling.None?
    requires d[q].lastChild.None? ==> d[q].firstChild.None?
    ensures AttachLast(d, q, n) == Spliced(d, q, d[q].lastChild, None, n)
  {
  }

  lemma AttachFirstSplices<Id>(d: Picture<Id>, kids: map<Id, seq<Id>>, q: Id, n: Id)
    requires Linked(d, kids) && Closed(d) && Free(d, n) && q in d && q != n
    ensures AttachFirst(d, q, n) == Spliced(d, q, Left(kids[q], 0), Right(kids[q], 0), n)
  {
    var cs := kids[q];
    assert ListLinked(d, q, cs);
    if cs != [] {
      assert cs[0] != n;
    }
    AttachFirstLocal(d, q, n);
  }

  lemma AttachFirstLocal<Id>(d: Picture<Id>, q: Id, n: Id)
    requires q in d && n in d && q != n && LinkIn(d, d[q].firstChild) && d[q].firstChild != Some(n)
    requires d[n].prevSibling.None? && d[n].nextSibling.None?
    requires d[q].firstChild.None? ==> d[q].lastChild.None?
    ensures AttachFirst(d, q, n) == Spliced(d, q, None, d[q].firstChild, n)
  {
  }

  lemma AttachBeforeSplices<Id>(d: Picture<Id>, sh: Shape<Id>, s: Id, n: Id)
    requires Valid(d, sh) && Closed(d) && Free(d, n) && s in d && d[s].parent.Some? && d[s].parent.value != n
    ensures AttachBefore(d, s, n) == Spliced(d, d[s].parent.value, d[s].prevSibling, Some(s), n)
  {
    var kids := sh.kids;
    var p, i := GapAt(d, kids, s);
    assert ListLinked(d, p, kids[p]);
    if i > 0 {
      assert kids[p][i - 1] != n;
    }
    AttachBeforeLocal(d, s, n, p);
  }

  lemma AttachBeforeLocal<Id>(d: Picture<Id>, s: Id, n: Id, p: Id)
    requires s in d && n in d && p in d && d[s].parent == Some(p) && LinkIn(d, d[s].prevSibling)
    requires n != s && p != n && s != p && d[s].prevSibling != Some(n) && d[s].prevSibling != Some(s)
    requires d[n].prevSibling.None?
    ensures AttachBefore(d, s, n) == Spliced(d, p, d[s].prevSibling, Some(s), n)
  {
  }

  lemma AttachAfterSplices<Id>(d: Picture<Id>, sh: Shape<Id>, s: Id, n: Id)
    requires Valid(d, sh) && Closed(d) && Free(d, n) && s in d && d[s].parent.Some? && d[s].parent.value != n
    ensures AttachAfter(d, s, n) == Spliced(d, d[s].parent.value, Some(s), d[s].nextSibling, n)
  {
    var kids := sh.kids;
    var p, i := GapAt(d, kids, s);
    assert ListLinked(d, p, kids[p]);
    if i < |kids[p]| - 1 {
      assert kids[p][i + 1] != n;
    }
    AttachAfterLocal(d, s, n, p);
  }

  lemma AttachAfterLocal<Id>(d: Picture<Id>, s: Id, n: Id, p: Id)
    requires s in d && n in d && p in d && d[s].parent == Some(p) && LinkIn(d, d[s].nextSibling)
    requires n != s && p != n && s != p && d[s].nextSibling != Some(n) && d[s].nextSibling != Some(s)
    requires d[n].nextSibling.None?
    ensures AttachAfter(d, s, n) == Spliced(d, p, Some(s), d[s].nextSibling, n)
  {
  }

  // ---------------------------------------------------------------------------
  // The edits on a well-formed picture, after a detach that clears `n`'s links
  // (what the edits need; `detach` itself keeps them, see the Stale lemmas below)

  lemma InsertAtEnds<T>(cs: seq<T>, x: T)
    ensures InsertAt(cs, |cs|, x) == cs + [x] && InsertAt(cs, 0, x) == [x] + cs
  {
    assert cs[..|cs|] == cs && cs[|cs|..] == [] && cs[..0] == [] && cs[0..] == cs;
  }

  /** `n` becomes the last child of `q`; every other list only loses `n`. */
  lemma AppendDetached<Id>(m: Picture<Id>, sh: Shape<Id>, q: Id, n: Id)
    requires Valid(m, sh) && Closed(m) && n in m && q in m && q !in PreOrder(sh, n)
    ensures var k1 := KidsWithout(m, sh.kids, n);
      && Valid(AttachLast(Detached(m, n), q, n), Moved(m, sh, n, q, |k1[q]|))
      && Moved(m, sh, n, q, |k1[q]|).kids == k1[q := k1[q] + [n]]
  {
    var k1 := KidsWithout(m, sh.kids, n);
    var d := Detached(m, n);
    PreOrderHasSelf(sh, n);
    DetachLinked(m, sh, n);
    AttachLastSplices(d, k1, q, n);
    MoveValid(m, sh, n, q, |k1[q]|);
    InsertAtEnds(k1[q], n);
  }

  /** `n` becomes the first child of `q`; every other list only loses `n`. */
  lemma PrependDetached<Id>(m: Picture<Id>, sh: Shape<Id>, q: Id, n: Id)
    requires Valid(m, sh) && Closed(m) && n in m && q in m && q !in PreOrder(sh, n)
    ensures var k1 := KidsWithout(m, sh.kids, n);
      && Valid(AttachFirst(Detached(m, n), q, n), Moved(m, sh, n, q, 0))
      && Moved(m, sh, n, q, 0).kids == k1[q := [n] + k1[q]]
  {
    var k1 := KidsWithout(m, sh.kids, n);
    var d := Detached(m, n);
    PreOrderHasSelf(sh, n);
    DetachLinked(m, sh, n);
    AttachFirstSplices(d, k1, q, n);
    MoveValid(m, sh, n, q, 0);
    InsertAtEnds(k1[q], n);
  }

  /** `n` takes the parent `p` of `s` and sits immediately before `s` in its list. */
  lemma InsertBeforeDetached<Id>(m: Picture<Id>, sh: Shape<Id>, s: Id, n: Id)
    requires Valid(m, sh) && Closed(m) && n in m && s in m && s != n && m[s].parent.Some?
    requires m[s].parent.value !in PreOrder(sh, n)
    ensures var k1 := KidsWithout(m, sh.kids, n);
      var p := m[s].parent.value;
      && p in k1 && s in k1[p]
      && Valid(AttachBefore(Detached(m, n), s, n), Moved(m, sh, n, p, IndexOf(k1[p], s)))
      && Moved(m, sh, n, p, IndexOf(k1[p], s)).kids == k1[p := InsertAt(k1[p], IndexOf(k1[p], s), n)]
  {
    var k1 := KidsWithout(m, sh.kids, n);
    var d := Detached(m, n);
    var p := m[s].parent.value;
    PreOrderHasSelf(sh, n);
    DetachLinked(m, sh, n);
    DetachRanked(m, sh, n);
    assert Valid(d, sh.(kids := k1));
    var p', j := GapAt(d, k1, s);
    AttachBeforeSplices(d, sh.(kids := k1), s, n);
    MoveValid(m, sh, n, p, j);
  }

  /** `n` takes the parent `p` of `s` and sits immediately after `s` in its list. */
  lemma InsertAfterDetached<Id>(m: Picture<Id>, sh: Shape<Id>, s: Id, n: Id) returns (p: Id, j: nat)
    requires Valid(m, sh) && Closed(m) && n in m && s in m && s != n && m[s].parent.Some?
    requires m[s].parent.value !in PreOrder(sh, n)
    ensures var k1 := KidsWithout(m, sh.kids, n);
      && p == m[s].parent.value && p in k1 && s in k1[p]
      && j == IndexOf(k1[p], s) + 1 && j <= |k1[p]|
      && Valid(AttachAfter(Detached(m, n), s, n), Moved(m, sh, n, p, j))
      && Moved(m, sh, n, p, j).kids == k1[p := InsertAt(k1[p], j, n)]
  {
    var k1 := KidsWithout(m, sh.kids, n);
    var d := Detached(m, n);
    p := m[s].parent.value;
    PreOrderHasSelf(sh, n);
    DetachLinked(m, sh, n);
    DetachRanked(m, sh, n);
    assert Valid(d, sh.(kids := k1));
    var p';
    p', j := GapAfter(d, k1, s);
    AttachAfterSplices(d, sh.(kids := k1), s, n);
    assert p' == p;
    MoveValid(m, sh, n, p, j);
  }

  // ---------------------------------------------------------------------------
  // `detach` and the edits after it, on a well-formed picture

  /** `detach` of a node leaves it free and every children list without it. */
  lemma DetachMoves<Id>(m: Picture<Id>, sh: Shape<Id>, n: Id)
    requires Valid(m, sh) && Closed(m) && n in m
    ensures Free(DetachTaken(m, n), n)
    ensures Valid(DetachTaken(m, n), sh.(kids := KidsWithout(m, sh.kids, n)))
  {
    DetachTakenValid(m, sh, n);
    DetachLinked(m, sh, n);
    DetachRanked(m, sh, n);
  }

  /** `append`: `n` becomes the last child of `q`; the other lists only lose `n`. */
  lemma AppendMoves<Id>(m: Picture<Id>, sh: Shape<Id>, q: Id, n: Id)
    requires Valid(m, sh) && Closed(m) && n in m && q in m && q !in PreOrder(sh, n)
    ensures var k1 := KidsWithout(m, sh.kids, n);
      && Valid(AttachLast(DetachTaken(m, n), q, n), Moved(m, sh, n, q, |k1[q]|))
      && Moved(m, sh, n, q, |k1[q]|).kids == k1[q := k1[q] + [n]]
  {
    DetachTakenValid(m, sh, n);
    AppendDetached(m, sh, q, n);
  }

  /** `prepend`: `n` becomes the first child of `q`; the other lists only lose `n`. */
  lemma PrependMoves<Id>(m: Picture<Id>, sh: Shape<Id>, q: Id, n: Id)
    requires Valid(m, sh) && Closed(m) && n in m && q in m && q !in PreOrder(sh, n)
    ensures var k1 := KidsWithout(m, sh.kids, n);
      && Valid(AttachFirst(DetachTaken(m, n), q, n), Moved(m, sh, n, q, 0))
      && Moved(m, sh, n, q, 0).kids == k1[q := [n] + k1[q]]
  {
    DetachTakenValid(m, sh, n);
    PrependDetached(m, sh, q, n);
  }

  /** `insert_before` (as rctree writes it, and arena_tree corrected): `n` sits immediately before `s` among the
      children of the parent of `s`. */
  lemma InsertBeforeMoves<Id>(m: Picture<Id>, sh: Shape<Id>, s: Id, n: Id)
    requires Valid(m, sh) && Closed(m) && n in m && s in m && s != n && m[s].parent.Some?
    requires m[s].parent.value !in PreOrder(sh, n)
    ensures var k1 := KidsWithout(m, sh.kids, n);
      var p := m[s].parent.value;
      && p in k1 && s in k1[p]
      && Valid(AttachBefore(DetachTaken(m, n), s, n), Moved(m, sh, n, p, IndexOf(k1[p], s)))
      && Moved(m, sh, n, p, IndexOf(k1[p], s)).kids == k1[p := InsertAt(k1[p], IndexOf(k1[p], s), n)]
  {
    DetachTakenValid(m, sh, n);
    InsertBeforeDetached(m, sh, s, n);
  }

  /** `insert_after` (as rctree writes it, and arena_tree corrected): `n` sits immediately after `s` among the
      children of the parent of `s`. */
  lemma InsertAfterMoves<Id>(m: Picture<Id>, sh: Shape<Id>, s: Id, n: Id) returns (p: Id, j: nat)
    requires Valid(m, sh) && Closed(m) && n in m && s in m && s != n && m[s].parent.Some?
    requires m[s].parent.value !in PreOrder(sh, n)
    ensures var k1 := KidsWithout(m, sh.kids, n);
      && p == m[s].parent.value && p in k1 && s in k1[p]
      && j == IndexOf(k1[p], s) + 1 && j <= |k1[p]|
      && Valid(AttachAfter(DetachTaken(m, n), s, n), Moved(m, sh, n, p, j))
      && Moved(m, sh, n, p, j).kids == k1[p := InsertAt(k1[p], j, n)]
  {
    DetachTakenValid(m, sh, n);
    p, j := InsertAfterDetached(m, sh, s, n);
  }
}

/**
 * Structural edits of a well-formed picture, shared by the three linked trees:
 * unlinking a node from its parent and siblings, and splicing a free node in at a
 * position among the children of a node. Both are defined node by node: the new
 * links of every node as a function of its old links and of the moved node's links.
 * Each tree's own operations (written in its own order of field writes) are shown
 * equal to compositions of these, and these are shown to keep the picture well
 * formed with the expected children lists.
 */
module TreeEdit {
  import opened Wrappers
  import opened TreeShape

  /** The parent and sibling links of `n` point into the picture. */
  ghost predicate NeighboursIn<Id>(m: Picture<Id>, n: Id)
    requires n in m
  {
    && (m[n].parent.Some? ==> m[n].parent.value in m)
    && (m[n].prevSibling.Some? ==> m[n].prevSibling.value in m)
    && (m[n].nextSibling.Some? ==> m[n].nextSibling.value in m)
  }

  predicate LinkIn<Id>(m: Picture<Id>, o: Option<Id>) { o.Some? ==> o.value in m }

  /** Every link names a node of the picture: the trees index their storage with
      link values, so this is what keeps every read in bounds. */
  ghost predicate Closed<Id>(m: Picture<Id>)
  {
    forall x | x in m ::
      && LinkIn(m, m[x].parent) && LinkIn(m, m[x].firstChild) && LinkIn(m, m[x].lastChild)
      && LinkIn(m, m[x].prevSibling) && LinkIn(m, m[x].nextSibling)
  }

  // ---------------------------------------------------------------------------
  // Single-field writes, the steps every tree's edits are made of

  function SetParent<Id>(m: Picture<Id>, x: Id, v: Option<Id>): Picture<Id> requires x in m { m[x := m[x].(parent := v)] }
  function SetFirst<Id>(m: Picture<Id>, x: Id, v: Option<Id>): Picture<Id> requires x in m { m[x := m[x].(firstChild := v)] }
  function SetLast<Id>(m: Picture<Id>, x: Id, v: Option<Id>): Picture<Id> requires x in m { m[x := m[x].(lastChild := v)] }
  function SetPrev<Id>(m: Picture<Id>, x: Id, v: Option<Id>): Picture<Id> requires x in m { m[x := m[x].(prevSibling := v)] }
  function SetNext<Id>(m: Picture<Id>, x: Id, v: Option<Id>): Picture<Id> requires x in m { m[x := m[x].(nextSibling := v)] }

  // ---------------------------------------------------------------------------
  // Unlinking, node by node

  /** The links of `x` once the neighbours of `n` are joined around it: the previous
      sibling's `nextSibling` (or, for a first child, the parent's `firstChild`) skips
      to `n`'s next sibling, and symmetrically on the other side. */
  function UnlinkedAt<Id>(m: Picture<Id>, n: Id, x: Id): Links<Id>
    requires n in m && x in m
  {
    var l := m[n];
    var lx := m[x];
    lx.(firstChild := if l.prevSibling.None? && l.parent == Some(x) then l.nextSibling else lx.firstChild,
        lastChild := if l.nextSibling.None? && l.parent == Some(x) then l.prevSibling else lx.lastChild,
        prevSibling := if l.nextSibling == Some(x) then l.prevSibling else lx.prevSibling,
        nextSibling := if l.prevSibling == Some(x) then l.nextSibling else lx.nextSibling)
  }

  /** The neighbours joined around `n`; the links of `n` itself are kept. */
  function Unlinked<Id>(m: Picture<Id>, n: Id): (r: Picture<Id>)
    requires n in m
    ensures r.Keys == m.Keys && (Closed(m) ==> Closed(r))
  {
    map x | x in m :: UnlinkedAt(m, n, x)
  }

  /** The neighbours joined around `n`, and `n`'s parent and sibling links cleared;
      its children stay. */
  function Detached<Id>(m: Picture<Id>, n: Id): (r: Picture<Id>)
    requires n in m
    ensures r.Keys == m.Keys && (Closed(m) ==> Closed(r))
  {
    map x | x in m :: if x == n then UnlinkedAt(m, n, n).(parent := None, prevSibling := None, nextSibling := None)
                      else UnlinkedAt(m, n, x)
  }

  function RemoveAt<T>(s: seq<T>, i: nat): seq<T> requires i < |s| { s[..i] + s[i + 1..] }

  function InsertAt<T>(s: seq<T>, j: nat, x: T): seq<T> requires j <= |s| { s[..j] + [x] + s[j..] }

  /** The position of `x` in `s`. */
  function IndexOf<T(==)>(s: seq<T>, x: T): (i: nat)
    requires x in s
    ensures i < |s| && s[i] == x && x !in s[..i]
  {
    if s[0] == x then 0 else assert x in s[1..]; 1 + IndexOf(s[1..], x)
  }

  /** The children lists once `n` is no longer anybody's child. */
  ghost function KidsWithout<Id>(m: Picture<Id>, kids: map<Id, seq<Id>>, n: Id): (r: map<Id, seq<Id>>)
    requires Linked(m, kids) && n in m
    ensures r.Keys == kids.Keys
  {
    if m[n].parent.None? then kids
    else
      var p := m[n].parent.value;
      assert p in kids by { assert n in kids[p]; }
      kids[p := RemoveAt(kids[p], IndexOf(kids[p], n))]
  }

  /** One element of the parent's list, other than `n`, after detaching `n`. */
  lemma DetachElement<Id>(m: Picture<Id>, cs: seq<Id>, n: Id, i: nat, k: nat)
    requires n in m && NoDup(cs) && i < |cs| && cs[i] == n && k < |cs| - 1
    requires m[n].prevSibling == Before(cs, i) && m[n].nextSibling == After(cs, i)
    requires var k' := if k < i then k else k + 1;
      && cs[k'] in m && m[cs[k']].prevSibling == Before(cs, k') && m[cs[k']].nextSibling == After(cs, k')
    ensures RemoveAt(cs, i)[k] in m && RemoveAt(cs, i)[k] != n
    ensures UnlinkedAt(m, n, RemoveAt(cs, i)[k]).prevSibling == Before(RemoveAt(cs, i), k)
    ensures UnlinkedAt(m, n, RemoveAt(cs, i)[k]).nextSibling == After(RemoveAt(cs, i), k)
  {
    var k' := if k < i then k else k + 1;
    assert RemoveAt(cs, i)[k] == cs[k'];
    if i > 0 && k' != i - 1 { assert cs[k'] != cs[i - 1]; }
    if i < |cs| - 1 && k' != i + 1 { assert cs[k'] != cs[i + 1]; }
  }

  lemma RemoveAtNoDup<T>(cs: seq<T>, i: nat)
    requires NoDup(cs) && i < |cs|
    ensures NoDup(RemoveAt(cs, i))
    ensures forall x | x in RemoveAt(cs, i) :: x in cs && x != cs[i]
  {
    var cs' := RemoveAt(cs, i);
    forall a, b | 0 <= a < b < |cs'| ensures cs'[a] != cs'[b] {
      var a' := if a < i then a else a + 1;
      var b' := if b < i then b else b + 1;
      assert cs'[a] == cs[a'] && cs'[b] == cs[b'];
    }
    forall x | x in cs' ensures x in cs && x != cs[i] {
      var a :| 0 <= a < |cs'| && cs'[a] == x;
      var a' := if a < i then a else a + 1;
      assert cs'[a] == cs[a'];
    }
  }

  /** The parent's list, with `n` left out, is spelled out by the new links. */
  lemma DetachParentList<Id>(m: Picture<Id>, p: Id, cs: seq<Id>, n: Id, i: nat)
    requires p in m && n in m && p != n && ListLinked(m, p, cs) && i < |cs| && cs[i] == n
    ensures ListLinked(Detached(m, n), p, RemoveAt(cs, i))
  {
    var d := Detached(m, n);
    var cs' := RemoveAt(cs, i);
    assert m[cs[i]].prevSibling == Before(cs, i) && m[cs[i]].nextSibling == After(cs, i);
    RemoveAtNoDup(cs, i);
    assert d[p].firstChild == First(cs');
    assert d[p].lastChild == Last(cs');
    forall k | 0 <= k < |cs'|
      ensures cs'[k] in d && d[cs'[k]].parent == Some(p)
      ensures d[cs'[k]].prevSibling == Before(cs', k) && d[cs'[k]].nextSibling == After(cs', k)
    {
      var k' := if k < i then k else k + 1;
      assert cs'[k] == cs[k'];
      assert m[cs[k']].parent == Some(p);
      assert m[cs[k']].prevSibling == Before(cs, k') && m[cs[k']].nextSibling == After(cs, k');
      DetachElement(m, cs, n, i, k);
    }
  }

  /** Another node's list is untouched, and so are the links of its elements. */
  lemma DetachOtherList<Id>(m: Picture<Id>, q: Id, cs: seq<Id>, n: Id)
    requires q in m && n in m && ListLinked(m, q, cs) && n !in cs && m[n].parent != Some(q)
    requires m[n].prevSibling.Some? ==> m[n].prevSibling.value in m && m[m[n].prevSibling.value].parent == m[n].parent
    requires m[n].nextSibling.Some? ==> m[n].nextSibling.value in m && m[m[n].nextSibling.value].parent == m[n].parent
    ensures ListLinked(Detached(m, n), q, cs)
  {
    var d := Detached(m, n);
    forall k | 0 <= k < |cs|
      ensures cs[k] in d && d[cs[k]].parent == Some(q)
      ensures d[cs[k]].prevSibling == Before(cs, k) && d[cs[k]].nextSibling == After(cs, k)
    {
      assert m[cs[k]].parent == Some(q);
      assert m[cs[k]].prevSibling == Before(cs, k) && m[cs[k]].nextSibling == After(cs, k);
    }
  }

  /** Detaching keeps the picture linked, with `n` taken out of its parent's list. */
  lemma DetachLinked<Id>(m: Picture<Id>, sh: Shape<Id>, n: Id)
    requires Valid(m, sh) && n in m
    ensures Linked(Detached(m, n), KidsWithout(m, sh.kids, n))
    ensures Free(Detached(m, n), n)
  {
    DetachLists(m, sh, n);
    DetachParents(m, sh, n);
    DetachRoots(m, sh, n);
  }

  lemma DetachLists<Id>(m: Picture<Id>, sh: Shape<Id>, n: Id)
    requires Valid(m, sh) && n in m
    ensures forall q | q in m :: ListLinked(Detached(m, n), q, KidsWithout(m, sh.kids, n)[q])
  {
    var d := Detached(m, n);
    var kids' := KidsWithout(m, sh.kids, n);
    var l := m[n];
    NeighbourParents(m, sh, n);
    if l.parent.Some? {
      var p := l.parent.value;
      var i := IndexOf(sh.kids[p], n);
      assert kids'[p] == RemoveAt(sh.kids[p], i);
      assert ListLinked(m, p, sh.kids[p]);
      DetachParentList(m, p, sh.kids[p], n, i);
    }
    forall q | q in m ensures ListLinked(d, q, kids'[q]) {
      if l.parent != Some(q) {
        assert kids'[q] == sh.kids[q];
        NotInOtherList(m, sh, n, q);
        assert ListLinked(m, q, sh.kids[q]);
        DetachOtherList(m, q, sh.kids[q], n);
      }
    }
  }

  lemma DetachParents<Id>(m: Picture<Id>, sh: Shape<Id>, n: Id)
    requires Valid(m, sh) && n in m
    ensures forall c | c in m && Detached(m, n)[c].parent.Some? ::
      Detached(m, n)[c].parent.value in m && c in KidsWithout(m, sh.kids, n)[Detached(m, n)[c].parent.value]
  {
    var d := Detached(m, n);
    forall c | c in m && d[c].parent.Some?
      ensures d[c].parent.value in m && c in KidsWithout(m, sh.kids, n)[d[c].parent.value]
    {
      assert c != n && d[c].parent == m[c].parent;
      ParentWithout(m, sh, n, c);
    }
  }

  /** A child other than `n` stays in its parent's list once `n` has left its own. */
  lemma ParentWithout<Id>(m: Picture<Id>, sh: Shape<Id>, n: Id, c: Id)
    requires Linked(m, sh.kids) && n in m && c in m && c != n && m[c].parent.Some?
    ensures m[c].parent.value in m && c in KidsWithout(m, sh.kids, n)[m[c].parent.value]
  {
    var q := m[c].parent.value;
    var k := ParentFacts(m, sh, c);
    if m[n].parent == Some(q) {
      var cs := sh.kids[q];
      var i := IndexOf(cs, n);
      if k < i { assert RemoveAt(cs, i)[k] == c; } else { assert RemoveAt(cs, i)[k - 1] == c; }
    }
  }

  lemma DetachRoots<Id>(m: Picture<Id>, sh: Shape<Id>, n: Id)
    requires Valid(m, sh) && n in m
    ensures forall c | c in m && Detached(m, n)[c].parent.None? ::
      Detached(m, n)[c].prevSibling.None? && Detached(m, n)[c].nextSibling.None?
    ensures Free(Detached(m, n), n)
  {
    var d := Detached(m, n);
    NeighbourParents(m, sh, n);
    forall c | c in m && d[c].parent.None?
      ensures d[c].prevSibling.None? && d[c].nextSibling.None?
    {
      if c != n {
        assert m[c].parent.None?;
      }
    }
  }

  /** The siblings of `n` share its parent, which is not `q` unless `n` lies in `q`'s list. */
  lemma NeighbourParents<Id>(m: Picture<Id>, sh: Shape<Id>, n: Id)
    requires Valid(m, sh) && n in m
    ensures m[n].prevSibling.Some? ==> m[n].prevSibling.value in m && m[m[n].prevSibling.value].parent == m[n].parent
    ensures m[n].nextSibling.Some? ==> m[n].nextSibling.value in m && m[m[n].nextSibling.value].parent == m[n].parent
    ensures m[n].parent.Some? ==> m[n].parent.value in m && m[n].parent.value != n
  {
    if m[n].parent.Some? {
      var p := m[n].parent.value;
      var i := ParentFacts(m, sh, n);
      ChildFacts(m, sh, p, i);
      ListNeighbours(m, p, sh.kids[p], i);
    } else {
      assert m[n].prevSibling.None? && m[n].nextSibling.None?;
    }
  }

  /** In a well-formed picture no node is its own parent or sibling. */
  lemma NotSelfLinked<Id>(m: Picture<Id>, sh: Shape<Id>, n: Id)
    requires Valid(m, sh) && n in m
    ensures m[n].parent != Some(n) && m[n].prevSibling != Some(n) && m[n].nextSibling != Some(n)
  {
    NeighbourParents(m, sh, n);
    if m[n].parent.Some? {
      var p, i := GapAt(m, sh.kids, n);
      assert ListLinked(m, p, sh.kids[p]);
    }
  }

  /** A sibling of `n` names `n` back. */
  lemma NeighbourLinks<Id>(m: Picture<Id>, sh: Shape<Id>, n: Id)
    requires Valid(m, sh) && n in m
    ensures m[n].nextSibling.Some? ==> m[n].nextSibling.value in m && m[m[n].nextSibling.value].prevSibling == Some(n)
    ensures m[n].prevSibling.Some? ==> m[n].prevSibling.value in m && m[m[n].prevSibling.value].nextSibling == Some(n)
  {
    if m[n].parent.Some? {
      var p, i := GapAt(m, sh.kids, n);
      assert ListLinked(m, p, sh.kids[p]);
    }
  }

  /** The neighbours of the `i`-th child of a linked list of children share its parent. */
  lemma ListNeighbours<Id>(m: Picture<Id>, p: Id, cs: seq<Id>, i: nat)
    requires p in m && ListLinked(m, p, cs) && i < |cs|
    ensures m[cs[i]].prevSibling == Before(cs, i) && m[cs[i]].nextSibling == After(cs, i)
    ensures i > 0 ==> cs[i - 1] in m && m[cs[i - 1]].parent == Some(p)
    ensures i < |cs| - 1 ==> cs[i + 1] in m && m[cs[i + 1]].parent == Some(p)
  {
  }

  /** `n` is in no list but its parent's. */
  lemma NotInOtherList<Id>(m: Picture<Id>, sh: Shape<Id>, n: Id, q: Id)
    requires Linked(m, sh.kids) && n in m && q in m && m[n].parent != Some(q)
    ensures n !in sh.kids[q]
  {
    assert ListLinked(m, q, sh.kids[q]);
    forall i | 0 <= i < |sh.kids[q]| ensures sh.kids[q][i] != n {
      assert m[sh.kids[q][i]].parent == Some(q);
    }
  }

  /** Dropping `n` from its parent's list keeps the ranks decreasing. */
  lemma DetachRanked<Id>(m: Picture<Id>, sh: Shape<Id>, n: Id)
    requires Valid(m, sh) && n in m
    ensures Ranked(sh.(kids := KidsWithout(m, sh.kids, n)))
  {
    if m[n].parent.Some? {
      var p := m[n].parent.value;
      assert n in sh.kids[p];
      RemoveRanked(sh, p, IndexOf(sh.kids[p], n));
    }
  }

  lemma RemoveRanked<Id>(sh: Shape<Id>, p: Id, i: nat)
    requires Ranked(sh) && p in sh.kids && i < |sh.kids[p]|
    ensures Ranked(sh.(kids := sh.kids[p := RemoveAt(sh.kids[p], i)]))
  {
    var kids' := sh.kids[p := RemoveAt(sh.kids[p], i)];
    forall r, c | r in kids' && c in kids'[r] ensures c in sh.rank && sh.rank[c] < sh.rank[r] {
      if r == p {
        var cs := sh.kids[p];
        var k :| 0 <= k < |cs| - 1 && RemoveAt(cs, i)[k] == c;
        assert c == cs[if k < i then k else k + 1];
      }
      assert c in sh.kids[r];
    }
  }

  /** A subtree's pre-order does not depend on the children list of a node ranked above it. */
  lemma {:induction false} PreOrderFrame<Id>(sh: Shape<Id>, p: Id, s: seq<Id>, x: Id)
    requires Ranked(sh) && Ranked(sh.(kids := sh.kids[p := s])) && p in sh.kids
    requires x in sh.kids && sh.rank[x] < sh.rank[p]
    ensures PreOrder(sh.(kids := sh.kids[p := s]), x) == PreOrder(sh, x)
    decreases sh.rank[x], 1
  {
    ChildPreOrderFrame(sh, p, s, x, 0);
  }

  lemma {:induction false} ChildPreOrderFrame<Id>(sh: Shape<Id>, p: Id, s: seq<Id>, y: Id, i: nat)
    requires Ranked(sh) && Ranked(sh.(kids := sh.kids[p := s])) && p in sh.kids
    requires y in sh.kids && sh.rank[y] < sh.rank[p] && i <= |sh.kids[y]|
    ensures ChildPreOrder(sh.(kids := sh.kids[p := s]), y, i) == ChildPreOrder(sh, y, i)
    decreases sh.rank[y], 0, |sh.kids[y]| - i
  {
    var sh' := sh.(kids := sh.kids[p := s]);
    assert sh'.kids[y] == sh.kids[y];
    if i < |sh.kids[y]| {
      var c := sh.kids[y][i];
      assert c in sh.kids[y];
      PreOrderFrame(sh, p, s, c);
      ChildPreOrderFrame(sh, p, s, y, i + 1);
    }
  }

  /** A node in a child's subtree is in the parent's subtree. */
  lemma PreOrderOfChild<Id>(sh: Shape<Id>, p: Id, c: Id, y: Id)
    requires Ranked(sh) && p in sh.kids && c in sh.kids[p] && c in sh.kids && y in PreOrder(sh, c)
    ensures y in PreOrder(sh, p)
  {
    var i :| 0 <= i < |sh.kids[p]| && sh.kids[p][i] == c;
    ChildPreOrderContains(sh, p, 0, i, y);
  }

  lemma PreOrderHasSelf<Id>(sh: Shape<Id>, x: Id)
    requires Ranked(sh) && x in sh.kids
    ensures x in PreOrder(sh, x)
  {
    assert PreOrder(sh, x)[0] == x;
  }

  // ---------------------------------------------------------------------------
  // Splicing, node by node

  /** The neighbours a node inserted at position `j` of `cs` gets. */
  function Left<Id>(cs: seq<Id>, j: nat): Option<Id> requires j <= |cs| { if j == 0 then None else Some(cs[j - 1]) }
  function Right<Id>(cs: seq<Id>, j: nat): Option<Id> requires j <= |cs| { if j == |cs| then None else Some(cs[j]) }

  /** The links of `x` once the free node `n` is made a child of `q` between siblings
      `a` and `b`; with no `a` (`b`), `n` becomes the first (last) child of `q`. */
  function SplicedAt<Id>(m: Picture<Id>, q: Id, a: Option<Id>, b: Option<Id>, n: Id, x: Id): Links<Id>
    requires x in m
  {
    var lx := m[x];
    if x == n then lx.(parent := Some(q), prevSibling := a, nextSibling := b)
    else lx.(firstChild := if x == q && a.None? then Some(n) else lx.firstChild,
             lastChild := if x == q && b.None? then Some(n) else lx.lastChild,
             prevSibling := if b == Some(x) then Some(n) else lx.prevSibling,
             nextSibling := if a == Some(x) then Some(n) else lx.nextSibling)
  }

  function Spliced<Id>(m: Picture<Id>, q: Id, a: Option<Id>, b: Option<Id>, n: Id): (r: Picture<Id>)
    ensures r.Keys == m.Keys
  {
    map x | x in m :: SplicedAt(m, q, a, b, n, x)
  }

  lemma InsertAtFacts<T>(cs: seq<T>, j: nat, x: T)
    requires NoDup(cs) && x !in cs && j <= |cs|
    ensures |InsertAt(cs, j, x)| == |cs| + 1 && NoDup(InsertAt(cs, j, x))
    ensures forall k | 0 <= k < j :: InsertAt(cs, j, x)[k] == cs[k]
    ensures InsertAt(cs, j, x)[j] == x
    ensures forall k | j < k <= |cs| :: InsertAt(cs, j, x)[k] == cs[k - 1]
    ensures forall y :: y in InsertAt(cs, j, x) <==> y == x || y in cs
  {
    var cs' := InsertAt(cs, j, x);
    forall a, b | 0 <= a < b < |cs'| ensures cs'[a] != cs'[b] {
      if a != j && b != j {
        var a' := if a < j then a else a - 1;
        var b' := if b < j then b else b - 1;
        assert cs'[a] == cs[a'] && cs'[b] == cs[b'];
      } else if a == j {
        assert cs'[b] == cs[b - 1];
      } else {
        assert cs'[a] == cs[a];
      }
    }
  }

  /** One element of the receiving list after the splice. */
  lemma SpliceElement<Id>(m: Picture<Id>, q: Id, cs: seq<Id>, n: Id, j: nat, k: nat)
    requires n in m && NoDup(cs) && n !in cs && j <= |cs| && k <= |cs| && k != j
    requires var k' := if k < j then k else k - 1;
      && cs[k'] in m && m[cs[k']].prevSibling == Before(cs, k') && m[cs[k']].nextSibling == After(cs, k')
    ensures InsertAt(cs, j, n)[k] in m && InsertAt(cs, j, n)[k] != n
    ensures SplicedAt(m, q, Left(cs, j), Right(cs, j), n, InsertAt(cs, j, n)[k]).prevSibling == Before(InsertAt(cs, j, n), k)
    ensures SplicedAt(m, q, Left(cs, j), Right(cs, j), n, InsertAt(cs, j, n)[k]).nextSibling == After(InsertAt(cs, j, n), k)
  {
    InsertAtFacts(cs, j, n);
    var k' := if k < j then k else k - 1;
    assert InsertAt(cs, j, n)[k] == cs[k'];
    if j > 0 && k' != j - 1 { assert cs[k'] != cs[j - 1]; }
    if j < |cs| && k' != j { assert cs[k'] != cs[j]; }
  }

  /** The receiving list, with `n` at position `j`, is spelled out by the new links. */
  lemma SpliceParentList<Id>(m: Picture<Id>, q: Id, cs: seq<Id>, n: Id, j: nat)
    requires q in m && n in m && q != n && ListLinked(m, q, cs) && n !in cs && j <= |cs|
    ensures ListLinked(Spliced(m, q, Left(cs, j), Right(cs, j), n), q, InsertAt(cs, j, n))
  {
    var t := Spliced(m, q, Left(cs, j), Right(cs, j), n);
    var cs' := InsertAt(cs, j, n);
    InsertAtFacts(cs, j, n);
    assert t[q].firstChild == First(cs');
    assert t[q].lastChild == Last(cs');
    forall k | 0 <= k < |cs'|
      ensures cs'[k] in t && t[cs'[k]].parent == Some(q)
      ensures t[cs'[k]].prevSibling == Before(cs', k) && t[cs'[k]].nextSibling == After(cs', k)
    {
      if k != j {
        var k' := if k < j then k else k - 1;
        assert cs'[k] == cs[k'];
        assert m[cs[k']].parent == Some(q);
        assert m[cs[k']].prevSibling == Before(cs, k') && m[cs[k']].nextSibling == After(cs, k');
        SpliceElement(m, q, cs, n, j, k);
      }
    }
  }

  /** Another node's list is untouched by the splice. */
  lemma SpliceOtherList<Id>(m: Picture<Id>, q: Id, a: Option<Id>, b: Option<Id>, n: Id, r: Id, cs: seq<Id>)
    requires r in m && r != q && ListLinked(m, r, cs) && n !in cs
    requires a.Some? ==> a.value in m && m[a.value].parent == Some(q)
    requires b.Some? ==> b.value in m && m[b.value].parent == Some(q)
    ensures ListLinked(Spliced(m, q, a, b, n), r, cs)
  {
    var t := Spliced(m, q, a, b, n);
    forall k | 0 <= k < |cs|
      ensures cs[k] in t && t[cs[k]].parent == Some(r)
      ensures t[cs[k]].prevSibling == Before(cs, k) && t[cs[k]].nextSibling == After(cs, k)
    {
      assert m[cs[k]].parent == Some(r);
      assert m[cs[k]].prevSibling == Before(cs, k) && m[cs[k]].nextSibling == After(cs, k);
    }
  }

  /** The neighbours at a gap of `q`'s list are children of `q`. */
  lemma GapFacts<Id>(m: Picture<Id>, kids: map<Id, seq<Id>>, q: Id, j: nat)
    requires Linked(m, kids) && q in m && j <= |kids[q]|
    ensures Left(kids[q], j).Some? ==> Left(kids[q], j).value in m && m[Left(kids[q], j).value].parent == Some(q)
    ensures Right(kids[q], j).Some? ==> Right(kids[q], j).value in m && m[Right(kids[q], j).value].parent == Some(q)
  {
    assert ListLinked(m, q, kids[q]);
    if j > 0 { assert m[kids[q][j - 1]].parent == Some(q); }
    if j < |kids[q]| { assert m[kids[q][j]].parent == Some(q); }
  }

  lemma SpliceLists<Id>(m: Picture<Id>, kids: map<Id, seq<Id>>, q: Id, j: nat, n: Id)
    requires Linked(m, kids) && Free(m, n) && q in m && q != n && j <= |kids[q]|
    ensures forall r | r in m ::
      ListLinked(Spliced(m, q, Left(kids[q], j), Right(kids[q], j), n), r, kids[q := InsertAt(kids[q], j, n)][r])
  {
    var a, b := Left(kids[q], j), Right(kids[q], j);
    var t := Spliced(m, q, a, b, n);
    var kids' := kids[q := InsertAt(kids[q], j, n)];
    GapFacts(m, kids, q, j);
    forall r | r in m ensures ListLinked(t, r, kids'[r]) {
      RootInNoList(m, Shape(kids, map[], 0), n, r);
      assert ListLinked(m, r, kids[r]);
      if r == q {
        SpliceParentList(m, q, kids[q], n, j);
      } else {
        SpliceOtherList(m, q, a, b, n, r, kids[r]);
      }
    }
  }

  lemma SpliceParents<Id>(m: Picture<Id>, kids: map<Id, seq<Id>>, q: Id, j: nat, n: Id)
    requires Linked(m, kids) && Free(m, n) && q in m && q != n && j <= |kids[q]|
    ensures var t := Spliced(m, q, Left(kids[q], j), Right(kids[q], j), n);
      forall c | c in m && t[c].parent.Some? ::
        t[c].parent.value in m && c in kids[q := InsertAt(kids[q], j, n)][t[c].parent.value]
  {
    var t := Spliced(m, q, Left(kids[q], j), Right(kids[q], j), n);
    var kids' := kids[q := InsertAt(kids[q], j, n)];
    forall c | c in m && t[c].parent.Some?
      ensures t[c].parent.value in m && c in kids'[t[c].parent.value]
    {
      RootInNoList(m, Shape(kids, map[], 0), n, q);
      assert ListLinked(m, q, kids[q]);
      InsertAtFacts(kids[q], j, n);
    }
  }

  lemma SpliceRoots<Id>(m: Picture<Id>, kids: map<Id, seq<Id>>, q: Id, j: nat, n: Id)
    requires Linked(m, kids) && Free(m, n) && q in m && q != n && j <= |kids[q]|
    ensures var t := Spliced(m, q, Left(kids[q], j), Right(kids[q], j), n);
      forall c | c in m && t[c].parent.None? :: t[c].prevSibling.None? && t[c].nextSibling.None?
  {
    var t := Spliced(m, q, Left(kids[q], j), Right(kids[q], j), n);
    GapFacts(m, kids, q, j);
    forall c | c in m && t[c].parent.None?
      ensures t[c].prevSibling.None? && t[c].nextSibling.None?
    {
      assert m[c].parent.None?;
    }
  }

  /** Splicing a free node keeps the picture linked, with `n` at position `j` of `q`'s list. */
  lemma SpliceLinked<Id>(m: Picture<Id>, kids: map<Id, seq<Id>>, q: Id, j: nat, n: Id)
    requires Linked(m, kids) && Free(m, n) && q in m && q != n && j <= |kids[q]|
    ensures Linked(Spliced(m, q, Left(kids[q], j), Right(kids[q], j), n), kids[q := InsertAt(kids[q], j, n)])
  {
    var t := Spliced(m, q, Left(kids[q], j), Right(kids[q], j), n);
    var kids' := kids[q := InsertAt(kids[q], j, n)];
    assert kids'.Keys == t.Keys;
    SpliceLists(m, kids, q, j, n);
    SpliceParents(m, kids, q, j, n);
    SpliceRoots(m, kids, q, j, n);
  }

  // ---------------------------------------------------------------------------
  // Ranks after a splice, and the whole move

  /** The shape once `n`, nobody's child, is inserted at position `j` of `q`'s list:
      every node whose subtree holds `q` is ranked higher by the rank of `n` plus one. */
  ghost function Inserted<Id>(sh: Shape<Id>, q: Id, j: nat, n: Id): Shape<Id>
    requires Ranked(sh) && q in sh.kids && n in sh.kids && j <= |sh.kids[q]|
  {
    var k := sh.rank[n] + 1;
    Shape(sh.kids[q := InsertAt(sh.kids[q], j, n)],
          map y | y in sh.kids :: sh.rank[y] + (if q in PreOrder(sh, y) then k else 0),
          sh.bound + k)
  }

  lemma InsertRanked<Id>(sh: Shape<Id>, q: Id, j: nat, n: Id)
    requires Ranked(sh) && q in sh.kids && n in sh.kids && j <= |sh.kids[q]|
    requires q !in PreOrder(sh, n)
    ensures Ranked(Inserted(sh, q, j, n))
  {
    InsertedBound(sh, q, j, n);
    InsertedOrder(sh, q, j, n);
  }

  lemma InsertedBound<Id>(sh: Shape<Id>, q: Id, j: nat, n: Id)
    requires Ranked(sh) && q in sh.kids && n in sh.kids && j <= |sh.kids[q]|
    ensures var sh' := Inserted(sh, q, j, n);
      sh'.rank.Keys == sh'.kids.Keys && forall x | x in sh'.rank :: sh'.rank[x] < sh'.bound
  {
  }

  lemma InsertedOrder<Id>(sh: Shape<Id>, q: Id, j: nat, n: Id)
    requires Ranked(sh) && q in sh.kids && n in sh.kids && j <= |sh.kids[q]|
    requires q !in PreOrder(sh, n)
    ensures var sh' := Inserted(sh, q, j, n);
      forall r, c | r in sh'.kids && c in sh'.kids[r] :: c in sh'.rank && sh'.rank[c] < sh'.rank[r]
  {
    var sh' := Inserted(sh, q, j, n);
    forall r, c | r in sh'.kids && c in sh'.kids[r] ensures c in sh'.rank && sh'.rank[c] < sh'.rank[r] {
      InsertedPair(sh, q, j, n, r, c);
    }
  }

  lemma InsertedPair<Id>(sh: Shape<Id>, q: Id, j: nat, n: Id, r: Id, c: Id)
    requires Ranked(sh) && q in sh.kids && n in sh.kids && j <= |sh.kids[q]|
    requires q !in PreOrder(sh, n)
    requires r in sh.kids && c in Inserted(sh, q, j, n).kids[r]
    ensures c in sh.kids
    ensures Inserted(sh, q, j, n).rank[c] < Inserted(sh, q, j, n).rank[r]
  {
    if r != q || c != n {
      if r == q { InsertAtMember(sh.kids[q], j, n, c); }
      RaisedChild(sh, q, n, r, c);
    } else {
      PreOrderHasSelf(sh, q);
    }
  }

  lemma InsertAtMember<T>(cs: seq<T>, j: nat, x: T, c: T)
    requires j <= |cs| && c in InsertAt(cs, j, x) && c != x
    ensures c in cs
  {
    var k :| 0 <= k < |cs| + 1 && InsertAt(cs, j, x)[k] == c;
    if k < j { assert c == cs[k]; } else { assert c == cs[k - 1]; }
  }

  /** An old parent-child pair stays ordered once the ranks are raised. */
  lemma RaisedChild<Id>(sh: Shape<Id>, q: Id, n: Id, r: Id, c: Id)
    requires Ranked(sh) && q in sh.kids && n in sh.kids && r in sh.kids && c in sh.kids[r]
    ensures c in sh.kids
    ensures sh.rank[c] + (if q in PreOrder(sh, c) then sh.rank[n] + 1 else 0)
          < sh.rank[r] + (if q in PreOrder(sh, r) then sh.rank[n] + 1 else 0)
  {
    if q in PreOrder(sh, c) { PreOrderOfChild(sh, r, c, q); }
  }

  /** The shape after `n` is detached and then inserted at position `j` of `q`'s list. */
  ghost function Moved<Id>(m: Picture<Id>, sh: Shape<Id>, n: Id, q: Id, j: nat): Shape<Id>
    requires Valid(m, sh) && n in m && q in m && j <= |KidsWithout(m, sh.kids, n)[q]|
  {
    DetachRanked(m, sh, n);
    Inserted(sh.(kids := KidsWithout(m, sh.kids, n)), q, j, n)
  }

  /** Moving `n` under a node outside its subtree keeps the picture well formed: the
      children of `q` become the old ones without `n` and with `n` at position `j`,
      and every other list just loses `n`. */
  lemma MoveValid<Id>(m: Picture<Id>, sh: Shape<Id>, n: Id, q: Id, j: nat)
    requires Valid(m, sh) && n in m && q in m && q !in PreOrder(sh, n)
    requires j <= |KidsWithout(m, sh.kids, n)[q]|
    ensures var k1 := KidsWithout(m, sh.kids, n);
      Valid(Spliced(Detached(m, n), q, Left(k1[q], j), Right(k1[q], j), n), Moved(m, sh, n, q, j))
    ensures var k1 := KidsWithout(m, sh.kids, n);
      Moved(m, sh, n, q, j).kids == k1[q := InsertAt(k1[q], j, n)]
  {
    var d := Detached(m, n);
    var k1 := KidsWithout(m, sh.kids, n);
    var sh1 := sh.(kids := k1);
    PreOrderHasSelf(sh, n);
    DetachLinked(m, sh, n);
    DetachRanked(m, sh, n);
    if m[n].parent.Some? {
      var p := m[n].parent.value;
      assert n in sh.kids[p];
      PreOrderFrame(sh, p, k1[p], n);
      assert sh1 == sh.(kids := sh.kids[p := k1[p]]);
    } else {
      assert sh1 == sh;
    }
    forall p | p in sh1.kids ensures n !in sh1.kids[p] {
      RootInNoList(d, sh1, n, p);
    }
    InsertRanked(sh1, q, j, n);
    SpliceLinked(d, k1, q, j, n);
  }

  // ---------------------------------------------------------------------------
  // Links that stay inside the picture, fresh nodes, free nodes

  lemma SetClosed<Id>(m: Picture<Id>, x: Id, v: Option<Id>)
    requires Closed(m) && x in m && LinkIn(m, v)
    ensures Closed(SetParent(m, x, v)) && Closed(SetFirst(m, x, v)) && Closed(SetLast(m, x, v))
    ensures Closed(SetPrev(m, x, v)) && Closed(SetNext(m, x, v))
  {
  }

  lemma ValidClosed<Id>(m: Picture<Id>, sh: Shape<Id>)
    requires Linked(m, sh.kids)
    ensures Closed(m)
  {
    forall x | x in m
      ensures LinkIn(m, m[x].parent) && LinkIn(m, m[x].firstChild) && LinkIn(m, m[x].lastChild)
      ensures LinkIn(m, m[x].prevSibling) && LinkIn(m, m[x].nextSibling)
    {
      var cs := sh.kids[x];
      assert ListLinked(m, x, cs);
      if cs != [] {
        assert cs[0] in m && cs[|cs| - 1] in m;
      }
      if m[x].parent.Some? {
        var p := m[x].parent.value;
        var i := ParentFacts(m, sh, x);
        assert ListLinked(m, p, sh.kids[p]);
        if i > 0 { assert sh.kids[p][i - 1] in m; }
        if i < |sh.kids[p]| - 1 { assert sh.kids[p][i + 1] in m; }
      }
    }
  }

  /** Detaching a node without parent and siblings changes nothing. */
  lemma FreeUnlinked<Id>(m: Picture<Id>, n: Id)
    requires Free(m, n)
    ensures Unlinked(m, n) == m && Detached(m, n) == m
  {
    assert forall x | x in m :: UnlinkedAt(m, n, x) == m[x];
  }

  /** The shape once a fresh node without links is added. */
  ghost function Added<Id>(sh: Shape<Id>, x: Id): Shape<Id>
  {
    Shape(sh.kids[x := []], sh.rank[x := 0], sh.bound + 1)
  }

  /** Adding a fresh node keeps the picture well formed, with no new child anywhere. */
  lemma AddValid<Id>(m: Picture<Id>, sh: Shape<Id>, x: Id)
    requires Valid(m, sh) && x !in m
    ensures Valid(m[x := NoLinks()], Added(sh, x)) && Free(m[x := NoLinks()], x)
    ensures forall p | p in m :: Added(sh, x).kids[p] == sh.kids[p]
  {
    AddLists(m, sh, x);
    AddParents(m, sh, x);
    AddRoots(m, sh, x);
    AddRanked(sh, x);
    assert Linked(m[x := NoLinks()], Added(sh, x).kids);
  }

  lemma AddRoots<Id>(m: Picture<Id>, sh: Shape<Id>, x: Id)
    requires Linked(m, sh.kids) && x !in m
    ensures var m' := m[x := NoLinks()];
      forall c | c in m' && m'[c].parent.None? :: m'[c].prevSibling.None? && m'[c].nextSibling.None?
  {
  }

  lemma AddLists<Id>(m: Picture<Id>, sh: Shape<Id>, x: Id)
    requires Linked(m, sh.kids) && x !in m
    ensures forall p | p in m[x := NoLinks()] :: ListLinked(m[x := NoLinks()], p, Added(sh, x).kids[p])
  {
    var m' := m[x := NoLinks()];
    forall p | p in m' ensures ListLinked(m', p, Added(sh, x).kids[p]) {
      if p != x {
        assert ListLinked(m, p, sh.kids[p]);
      }
    }
  }

  lemma AddParents<Id>(m: Picture<Id>, sh: Shape<Id>, x: Id)
    requires Linked(m, sh.kids) && x !in m
    ensures var m' := m[x := NoLinks()];
      forall c | c in m' && m'[c].parent.Some? :: m'[c].parent.value in m' && c in Added(sh, x).kids[m'[c].parent.value]
  {
    var m' := m[x := NoLinks()];
    forall c | c in m' && m'[c].parent.Some? ensures m'[c].parent.value in m' && c in Added(sh, x).kids[m'[c].parent.value] {
      var i := ParentFacts(m, sh, c);
    }
  }

  lemma AddRanked<Id>(sh: Shape<Id>, x: Id)
    requires Ranked(sh) && x !in sh.kids
    ensures Ranked(Added(sh, x))
  {
  }

  /** The gaps on either side of a child `s`, as positions of its parent's list. */
  lemma GapAt<Id>(m: Picture<Id>, kids: map<Id, seq<Id>>, s: Id) returns (p: Id, i: nat)
    requires Linked(m, kids) && s in m && m[s].parent.Some?
    ensures p == m[s].parent.value && p in m && s in kids[p]
    ensures i == IndexOf(kids[p], s) && i < |kids[p]| && kids[p][i] == s
    ensures Left(kids[p], i) == m[s].prevSibling && Right(kids[p], i) == Some(s)
    ensures Left(kids[p], i + 1) == Some(s) && Right(kids[p], i + 1) == m[s].nextSibling
  {
    p := m[s].parent.value;
    assert s in kids[p];
    i := IndexOf(kids[p], s);
    assert ListLinked(m, p, kids[p]);
  }

  /** The gap just after `s` in the list of its parent. */
  lemma GapAfter<Id>(m: Picture<Id>, kids: map<Id, seq<Id>>, s: Id) returns (p: Id, j: nat)
    requires Linked(m, kids) && s in m && m[s].parent.Some?
    ensures p == m[s].parent.value && p in m && s in kids[p]
    ensures j == IndexOf(kids[p], s) + 1 && j <= |kids[p]|
    ensures Left(kids[p], j) == Some(s) && Right(kids[p], j) == m[s].nextSibling
  {
    var i;
    p, i := GapAt(m, kids, s);
    j := i + 1;
  }
}

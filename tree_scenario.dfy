/**
 * The ten-node tree the idtree and rctree tests build: node 5 holds the children
 * 6, 7, 1, 9, 8, 10 and node 1 holds 4, 2, 3. On any well-formed picture of that
 * shape the descendants walk and the ancestors walk yield the lists the tests
 * expect, and detaching a child leaves children lists whose pre-order is the
 * expected one.
 */
module TreeScenario {
  import opened Wrappers
  import opened TreeShape
  import opened TreeEdit
  import opened TreeWalk
  import opened TreeAttach
  import IdTree

  /** The children of node `x` in the test tree (nodes 1 to 10). */
  function TestChildren(x: nat): seq<nat>
  {
    if x == 5 then [6, 7, 1, 9, 8, 10] else if x == 1 then [4, 2, 3] else []
  }

  function TestKids(): map<nat, seq<nat>> { map x | 1 <= x <= 10 :: TestChildren(x) }

  function TestRankOf(x: nat): nat { if x == 5 then 2 else if x == 1 then 1 else 0 }

  function TestRank(): map<nat, nat> { map x | 1 <= x <= 10 :: TestRankOf(x) }

  function TestShape(): Shape<nat> { Shape(TestKids(), TestRank(), 3) }

  /** A shape on the nodes 1 to 10 that agrees with the test tree everywhere
      except, perhaps, on the children `fives` of node 5. */
  ghost predicate TestLike(sh: Shape<nat>, fives: seq<nat>)
  {
    && (forall x :: x in sh.kids <==> 1 <= x <= 10)
    && (forall x :: x in sh.rank <==> 1 <= x <= 10)
    && (forall x | x in sh.rank :: sh.rank[x] == TestRankOf(x))
    && (forall x | x in sh.kids && x != 5 :: sh.kids[x] == TestChildren(x))
    && 5 in sh.kids && sh.kids[5] == fives
    && (forall i | 0 <= i < |fives| :: 1 <= fives[i] <= 10 && fives[i] != 5)
    && sh.bound == 3
  }

  /** The test tree itself is test-like, so the lemmas below are about a real shape. */
  lemma TestLikeTest()
    ensures TestLike(TestShape(), [6, 7, 1, 9, 8, 10])
  {
  }

  lemma TestLikeRanked(sh: Shape<nat>, fives: seq<nat>)
    requires TestLike(sh, fives)
    ensures Ranked(sh)
  {
    forall p, c | p in sh.kids && c in sh.kids[p] ensures c in sh.rank && sh.rank[c] < sh.rank[p] {
      if p != 5 {
        assert sh.kids[p] == TestChildren(p);
      } else {
        var i :| 0 <= i < |fives| && fives[i] == c;
      }
    }
  }

  /** From position `i` on, a children list made of leaves spells out its own
      pre-order. */
  lemma {:induction false} LeafChildren(sh: Shape<nat>, p: nat, i: nat)
    requires Ranked(sh) && p in sh.kids && i <= |sh.kids[p]|
    requires forall j | i <= j < |sh.kids[p]| :: sh.kids[p][j] in sh.kids && sh.kids[sh.kids[p][j]] == []
    ensures ChildPreOrder(sh, p, i) == sh.kids[p][i..]
    decreases |sh.kids[p]| - i
  {
    if i < |sh.kids[p]| {
      var c := sh.kids[p][i];
      assert c in sh.kids[p];
      assert ChildPreOrder(sh, c, 0) == [];
      LeafChildren(sh, p, i + 1);
    }
  }

  lemma OneOrder(sh: Shape<nat>, fives: seq<nat>)
    requires TestLike(sh, fives) && Ranked(sh)
    ensures PreOrder(sh, 1) == [1, 4, 2, 3]
  {
    assert sh.kids[1] == [4, 2, 3];
    Leaves(sh, fives);
    LeafChildren(sh, 1, 0);
    assert sh.kids[1][0..] == sh.kids[1];
    assert PreOrder(sh, 1) == [1] + ChildPreOrder(sh, 1, 0);
    SpellOne(ChildPreOrder(sh, 1, 0));
  }

  lemma SpellOne(a: seq<nat>)
    requires a == [4, 2, 3]
    ensures [1] + a == [1, 4, 2, 3]
  {
  }

  /** One child's pre-order, then those of its later siblings. */
  lemma ChildStep(sh: Shape<nat>, p: nat, i: nat)
    requires Ranked(sh) && p in sh.kids && i < |sh.kids[p]|
    ensures sh.kids[p][i] in sh.kids
    ensures ChildPreOrder(sh, p, i) == PreOrder(sh, sh.kids[p][i]) + ChildPreOrder(sh, p, i + 1)
  {
    assert sh.kids[p][i] in sh.kids[p];
  }

  /** `descendants(5)` in both tests before any detach. */
  lemma FullOrder(sh: Shape<nat>)
    requires TestLike(sh, [6, 7, 1, 9, 8, 10]) && Ranked(sh)
    ensures PreOrder(sh, 5) == [5, 6, 7, 1, 4, 2, 3, 9, 8, 10]
  {
    OneOrder(sh, [6, 7, 1, 9, 8, 10]);
    Leaves(sh, [6, 7, 1, 9, 8, 10]);
    LeafChildren(sh, 5, 3);
    assert PreOrder(sh, 6) == [6] by { assert ChildPreOrder(sh, 6, 0) == []; }
    assert PreOrder(sh, 7) == [7] by { assert ChildPreOrder(sh, 7, 0) == []; }
    ChildStep(sh, 5, 2);
    ChildStep(sh, 5, 1);
    ChildStep(sh, 5, 0);
    Spell(PreOrder(sh, 6), PreOrder(sh, 7), PreOrder(sh, 1), ChildPreOrder(sh, 5, 3));
  }

  /** The idtree test once 1 is detached: every child of 5 is a leaf. */
  lemma OrderWithoutOne(sh: Shape<nat>)
    requires TestLike(sh, [6, 7, 9, 8, 10]) && Ranked(sh)
    ensures PreOrder(sh, 5) == [5, 6, 7, 9, 8, 10]
  {
    Leaves(sh, [6, 7, 9, 8, 10]);
    LeafChildren(sh, 5, 0);
    assert sh.kids[5][0..] == sh.kids[5];
    assert PreOrder(sh, 5) == [5] + ChildPreOrder(sh, 5, 0);
    SpellLeaves(ChildPreOrder(sh, 5, 0));
  }

  lemma Leaves(sh: Shape<nat>, fives: seq<nat>)
    requires TestLike(sh, fives)
    ensures forall x | x in sh.kids && x != 1 && x != 5 :: sh.kids[x] == []
  {
  }

  lemma SpellLeaves(a: seq<nat>)
    requires a == [6, 7, 9, 8, 10]
    ensures [5] + a == [5, 6, 7, 9, 8, 10]
  {
  }

  /** The rctree test once 8 is detached. */
  lemma OrderWithoutEight(sh: Shape<nat>)
    requires TestLike(sh, [6, 7, 1, 9, 10]) && Ranked(sh)
    ensures PreOrder(sh, 5) == [5, 6, 7, 1, 4, 2, 3, 9, 10]
  {
    OneOrder(sh, [6, 7, 1, 9, 10]);
    Leaves(sh, [6, 7, 1, 9, 10]);
    LeafChildren(sh, 5, 3);
    assert PreOrder(sh, 6) == [6] by { assert ChildPreOrder(sh, 6, 0) == []; }
    assert PreOrder(sh, 7) == [7] by { assert ChildPreOrder(sh, 7, 0) == []; }
    ChildStep(sh, 5, 2);
    ChildStep(sh, 5, 1);
    ChildStep(sh, 5, 0);
    Spell(PreOrder(sh, 6), PreOrder(sh, 7), PreOrder(sh, 1), ChildPreOrder(sh, 5, 3));
  }

  lemma Spell(a: seq<nat>, b: seq<nat>, c: seq<nat>, d: seq<nat>)
    requires a == [6] && b == [7] && c == [1, 4, 2, 3]
    ensures d == [9, 8, 10] ==> [5] + (a + (b + (c + d))) == [5, 6, 7, 1, 4, 2, 3, 9, 8, 10]
    ensures d == [9, 10] ==> [5] + (a + (b + (c + d))) == [5, 6, 7, 1, 4, 2, 3, 9, 10]
  {
  }

  /** Node 5 is the root: nobody lists it as a child. */
  lemma FiveIsRoot(m: Picture<nat>, sh: Shape<nat>, fives: seq<nat>)
    requires Valid(m, sh) && TestLike(sh, fives)
    ensures 5 in m && m[5].parent.None?
  {
  }

  /** `ancestors(2)` in the idtree test: `[2, 1, 5]`. */
  lemma AncestorsOfTwo(m: Picture<nat>, sh: Shape<nat>)
    requires Valid(m, sh) && TestLike(sh, [6, 7, 1, 9, 8, 10])
    ensures 2 in m && WalkFrom(m, sh, ParentLink, Some(2)) == [2, 1, 5]
  {
    ParentsOfTwo(m, sh);
    ParentWalk(m, sh);
  }

  /** In the test tree 2 is a child of 1, which is a child of the root 5. */
  lemma ParentsOfTwo(m: Picture<nat>, sh: Shape<nat>)
    requires Valid(m, sh) && TestLike(sh, [6, 7, 1, 9, 8, 10])
    ensures 5 in m && m[5].parent.None?
    ensures 1 in m && m[1].parent == Some(5) && 2 in m && m[2].parent == Some(1)
  {
    FiveIsRoot(m, sh, [6, 7, 1, 9, 8, 10]);
    assert sh.kids[5][2] == 1;
    ChildFacts(m, sh, 5, 2);
    assert sh.kids[1] == [4, 2, 3];
    ChildFacts(m, sh, 1, 1);
  }

  /** The walk up from 2 when 2 hangs below 1 and 1 below the root 5. */
  lemma ParentWalk(m: Picture<nat>, sh: Shape<nat>)
    requires Valid(m, sh) && 5 in m && m[5].parent.None?
    requires 1 in m && m[1].parent == Some(5) && 2 in m && m[2].parent == Some(1)
    ensures WalkFrom(m, sh, ParentLink, Some(2)) == [2, 1, 5]
  {
    WalkFromStep(m, sh, ParentLink, 5);
    WalkFromStep(m, sh, ParentLink, 1);
    WalkFromStep(m, sh, ParentLink, 2);
  }

  /** Detaching the child at position `i` of 5 drops it from the children of 5. */
  lemma KidsWithoutChild(m: Picture<nat>, sh: Shape<nat>, i: nat)
    requires Valid(m, sh) && 5 in m && i < |sh.kids[5]|
    ensures sh.kids[5][i] in m
    ensures KidsWithout(m, sh.kids, sh.kids[5][i]) == sh.kids[5 := RemoveAt(sh.kids[5], i)]
  {
    ChildFacts(m, sh, 5, i);
    var j := IndexOf(sh.kids[5], sh.kids[5][i]);
    assert sh.kids[5][j] == sh.kids[5][i];
    IndexUnique(m, sh, 5, i, j);
  }

  /** Dropping 1 or 8 from the children of 5. */
  lemma Removals(fives: seq<nat>)
    requires fives == [6, 7, 1, 9, 8, 10]
    ensures RemoveAt(fives, 2) == [6, 7, 9, 8, 10] && RemoveAt(fives, 4) == [6, 7, 1, 9, 10]
  {
  }

  /** Dropping a child of node 5 keeps the shape test-like. */
  lemma TestLikeRemove(sh: Shape<nat>, fives: seq<nat>, i: nat)
    requires TestLike(sh, fives) && i < |fives|
    ensures TestLike(sh.(kids := sh.kids[5 := RemoveAt(fives, i)]), RemoveAt(fives, i))
  {
    var r := RemoveAt(fives, i);
    forall j | 0 <= j < |r| ensures 1 <= r[j] <= 10 && r[j] != 5 {
      if j < i { assert r[j] == fives[j]; } else { assert r[j] == fives[j + 1]; }
    }
  }

  /** The idtree test's walks on any arena whose links spell out the test tree:
      `descendants(5)` and `ancestors(2)`. */
  method IdTreeWalks<T>(arena: IdTree.Arena<T>, ghost sh: Shape<nat>) returns (pre: seq<nat>, up: seq<nat>)
    requires Valid(arena.Picture(), sh) && TestLike(sh, [6, 7, 1, 9, 8, 10])
    ensures pre == [5, 6, 7, 1, 4, 2, 3, 9, 8, 10] && up == [2, 1, 5]
  {
    FiveIsRoot(arena.Picture(), sh, [6, 7, 1, 9, 8, 10]);
    FullOrder(sh);
    ValidWalkable(arena.Picture(), sh, 5);
    pre := IdTree.DescendantsAll(arena, 5, sh);
    AncestorsOfTwo(arena.Picture(), sh);
    var it := IdTree.Ancestors(arena, 2);
    up := IdTree.Collect(it, sh);
  }

  /** The idtree `detach(1)`: whatever stale links 1 keeps, every children list of
      the result spells out the test tree without 1, whose pre-order from 5 is
      `[5, 6, 7, 9, 8, 10]`. */
  lemma IdTreeDetachOne(m: Picture<nat>, sh: Shape<nat>)
    requires Valid(m, sh) && TestLike(sh, [6, 7, 1, 9, 8, 10])
    ensures var after := sh.(kids := KidsWithout(m, sh.kids, 1));
      && (forall q | q in m :: ListLinked(Unlinked(m, 1), q, after.kids[q]))
      && Ranked(after) && PreOrder(after, 5) == [5, 6, 7, 9, 8, 10]
  {
    var after := sh.(kids := KidsWithout(m, sh.kids, 1));
    KidsWithoutChild(m, sh, 2);
    Removals(sh.kids[5]);
    TestLikeRemove(sh, [6, 7, 1, 9, 8, 10], 2);
    TestLikeRanked(after, [6, 7, 9, 8, 10]);
    OrderWithoutOne(after);
    IdTree.DetachChildren(m, sh, 1);
  }

  /** The rctree `detach` of 8: on a closed picture of the test tree the result is a
      well-formed picture of the tree without 8, whose pre-order from 5 is
      `[5, 6, 7, 1, 4, 2, 3, 9, 10]`. */
  lemma RcTreeDetachEight(m: Picture<nat>, sh: Shape<nat>)
    requires Valid(m, sh) && Closed(m) && TestLike(sh, [6, 7, 1, 9, 8, 10])
    ensures var after := sh.(kids := KidsWithout(m, sh.kids, 8));
      && Free(DetachTaken(m, 8), 8) && Valid(DetachTaken(m, 8), after)
      && PreOrder(after, 5) == [5, 6, 7, 1, 4, 2, 3, 9, 10]
  {
    var after := sh.(kids := KidsWithout(m, sh.kids, 8));
    KidsWithoutChild(m, sh, 4);
    Removals(sh.kids[5]);
    TestLikeRemove(sh, [6, 7, 1, 9, 8, 10], 4);
    TestLikeRanked(after, [6, 7, 1, 9, 10]);
    OrderWithoutEight(after);
    DetachMoves(m, sh, 8);
  }
}

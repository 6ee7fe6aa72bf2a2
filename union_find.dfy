/**
 * union_find: disjoint sets over a parent vector with path compression and union
 * by size. Each added value gets the next index; `index` maps values to their
 * indices, `parent` links every index towards the root of its set and `size`
 * holds, at a root, the size the structure attributes to the set.
 *
 * The parent links never form a cycle other than a root pointing to itself. The
 * model shows this with a ghost `rank` per index that strictly increases from a
 * child to its parent, and a ghost `bound` above every rank.
 */
module UnionFind {
  import opened Wrappers

  /** The parent links stay inside the vector and climb in rank. */
  ghost predicate Forest(p: seq<nat>, rank: seq<nat>, bound: nat)
  {
    && |rank| == |p|
    && (forall i | 0 <= i < |p| :: p[i] < |p| && rank[i] < bound)
    && (forall i {:trigger p[i]} | 0 <= i < |p| && p[i] != i :: rank[i] < rank[p[i]])
  }

  /** The root reached from `i` by following parent links. */
  ghost function Root(p: seq<nat>, rank: seq<nat>, bound: nat, i: nat): (r: nat)
    requires Forest(p, rank, bound) && i < |p|
    ensures r < |p| && p[r] == r
    ensures r != i ==> rank[i] < rank[r]
  {
    Climb(p, rank, bound, i)
  }

  /** The climb that `Root` names. (Quantified facts about roots mention only
      `Root`, so unfolding this recursion does not feed them new instances.) */
  ghost function Climb(p: seq<nat>, rank: seq<nat>, bound: nat, i: nat): (r: nat)
    requires Forest(p, rank, bound) && i < |p|
    ensures r < |p| && p[r] == r
    ensures r != i ==> rank[i] < rank[r]
    decreases bound - rank[i]
  {
    if p[i] == i then i else Climb(p, rank, bound, p[i])
  }

  /** A root is its own root; any other index has its parent's root. */
  lemma RootStep(p: seq<nat>, rank: seq<nat>, bound: nat, i: nat)
    requires Forest(p, rank, bound) && i < |p|
    ensures Root(p, rank, bound, i) == if p[i] == i then i else Root(p, rank, bound, p[i])
  {
  }

  /** `p` and `q` send every index to the same root. */
  ghost predicate SameRoots(p: seq<nat>, q: seq<nat>, rank: seq<nat>, bound: nat)
    requires Forest(p, rank, bound) && Forest(q, rank, bound) && |p| == |q|
  {
    forall j | 0 <= j < |p| :: Root(q, rank, bound, j) == Root(p, rank, bound, j)
  }

  /** What `set_by_idx(i)` leaves in `parent`: every index on the path from `i`
      below the root now points straight at the root. */
  ghost function Compress(p: seq<nat>, rank: seq<nat>, bound: nat, i: nat): (q: seq<nat>)
    requires Forest(p, rank, bound) && i < |p|
    ensures |q| == |p|
    decreases bound - rank[i]
  {
    if p[i] == i then p else Compress(p, rank, bound, p[i])[i := Root(p, rank, bound, p[i])]
  }

  /** Pointing `i` straight at its root keeps the forest and every index's root. */
  lemma RedirectSound(p: seq<nat>, rank: seq<nat>, bound: nat, i: nat)
    requires Forest(p, rank, bound) && i < |p|
    ensures Forest(p[i := Root(p, rank, bound, i)], rank, bound)
    ensures SameRoots(p, p[i := Root(p, rank, bound, i)], rank, bound)
  {
    var q := p[i := Root(p, rank, bound, i)];
    forall j | 0 <= j < |p| ensures Root(q, rank, bound, j) == Root(p, rank, bound, j) {
      RedirectRoot(p, rank, bound, i, j);
    }
  }

  /** The root of `j` after pointing `i` at its root, one index at a time. */
  lemma {:induction false} RedirectRoot(p: seq<nat>, rank: seq<nat>, bound: nat, i: nat, j: nat)
    requires Forest(p, rank, bound) && i < |p| && j < |p|
    requires Forest(p[i := Root(p, rank, bound, i)], rank, bound)
    ensures Root(p[i := Root(p, rank, bound, i)], rank, bound, j) == Root(p, rank, bound, j)
    decreases bound - rank[j]
  {
    var r := Root(p, rank, bound, i);
    var q := p[i := r];
    RootStep(q, rank, bound, j);
    RootStep(p, rank, bound, j);
    if j == i {
      if p[i] != i {
        RootStep(q, rank, bound, r);
      } else {
        assert q == p;
      }
    } else if p[j] != j {
      RedirectRoot(p, rank, bound, i, p[j]);
    }
  }

  /** `set_by_idx` keeps the forest and every index's root. */
  lemma {:induction false} CompressSound(p: seq<nat>, rank: seq<nat>, bound: nat, i: nat)
    requires Forest(p, rank, bound) && i < |p|
    ensures Forest(Compress(p, rank, bound, i), rank, bound)
    ensures SameRoots(p, Compress(p, rank, bound, i), rank, bound)
    decreases bound - rank[i]
  {
    if p[i] != i {
      var q := Compress(p, rank, bound, p[i]);
      CompressSound(p, rank, bound, p[i]);
      assert Root(q, rank, bound, i) == Root(p, rank, bound, p[i]);
      RedirectSound(q, rank, bound, i);
    }
  }

  /** Moving from `p` to `q`, exactly the indices whose root was `loser` now have
      root `winner`; every other index keeps its root. */
  ghost predicate Merged(p: seq<nat>, rank: seq<nat>, bound: nat, q: seq<nat>, rank': seq<nat>, bound': nat,
                         loser: nat, winner: nat)
    requires Forest(p, rank, bound) && Forest(q, rank', bound')
  {
    && |q| == |p|
    && forall j | 0 <= j < |p| ::
         Root(q, rank', bound', j) == if Root(p, rank, bound, j) == loser then winner else Root(p, rank, bound, j)
  }

  /** Linking root `a` under root `b` (raising `b`'s rank above `a`'s) gives a
      forest in which exactly the indices of `a`'s set now have root `b`. */
  lemma LinkSound(p: seq<nat>, rank: seq<nat>, bound: nat, a: nat, b: nat)
    requires Forest(p, rank, bound) && a < |p| && b < |p| && a != b && p[a] == a && p[b] == b
    ensures Forest(p[a := b], LinkRank(rank, a, b), LinkBound(rank, bound, a, b))
    ensures Merged(p, rank, bound, p[a := b], LinkRank(rank, a, b), LinkBound(rank, bound, a, b), a, b)
  {
    forall j | 0 <= j < |p|
      ensures Root(p[a := b], LinkRank(rank, a, b), LinkBound(rank, bound, a, b), j) ==
        if Root(p, rank, bound, j) == a then b else Root(p, rank, bound, j)
    {
      LinkRoot(p, rank, bound, a, b, j);
    }
  }

  /** Path compression before a merge does not change what the merge does, and
      after merging the sets of roots `a` and `b`, the indices `i1` and `i2` that
      had those roots share one. */
  lemma UnionMerges(p: seq<nat>, q: seq<nat>, rank: seq<nat>, bound: nat,
                    u: seq<nat>, rank': seq<nat>, bound': nat, size: seq<nat>, i1: nat, i2: nat)
    requires Forest(p, rank, bound) && Forest(q, rank, bound) && Forest(u, rank', bound') && |p| == |q| == |size|
    requires i1 < |p| && i2 < |p| && SameRoots(p, q, rank, bound)
    requires var a, b := Root(p, rank, bound, i1), Root(p, rank, bound, i2);
      Merged(q, rank, bound, u, rank', bound', Loser(size, a, b), Winner(size, a, b))
    ensures var a, b := Root(p, rank, bound, i1), Root(p, rank, bound, i2);
      Merged(p, rank, bound, u, rank', bound', Loser(size, a, b), Winner(size, a, b))
    ensures Root(u, rank', bound', i1) == Root(u, rank', bound', i2)
  {
  }

  /** The root that wins a union: `a` only when its size is strictly larger. */
  function Winner(size: seq<nat>, a: nat, b: nat): nat
    requires a < |size| && b < |size|
  {
    if size[a] > size[b] then a else b
  }

  /** The root that goes under the other in a union. */
  function Loser(size: seq<nat>, a: nat, b: nat): nat
    requires a < |size| && b < |size|
  {
    if size[a] > size[b] then b else a
  }

  /** The sizes after a union of roots `a` and `b`: the winner's size is the
      sum of both. */
  function Grown(size: seq<nat>, a: nat, b: nat): (g: seq<nat>)
    requires a < |size| && b < |size|
    ensures |g| == |size| && g[Winner(size, a, b)] == size[a] + size[b]
    ensures forall j | 0 <= j < |size| && j != Winner(size, a, b) :: g[j] == size[j]
  {
    size[Winner(size, a, b) := size[a] + size[b]]
  }

  /** The ranks after linking `a` under `b`. */
  ghost function LinkRank(rank: seq<nat>, a: nat, b: nat): seq<nat>
    requires a < |rank| && b < |rank|
  {
    rank[b := if rank[b] > rank[a] then rank[b] else rank[a] + 1]
  }

  /** The rank bound after linking `a` under `b`. */
  ghost function LinkBound(rank: seq<nat>, bound: nat, a: nat, b: nat): nat
    requires a < |rank|
  {
    if bound > rank[a] + 1 then bound else rank[a] + 2
  }

  /** The root of `j` after linking, one index at a time. */
  lemma {:induction false} LinkRoot(p: seq<nat>, rank: seq<nat>, bound: nat, a: nat, b: nat, j: nat)
    requires Forest(p, rank, bound) && a < |p| && b < |p| && a != b && p[a] == a && p[b] == b && j < |p|
    ensures Forest(p[a := b], LinkRank(rank, a, b), LinkBound(rank, bound, a, b))
    ensures Root(p[a := b], LinkRank(rank, a, b), LinkBound(rank, bound, a, b), j) ==
      if Root(p, rank, bound, j) == a then b else Root(p, rank, bound, j)
    decreases bound - rank[j]
  {
    var q, rank', bound' := p[a := b], LinkRank(rank, a, b), LinkBound(rank, bound, a, b);
    assert Forest(q, rank', bound') by {
      forall i | 0 <= i < |q| && q[i] != i ensures rank'[i] < rank'[q[i]] {
        if i != a && i != b { assert q[i] == p[i]; }
      }
    }
    RootStep(q, rank', bound', j);
    RootStep(p, rank, bound, j);
    if p[j] != j {
      LinkRoot(p, rank, bound, a, b, p[j]);
    } else if j == a {
      RootStep(q, rank', bound', b);
    }
  }

  /** Appending a fresh singleton index keeps the forest and every old root. */
  lemma {:induction false} AddRoot(p: seq<nat>, rank: seq<nat>, bound: nat, j: nat)
    requires Forest(p, rank, bound) && j < |p|
    ensures Forest(p + [|p|], rank + [0], bound + 1)
    ensures Root(p + [|p|], rank + [0], bound + 1, j) == Root(p, rank, bound, j)
    decreases bound - rank[j]
  {
    RootStep(p + [|p|], rank + [0], bound + 1, j);
    RootStep(p, rank, bound, j);
    if p[j] != j {
      AddRoot(p, rank, bound, p[j]);
    }
  }

  /** Appending a fresh singleton changes no old root, and the new index is its
      own root. */
  lemma AddRoots(p: seq<nat>, rank: seq<nat>, bound: nat)
    requires Forest(p, rank, bound)
    ensures Forest(p + [|p|], rank + [0], bound + 1)
    ensures Root(p + [|p|], rank + [0], bound + 1, |p|) == |p|
    ensures forall j | 0 <= j < |p| :: Root(p + [|p|], rank + [0], bound + 1, j) == Root(p, rank, bound, j)
  {
    var q, rank', bound' := p + [|p|], rank + [0], bound + 1;
    assert Forest(q, rank', bound') by {
      forall i | 0 <= i < |q| && q[i] != i ensures rank'[i] < rank'[q[i]] {
        assert q[i] == p[i];
      }
    }
    RootStep(q, rank', bound', |p|);
    forall j | 0 <= j < |p| ensures Root(q, rank', bound', j) == Root(p, rank, bound, j) {
      AddRoot(p, rank, bound, j);
    }
  }

  /** The indices whose root is `r`. */
  ghost function Members(p: seq<nat>, rank: seq<nat>, bound: nat, r: nat): set<nat>
    requires Forest(p, rank, bound)
  {
    set j | 0 <= j < |p| && Root(p, rank, bound, j) == r
  }

  /** At every root, `size` is the number of indices in its set. */
  ghost predicate SizesCount(p: seq<nat>, size: seq<nat>, rank: seq<nat>, bound: nat)
    requires Forest(p, rank, bound)
  {
    |size| == |p| && forall r {:trigger Members(p, rank, bound, r)} | 0 <= r < |p| && p[r] == r :: size[r] == |Members(p, rank, bound, r)|
  }

  /** Appending a fresh singleton of size one keeps sizes counting. */
  lemma AddSizes(p: seq<nat>, size: seq<nat>, rank: seq<nat>, bound: nat)
    requires Forest(p, rank, bound) && SizesCount(p, size, rank, bound)
    ensures Forest(p + [|p|], rank + [0], bound + 1)
    ensures SizesCount(p + [|p|], size + [1], rank + [0], bound + 1)
  {
    var q, size', rank', bound' := p + [|p|], size + [1], rank + [0], bound + 1;
    AddRoots(p, rank, bound);
    forall r | 0 <= r < |q| && q[r] == r ensures size'[r] == |Members(q, rank', bound', r)| {
      if r < |p| {
        assert Members(q, rank', bound', r) == Members(p, rank, bound, r);
      } else {
        assert Members(q, rank', bound', r) == {r};
      }
    }
  }

  /** Changing no index's root keeps the roots, the sets and so the sizes. */
  lemma SameRootsSizes(p: seq<nat>, q: seq<nat>, size: seq<nat>, rank: seq<nat>, bound: nat)
    requires Forest(p, rank, bound) && Forest(q, rank, bound) && |p| == |q|
    requires SameRoots(p, q, rank, bound) && SizesCount(p, size, rank, bound)
    ensures SizesCount(q, size, rank, bound)
  {
    forall r | 0 <= r < |q| && q[r] == r ensures size[r] == |Members(q, rank, bound, r)| {
      RootStep(q, rank, bound, r);
      assert Root(p, rank, bound, r) == r;
      assert Members(q, rank, bound, r) == Members(p, rank, bound, r);
    }
  }

  /** Merging the set of root `loser` into that of root `winner` and adding its
      size to the winner's keeps sizes counting. */
  lemma MergedSizes(p: seq<nat>, rank: seq<nat>, bound: nat, q: seq<nat>, rank': seq<nat>, bound': nat,
                    size: seq<nat>, loser: nat, winner: nat, size': seq<nat>)
    requires Forest(p, rank, bound) && Forest(q, rank', bound') && SizesCount(p, size, rank, bound)
    requires loser < |p| && winner < |p| && loser != winner && p[loser] == loser && p[winner] == winner
    requires Merged(p, rank, bound, q, rank', bound', loser, winner)
    requires size' == size[winner := size[loser] + size[winner]]
    ensures SizesCount(q, size', rank', bound')
  {
    forall r | 0 <= r < |q| && q[r] == r ensures size'[r] == |Members(q, rank', bound', r)| {
      RootStep(q, rank', bound', r);
      if r == winner {
        var ml, mw := Members(p, rank, bound, loser), Members(p, rank, bound, winner);
        assert Members(q, rank', bound', r) == ml + mw;
        assert ml * mw == {};
      } else {
        RootStep(p, rank, bound, r);
        assert Root(p, rank, bound, r) == r;
        assert Members(q, rank', bound', r) == Members(p, rank, bound, r);
      }
    }
  }

  /** A union of two distinct roots, as `LinkRoots` does it, keeps sizes
      counting the sets. */
  lemma UnionSizes(p: seq<nat>, rank: seq<nat>, bound: nat, q: seq<nat>, rank': seq<nat>, bound': nat,
                   size: seq<nat>, a: nat, b: nat)
    requires Forest(p, rank, bound) && Forest(q, rank', bound') && SizesCount(p, size, rank, bound)
    requires a < |p| && b < |p| && a != b && p[a] == a && p[b] == b
    requires Merged(p, rank, bound, q, rank', bound', Loser(size, a, b), Winner(size, a, b))
    ensures SizesCount(q, Grown(size, a, b), rank', bound')
  {
    var l, w := Loser(size, a, b), Winner(size, a, b);
    assert Grown(size, a, b) == size[w := size[l] + size[w]];
    MergedSizes(p, rank, bound, q, rank', bound', size, l, w, Grown(size, a, b));
  }

  /** `union_sets` on two values of the same set links their root `a` to itself
      and doubles its size, which then no longer counts the set: every set holds
      at least its root. */
  lemma SelfUnionDoubles(p: seq<nat>, size: seq<nat>, rank: seq<nat>, bound: nat, a: nat)
    requires Forest(p, rank, bound) && SizesCount(p, size, rank, bound) && a < |p| && p[a] == a
    ensures Winner(size, a, a) == Loser(size, a, a) == a && p[Loser(size, a, a) := Winner(size, a, a)] == p
    ensures Grown(size, a, a)[a] == 2 * size[a] > size[a]
    ensures !SizesCount(p, Grown(size, a, a), rank, bound)
  {
    RootStep(p, rank, bound, a);
    assert a in Members(p, rank, bound, a);
  }

  class UnionFind<T(==)> {
    var index: map<T, nat>
    var parent: seq<nat>
    var size: seq<nat>
    ghost var rank: seq<nat>
    ghost var bound: nat

    ghost predicate Valid()
      reads this
    {
      && Forest(parent, rank, bound)
      && |size| == |parent|
      && (forall v | v in index :: index[v] < |parent|)
    }

    /** The root of index `i`. */
    ghost function RootOf(i: nat): nat
      reads this
      requires Valid() && i < |parent|
    {
      Root(parent, rank, bound, i)
    }

    /** `new`: no sets. */
    constructor ()
      ensures index == map[] && parent == [] && size == [] && rank == [] && bound == 0
      ensures Valid() && SizesCount(parent, size, rank, bound)
    {
      index := map[];
      parent := [];
      size := [];
      rank := [];
      bound := 0;
    }

    /** `add_set(value)`: a new singleton with the next index, which `value` now
        maps to. `AddRoots` and `AddSizes` show that every old index keeps its
        root and that sizes keep counting. */
    method AddSet(value: T)
      requires Valid()
      modifies this
      ensures index == old(index)[value := old(|parent|)]
      ensures parent == old(parent) + [old(|parent|)] && size == old(size) + [1]
      ensures rank == old(rank) + [0] && bound == old(bound) + 1
      ensures Valid()
      ensures RootOf(old(|parent|)) == old(|parent|)
    {
      ghost var p, rk, bd := parent, rank, bound;
      var newIdx := |parent|;
      index := index[value := newIdx];
      parent := parent + [newIdx];
      size := size + [1];
      rank := rank + [0];
      bound := bound + 1;
      AddRoots(p, rk, bd);
    }

    /** `set_by_idx(idx)`: the root of `idx`, compressing the path to it. No
        index changes root. */
    method SetByIdx(idx: nat) returns (r: nat)
      requires Valid() && idx < |parent|
      modifies this
      ensures Valid() && index == old(index) && size == old(size) && rank == old(rank) && bound == old(bound)
      ensures r == old(RootOf(idx)) && parent[r] == r
      ensures parent == Compress(old(parent), rank, bound, idx)
      ensures SameRoots(old(parent), parent, rank, bound)
      decreases bound - rank[idx]
    {
      ghost var p := parent;
      CompressSound(p, rank, bound, idx);
      if parent[idx] == idx {
        r := idx;
      } else {
        var up := parent[idx];
        var root := SetByIdx(up);
        parent := parent[idx := root];
        r := parent[idx];
      }
    }

    /** `find_set(value)`: the root of `value`'s index, or `None` for a value never
        added. */
    method FindSet(value: T) returns (r: Option<nat>)
      requires Valid()
      modifies this
      ensures Valid() && index == old(index) && size == old(size) && rank == old(rank) && bound == old(bound)
      ensures |parent| == old(|parent|) && SameRoots(old(parent), parent, rank, bound)
      ensures r.None? <==> value !in index
      ensures r.Some? ==> r.value == old(RootOf(index[value])) && parent[r.value] == r.value
    {
      if value in index {
        var idx := index[value];
        var root := SetByIdx(idx);
        r := Some(root);
      } else {
        r := None;
      }
    }

    /** `same_set(first, second)`: both values were added and have the same root. */
    method SameSet(first: T, second: T) returns (b: bool)
      requires Valid()
      modifies this
      ensures Valid() && index == old(index) && size == old(size) && rank == old(rank) && bound == old(bound)
      ensures |parent| == old(|parent|) && SameRoots(old(parent), parent, rank, bound)
      ensures b <==> first in index && second in index && old(RootOf(index[first])) == old(RootOf(index[second]))
    {
      ghost var p := parent;
      var a := FindSet(first);
      if a.Some? {
        ghost var p1 := parent;
        var c := FindSet(second);
        assert SameRoots(p, parent, rank, bound) by {
          assert SameRoots(p, p1, rank, bound);
        }
        if c.Some? {
          return a.value == c.value;
        }
      }
      b := false;
    }

    /** The linking half of `union_sets` (lines 57-66), on the two roots found:
        the root with the smaller size (`a` on a tie) goes under the other, whose
        size grows by the other's. Exactly the loser's set moves to the winner. */
    method LinkRoots(a: nat, b: nat)
      requires Valid() && a < |parent| && b < |parent| && parent[a] == a && parent[b] == b
      modifies this
      ensures index == old(index)
      ensures parent == old(parent)[Loser(old(size), a, b) := Winner(old(size), a, b)]
      ensures size == Grown(old(size), a, b)
      ensures Valid()
      ensures Merged(old(parent), old(rank), old(bound), parent, rank, bound, Loser(old(size), a, b), Winner(old(size), a, b))
    {
      var size1, size2 := size[a], size[b];
      ghost var q, rk, bd := parent, rank, bound;
      if size1 > size2 {
        parent := parent[b := a];
        size := size[a := size[a] + size2];
        rank := LinkRank(rk, b, a);
        bound := LinkBound(rk, bd, b, a);
        LinkSound(q, rk, bd, b, a);
      } else {
        parent := parent[a := b];
        size := size[b := size[b] + size1];
        if a != b {
          rank := LinkRank(rk, a, b);
          bound := LinkBound(rk, bd, a, b);
          LinkSound(q, rk, bd, a, b);
        } else {
          assert parent == q;
        }
      }
    }

    /** `union_sets(first, second)`: with both values present, their roots are
        linked by `LinkRoots`, after which the two values share a root; the finds
        before only compress paths. */
    method UnionSets(first: T, second: T)
      requires Valid()
      modifies this
      ensures index == old(index) && |parent| == old(|parent|)
      ensures Valid()
      ensures first !in index || second !in index ==>
        size == old(size) && rank == old(rank) && bound == old(bound) && SameRoots(old(parent), parent, rank, bound)
      ensures first in index && second in index ==>
        var a := Root(old(parent), old(rank), old(bound), index[first]);
        var b := Root(old(parent), old(rank), old(bound), index[second]);
        && size == Grown(old(size), a, b)
        && Merged(old(parent), old(rank), old(bound), parent, rank, bound, Loser(old(size), a, b), Winner(old(size), a, b))
        && Root(parent, rank, bound, index[first]) == Root(parent, rank, bound, index[second])
    {
      ghost var p, rk, bd, sz := parent, rank, bound, size;
      var f := FindSet(first);
      if f.None? {
        return;
      }
      ghost var p1 := parent;
      var s := FindSet(second);
      assert SameRoots(p, parent, rank, bound) by {
        assert SameRoots(p, p1, rank, bound);
      }
      if s.None? {
        return;
      }
      ghost var i1, i2 := index[first], index[second];
      ghost var p2 := parent;
      assert f.value == Root(p, rk, bd, i1) && s.value == Root(p, rk, bd, i2);
      assert size == sz;
      LinkRoots(f.value, s.value);
      UnionMerges(p, p2, rk, bd, parent, rank, bound, sz, i1, i2);
    }

    /** The corrected `union_sets` of the README's Findings table: as `UnionSets`,
        except that two values that already share a root change nothing but
        compressed paths. With
        `SameRootsSizes` and `UnionSizes`, sizes keep counting the sets. */
    method UnionSetsFixed(first: T, second: T)
      requires Valid()
      modifies this
      ensures index == old(index) && |parent| == old(|parent|)
      ensures Valid()
      ensures first !in index || second !in index ==>
        size == old(size) && rank == old(rank) && bound == old(bound) && SameRoots(old(parent), parent, rank, bound)
      ensures first in index && second in index ==>
        var a := Root(old(parent), old(rank), old(bound), index[first]);
        var b := Root(old(parent), old(rank), old(bound), index[second]);
        && (a == b ==> size == old(size) && rank == old(rank) && bound == old(bound) && SameRoots(old(parent), parent, rank, bound))
        && (a != b ==>
              size == Grown(old(size), a, b) &&
              Merged(old(parent), old(rank), old(bound), parent, rank, bound, Loser(old(size), a, b), Winner(old(size), a, b)))
        && Root(parent, rank, bound, index[first]) == Root(parent, rank, bound, index[second])
    {
      ghost var p, rk, bd, sz := parent, rank, bound, size;
      var f := FindSet(first);
      if f.None? {
        return;
      }
      ghost var p1 := parent;
      var s := FindSet(second);
      assert SameRoots(p, parent, rank, bound) by {
        assert SameRoots(p, p1, rank, bound);
      }
      if s.None? {
        return;
      }
      ghost var i1, i2 := index[first], index[second];
      assert f.value == Root(p, rk, bd, i1) && s.value == Root(p, rk, bd, i2);
      if f.value == s.value {
        return;
      }
      ghost var p2 := parent;
      LinkRoots(f.value, s.value);
      UnionMerges(p, p2, rk, bd, parent, rank, bound, sz, i1, i2);
    }
  }
}

/**
 * list_graph: a directed graph stored as one edge list per vertex. Edges keep their
 * insertion order; adding an edge that already exists adds it again.
 */
module ListGraph {
  import opened Wrappers
  import opened Graph
  import Queue

  /** The targets of `es`, in order. */
  function Targets<W>(es: seq<Edge<W>>): (r: seq<nat>)
    ensures |r| == |es| && forall i :: 0 <= i < |es| ==> r[i] == es[i].to
  {
    if |es| == 0 then [] else Targets(es[..|es| - 1]) + [es[|es| - 1].to]
  }

  /** The successor lists the edge lists describe. */
  function Adj<W>(edgeList: seq<seq<Edge<W>>>): (adj: seq<seq<nat>>)
    ensures |adj| == |edgeList|
  {
    seq(|edgeList|, v requires 0 <= v < |edgeList| => Targets(edgeList[v]))
  }

  /** Every edge in `v`'s list leaves `v` and enters one of the `n` vertices, as the
      assertion in `add_directed_edge` ensures. */
  ghost predicate Consistent<W>(n: nat, edgeList: seq<seq<Edge<W>>>)
  {
    |edgeList| == n &&
    forall v, j :: 0 <= v < n && 0 <= j < |edgeList[v]| ==>
      edgeList[v][j].from == v && edgeList[v][j].to < n
  }

  lemma ConsistentWellFormed<W>(edgeList: seq<seq<Edge<W>>>)
    requires Consistent(|edgeList|, edgeList)
    ensures WellFormed(Adj(edgeList))
  {
    var adj := Adj(edgeList);
    forall v, j | 0 <= v < |adj| && 0 <= j < |adj[v]|
      ensures adj[v][j] < |adj|
    {
      assert adj[v] == Targets(edgeList[v]);
    }
  }

  /** The lists joined in vertex order (`extend_from_slice` per list). */
  function Flatten<W>(ls: seq<seq<Edge<W>>>): seq<Edge<W>>
  {
    if |ls| == 0 then [] else Flatten(ls[..|ls| - 1]) + ls[|ls| - 1]
  }

  lemma {:induction false} FlattenMembers<W>(ls: seq<seq<Edge<W>>>, e: Edge<W>)
    ensures e in Flatten(ls) <==> exists v :: 0 <= v < |ls| && e in ls[v]
  {
    if |ls| > 0 {
      var n := |ls| - 1;
      FlattenMembers(ls[..n], e);
      if e in Flatten(ls[..n]) {
        var v :| 0 <= v < n && e in ls[..n][v];
        assert e in ls[v];
      } else if e in ls[n] {
      } else {
        forall v | 0 <= v < |ls|
          ensures e !in ls[v]
        {
          if v < n {
            assert ls[v] == ls[..n][v];
          }
        }
      }
    }
  }

  /** `Vec::dedup`: each run of equal consecutive elements kept once. */
  function Dedup<E(==)>(s: seq<E>): seq<E>
  {
    if |s| == 0 then []
    else
      var d := Dedup(s[..|s| - 1]);
      if |d| > 0 && d[|d| - 1] == s[|s| - 1] then d else d + [s[|s| - 1]]
  }

  ghost predicate NoRepeats<E>(s: seq<E>)
  {
    forall i :: 0 < i < |s| ==> s[i - 1] != s[i]
  }

  /** `dedup` leaves no element next to an equal one, keeps the last element, and
      keeps exactly the elements there were. */
  lemma {:induction false} DedupSpec<E>(s: seq<E>)
    ensures var d := Dedup(s);
      NoRepeats(d) && |d| <= |s| && (|s| > 0 ==> |d| > 0 && d[|d| - 1] == s[|s| - 1]) &&
      forall x :: x in d <==> x in s
  {
    if |s| > 0 {
      var n := |s| - 1;
      DedupSpec(s[..n]);
      assert s == s[..n] + [s[n]];
    }
  }

  /** A sequence with nothing to remove comes back unchanged. */
  lemma {:induction false} DedupFixed<E>(s: seq<E>)
    requires NoRepeats(s)
    ensures Dedup(s) == s
  {
    if |s| > 0 {
      var n := |s| - 1;
      assert NoRepeats(s[..n]);
      DedupFixed(s[..n]);
      assert s == s[..n] + [s[n]];
    }
  }

  /** The last `src -> des` edge in `es`, if any (`filter` then `pop`). */
  function LastMatch<W>(es: seq<Edge<W>>, des: nat): (r: Option<Edge<W>>)
    ensures r.None? <==> forall i :: 0 <= i < |es| ==> es[i].to != des
    ensures r.Some? ==> exists i :: 0 <= i < |es| && es[i] == r.value && es[i].to == des &&
                          forall j :: i < j < |es| ==> es[j].to != des
  {
    if |es| == 0 then None
    else if es[|es| - 1].to == des then Some(es[|es| - 1])
    else LastMatchInit(es, des); LastMatch(es[..|es| - 1], des)
  }

  /** Dropping a last edge that does not enter `des` keeps every edge that does. */
  lemma LastMatchInit<W>(es: seq<Edge<W>>, des: nat)
    requires |es| > 0 && es[|es| - 1].to != des
    ensures var p := es[..|es| - 1];
      (forall i :: 0 <= i < |es| ==> es[i].to != des) <==> (forall i :: 0 <= i < |p| ==> p[i].to != des)
  {
    var p := es[..|es| - 1];
    assert forall i :: 0 <= i < |p| ==> p[i] == es[i];
  }

  /** After `src -> des` is appended, it is the last edge to `des`, and the last edge
      to any other target is what it was. */
  lemma AddedWeight<W>(es: seq<Edge<W>>, src: nat, des: nat, weight: Option<W>, other: nat)
    ensures LastMatch(es + [Edge(src, des, weight)], des) == Some(Edge(src, des, weight))
    ensures other != des ==> LastMatch(es + [Edge(src, des, weight)], other) == LastMatch(es, other)
  {
    assert (es + [Edge(src, des, weight)])[..|es|] == es;
  }

  class ListGraph<T, W(==)> {
    var vertices: seq<Vertex<T>>
    var edgeList: seq<seq<Edge<W>>>

    ghost predicate Valid()
      reads this
    {
      Consistent(|vertices|, edgeList) &&
      forall i :: 0 <= i < |vertices| ==> vertices[i].index == i
    }

    /** `new`: no vertices, no edges. */
    constructor ()
      ensures Valid() && vertices == [] && edgeList == []
    {
      vertices := [];
      edgeList := [];
    }

    /** `create_vertex`: the next id, 0, 1, 2, ... in order, with an empty edge
        list. */
    method CreateVertex(data: T) returns (id: nat)
      modifies this
      requires Valid()
      ensures Valid() && id == old(|vertices|)
      ensures vertices == old(vertices) + [Vertex(data, id)] && edgeList == old(edgeList) + [[]]
    {
      id := |vertices|;
      vertices := vertices + [Vertex(data, id)];
      edgeList := edgeList + [[]];
    }

    /** `add_directed_edge`: one more edge at the end of `src`'s list (which
        `AddedWeight` shows is then the edge `get_weight(src, des)` reports). */
    method AddDirectedEdge(src: nat, des: nat, weight: Option<W>)
      modifies this
      requires Valid() && src < |vertices| && des < |vertices|
      ensures Valid() && vertices == old(vertices)
      ensures edgeList == old(edgeList)[src := old(edgeList)[src] + [Edge(src, des, weight)]]
    {
      edgeList := edgeList[src := edgeList[src] + [Edge(src, des, weight)]];
    }

    /** `add_undirected_edge`: `src -> des`, then `des -> src`. */
    method AddUndirectedEdge(src: nat, des: nat, weight: Option<W>)
      modifies this
      requires Valid() && src < |vertices| && des < |vertices|
      ensures Valid() && vertices == old(vertices)
      ensures var once := old(edgeList)[src := old(edgeList)[src] + [Edge(src, des, weight)]];
        edgeList == once[des := once[des] + [Edge(des, src, weight)]]
    {
      AddDirectedEdge(src, des, weight);
      AddDirectedEdge(des, src, weight);
    }

    /** `get_weight`: `None` when `src` has no edge to `des`; otherwise the weight of
        the last such edge added. */
    function GetWeight(src: nat, des: nat): (w: Option<W>)
      reads this
      requires Valid() && src < |vertices| && des < |vertices|
      ensures (forall i :: 0 <= i < |edgeList[src]| ==> edgeList[src][i].to != des) ==> w.None?
      ensures (exists i :: 0 <= i < |edgeList[src]| && edgeList[src][i].to == des) ==>
        exists i :: 0 <= i < |edgeList[src]| && edgeList[src][i].to == des &&
          edgeList[src][i].weight == w &&
          forall j :: i < j < |edgeList[src]| ==> edgeList[src][j].to != des
    {
      match LastMatch(edgeList[src], des)
      case None => None
      case Some(e) => e.weight
    }

    /** `edges_from_src`: `src`'s edges in insertion order, each leaving `src`. */
    method EdgesFromSrc(src: nat) returns (r: seq<Edge<W>>)
      requires Valid() && src < |vertices|
      ensures r == edgeList[src]
      ensures forall i :: 0 <= i < |r| ==> r[i].from == src && r[i].to < |vertices|
    {
      r := edgeList[src];
    }

    /** `edges`: all lists joined in vertex order, then consecutive duplicates
        dropped. */
    method Edges() returns (r: seq<Edge<W>>)
      requires Valid()
      ensures r == Dedup(Flatten(edgeList))
      ensures NoRepeats(r) && forall e :: e in r <==> exists v :: 0 <= v < |edgeList| && e in edgeList[v]
    {
      var all: seq<Edge<W>> := [];
      var v := 0;
      while v < |edgeList|
        invariant v <= |edgeList| && all == Flatten(edgeList[..v])
      {
        assert edgeList[..v + 1][..v] == edgeList[..v];
        all := all + edgeList[v];
        v := v + 1;
      }
      assert edgeList[..v] == edgeList;
      r := [];
      var i := 0;
      while i < |all|
        invariant i <= |all| && r == Dedup(all[..i])
      {
        assert all[..i + 1][..i] == all[..i];
        if |r| == 0 || r[|r| - 1] != all[i] {
          r := r + [all[i]];
        }
        i := i + 1;
      }
      assert all[..i] == all;
      DedupSpec(all);
      forall e
        ensures e in r <==> exists v :: 0 <= v < |edgeList| && e in edgeList[v]
      {
        FlattenMembers(edgeList, e);
      }
    }

    /** `bfs_traverse`: a FIFO queue seeded with `src`; a dequeued vertex already
        visited is skipped, any other is marked, emitted, and has the targets of its
        edges enqueued in list order. */
    method BfsTraverse(src: nat) returns (r: seq<nat>)
      requires Valid() && src < |vertices|
      ensures WellFormed(Adj(edgeList)) && r == Bfs(Adj(edgeList), src)
      ensures r != [] && r[0] == src && Distinct(r)
      ensures forall v :: v in r <==> Reachable(Adj(edgeList), src, v)
    {
      ConsistentWellFormed(edgeList);
      var adj := Adj(edgeList);
      var visited := Falses(|vertices|);
      var queue := new Queue.Queue<nat>();
      r := [];
      queue.Enqueue(src);
      assert queue.Contents() == [src];
      var empty := queue.IsEmpty();
      while !empty
        invariant fresh(queue) && queue.Valid() && (empty <==> queue.Contents() == [])
        invariant |visited| == |adj|
        invariant forall i :: 0 <= i < |queue.Contents()| ==> queue.Contents()[i] < |adj|
        invariant BfsLoop(adj, queue.Contents(), visited, r) == Bfs(adj, src)
        decreases CountFalse(visited), |queue.Contents()|
      {
        visited, r := BfsStep(queue, visited, r);
        empty := queue.IsEmpty();
      }
      BfsVisitsReachable(adj, src);
    }

    /** One pass of `bfs_traverse`'s loop: the front vertex is dequeued; unless it is
        visited it is marked, emitted, and the targets of its edges are enqueued.
        The loop's outcome from the new state is the same. */
    method BfsStep(queue: Queue.Queue<nat>, visited: seq<bool>, r: seq<nat>) returns (visited': seq<bool>, r': seq<nat>)
      modifies queue
      requires Valid() && queue.Valid() && queue.Contents() != [] && |visited| == |vertices|
      requires forall i :: 0 <= i < |queue.Contents()| ==> queue.Contents()[i] < |vertices|
      ensures queue.Valid() && |visited'| == |vertices| && WellFormed(Adj(edgeList))
      ensures forall i :: 0 <= i < |queue.Contents()| ==> queue.Contents()[i] < |vertices|
      ensures BfsLoop(Adj(edgeList), queue.Contents(), visited', r') == BfsLoop(Adj(edgeList), old(queue.Contents()), visited, r)
      ensures CountFalse(visited') < CountFalse(visited) ||
        (visited' == visited && |queue.Contents()| < |old(queue.Contents())|)
    {
      ConsistentWellFormed(edgeList);
      ghost var adj := Adj(edgeList);
      ghost var q0 := queue.Contents();
      var front := queue.Dequeue();
      var top := front.value;
      visited', r' := visited, r;
      if !visited[top] {
        CountFalseSet(visited, top);
        visited' := visited[top := true];
        r' := r + [top];
        EnqueueTargets(queue, edgeList[top]);
        assert queue.Contents() == q0[1..] + adj[top];
      }
    }

    /** The `for edge in &self.edge_list[top]` loop of `bfs_traverse`: each edge's
        target enqueued, in list order. */
    static method EnqueueTargets(queue: Queue.Queue<nat>, es: seq<Edge<W>>)
      modifies queue
      requires queue.Valid()
      ensures queue.Valid() && queue.Contents() == old(queue.Contents()) + Targets(es)
    {
      var i := 0;
      while i < |es|
        invariant i <= |es| && queue.Valid()
        invariant queue.Contents() == old(queue.Contents()) + Targets(es[..i])
      {
        assert es[..i + 1][..i] == es[..i];
        queue.Enqueue(es[i].to);
        i := i + 1;
      }
      assert es[..i] == es;
    }

    /** `dfs_traverse`: one recursive visit of `src` with nothing visited. */
    method DfsTraverse(src: nat) returns (r: seq<nat>)
      requires Valid() && src < |vertices|
      ensures WellFormed(Adj(edgeList)) && r == Dfs(Adj(edgeList), src)
      ensures r != [] && r[0] == src && Distinct(r)
      ensures forall v :: v in r <==> Reachable(Adj(edgeList), src, v)
    {
      ConsistentWellFormed(edgeList);
      var visited := DfsFrom(src, Falses(|vertices|), []);
      r := visited.1;
      DfsVisitsReachable(Adj(edgeList), src);
    }

    /** `_dfs_traverse`: nothing if `v` is visited; otherwise mark it, emit it, and
        visit the target of each of its edges in list order. */
    method DfsFrom(v: nat, visited: seq<bool>, out: seq<nat>) returns (r: (seq<bool>, seq<nat>))
      requires Valid() && |visited| == |vertices| && v < |vertices|
      ensures WellFormed(Adj(edgeList)) && r == DfsVisit(Adj(edgeList), v, visited, out)
      decreases CountFalse(visited)
    {
      ConsistentWellFormed(edgeList);
      ghost var adj := Adj(edgeList);
      if visited[v] {
        return (visited, out);
      }
      CountFalseSet(visited, v);
      var vis := visited[v := true];
      var o := out + [v];
      var es := edgeList[v];
      assert adj[v] == Targets(es);
      var i := 0;
      while i < |es|
        invariant i <= |es| && |vis| == |adj| && CountFalse(vis) < CountFalse(visited)
        invariant DfsEach(adj, Targets(es)[i..], vis, o) == DfsVisit(adj, v, visited, out)
      {
        assert Targets(es)[i..][1..] == Targets(es)[i + 1..];
        var s := DfsFrom(es[i].to, vis, o);
        vis, o := s.0, s.1;
        i := i + 1;
      }
      r := (vis, o);
    }
  }

  /** The edge lists of the `test_edge` graph: `a -> b`, `a -> c`, `b -> c`. */
  method TestEdge<W(==)>(w: W) returns (fromA: seq<Edge<W>>, fromB: seq<Edge<W>>, all: seq<Edge<W>>)
    ensures fromA == [Edge(0, 1, Some(w)), Edge(0, 2, Some(w))]
    ensures fromB == [Edge(1, 2, Some(w))]
    ensures all == [Edge(0, 1, Some(w)), Edge(0, 2, Some(w)), Edge(1, 2, Some(w))]
  {
    var ab, ac, bc := Edge(0, 1, Some(w)), Edge(0, 2, Some(w)), Edge(1, 2, Some(w));
    var g := new ListGraph<int, W>();
    var a := g.CreateVertex(1);
    var b := g.CreateVertex(2);
    var c := g.CreateVertex(3);
    assert a == 0 && b == 1 && c == 2;
    assert |g.edgeList| == 3 && g.edgeList[0] == [] && g.edgeList[1] == [] && g.edgeList[2] == [];
    g.AddDirectedEdge(a, b, Some(w));
    assert g.edgeList[0] == [ab];
    g.AddDirectedEdge(a, c, Some(w));
    assert g.edgeList[0] == [ab, ac];
    g.AddDirectedEdge(b, c, Some(w));
    assert g.edgeList[1] == [bc];
    fromA := g.EdgesFromSrc(a);
    fromB := g.EdgesFromSrc(b);
    all := g.Edges();
    EdgeScenario(g.edgeList, w);
  }

  /** The joined, deduplicated edges of the `test_edge` lists. */
  lemma EdgeScenario<W>(ls: seq<seq<Edge<W>>>, w: W)
    requires |ls| == 3 && ls[0] == [Edge(0, 1, Some(w)), Edge(0, 2, Some(w))]
    requires ls[1] == [Edge(1, 2, Some(w))] && ls[2] == []
    ensures Dedup(Flatten(ls)) == [Edge(0, 1, Some(w)), Edge(0, 2, Some(w)), Edge(1, 2, Some(w))]
  {
    var ab, ac, bc := Edge(0, 1, Some(w)), Edge(0, 2, Some(w)), Edge(1, 2, Some(w));
    assert ls[..2][..1] == ls[..1] && ls[..1][..0] == [];
    assert Flatten(ls[..1]) == [ab, ac];
    assert Flatten(ls[..2]) == [ab, ac, bc];
    assert Flatten(ls) == [ab, ac, bc] + [];
    assert [ab, ac, bc] + [] == [ab, ac, bc];
    assert NoRepeats([ab, ac, bc]);
    DedupFixed([ab, ac, bc]);
  }

  /** The `test_bfs` / `test_dfs` graph: `a -> b`, `a -> d`, `b -> c`, `c -> d`,
      `d -> b`, `d -> e`. */
  method TestGraph<W(==)>(w: W) returns (g: ListGraph<int, W>)
    ensures fresh(g) && g.Valid() && |g.vertices| == 5
    ensures Adj(g.edgeList) == TestAdj()
  {
    var e01, e03, e12, e23, e31, e34 :=
      Edge(0, 1, Some(w)), Edge(0, 3, Some(w)), Edge(1, 2, Some(w)),
      Edge(2, 3, Some(w)), Edge(3, 1, Some(w)), Edge(3, 4, Some(w));
    g := new ListGraph<int, W>();
    var a := g.CreateVertex(1);
    var b := g.CreateVertex(2);
    var c := g.CreateVertex(3);
    var d := g.CreateVertex(4);
    var e := g.CreateVertex(5);
    assert a == 0 && b == 1 && c == 2 && d == 3 && e == 4;
    assert |g.edgeList| == 5 && g.edgeList[0] == [] && g.edgeList[1] == [] && g.edgeList[2] == [];
    assert g.edgeList[3] == [] && g.edgeList[4] == [];
    g.AddDirectedEdge(a, b, Some(w));
    assert g.edgeList[0] == [e01];
    g.AddDirectedEdge(a, d, Some(w));
    assert g.edgeList[0] == [e01, e03];
    g.AddDirectedEdge(b, c, Some(w));
    assert g.edgeList[1] == [e12];
    g.AddDirectedEdge(c, d, Some(w));
    assert g.edgeList[2] == [e23];
    g.AddDirectedEdge(d, b, Some(w));
    assert g.edgeList[3] == [e31];
    g.AddDirectedEdge(d, e, Some(w));
    assert g.edgeList[3] == [e31, e34];
    GraphScenario(g.edgeList, w);
  }

  /** The successor lists of the `test_bfs` / `test_dfs` edge lists. */
  lemma GraphScenario<W>(ls: seq<seq<Edge<W>>>, w: W)
    requires |ls| == 5 && ls[0] == [Edge(0, 1, Some(w)), Edge(0, 3, Some(w))]
    requires ls[1] == [Edge(1, 2, Some(w))] && ls[2] == [Edge(2, 3, Some(w))]
    requires ls[3] == [Edge(3, 1, Some(w)), Edge(3, 4, Some(w))] && ls[4] == []
    ensures Adj(ls) == TestAdj()
  {
    var adj := Adj(ls);
    assert adj[0] == [1, 3] && adj[1] == [2] && adj[2] == [3] && adj[3] == [1, 4] && adj[4] == [];
  }

  /** `test_bfs` on the adjacency list: `[a, b, d, c, e]`. */
  method TestBfs<W(==)>(w: W) returns (r: seq<nat>)
    ensures r == [0, 1, 3, 2, 4]
  {
    var g := TestGraph(w);
    r := g.BfsTraverse(0);
    BfsScenario();
  }

  /** `test_dfs` on the adjacency list: `[a, b, c, d, e]`. */
  method TestDfs<W(==)>(w: W) returns (r: seq<nat>)
    ensures r == [0, 1, 2, 3, 4]
  {
    var g := TestGraph(w);
    r := g.DfsTraverse(0);
    DfsScenario();
  }
}

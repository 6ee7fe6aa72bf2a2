/**
 * matrix_graph: a directed graph stored as an n-by-n matrix of optional weights;
 * cell `[src][des]` holds the weight of the edge `src -> des`, or `None` when there
 * is no such edge. Adding an edge overwrites the cell.
 */
module MatrixGraph {
  import opened Wrappers
  import opened Graph
  import Queue

  /** The columns from `j` on whose cells hold a weight, in increasing order. */
  function SomeCols<W>(row: seq<Option<W>>, j: nat): (r: seq<nat>)
    requires j <= |row|
    ensures forall k :: 0 <= k < |r| ==> j <= r[k] < |row|
    decreases |row| - j
  {
    if j == |row| then [] else (if row[j].Some? then [j] else []) + SomeCols(row, j + 1)
  }

  /** `SomeCols` lists exactly the weighted cells from `j` on, in strictly increasing
      order. */
  lemma {:induction false} SomeColsSpec<W>(row: seq<Option<W>>, j: nat)
    requires j <= |row|
    ensures var r := SomeCols(row, j);
      (forall k :: k in r <==> j <= k < |row| && row[k].Some?) &&
      forall a, b :: 0 <= a < b < |r| ==> r[a] < r[b]
    decreases |row| - j
  {
    if j < |row| {
      SomeColsSpec(row, j + 1);
      var r := SomeCols(row, j);
      var rest := SomeCols(row, j + 1);
      if row[j].Some? {
        assert r == [j] + rest;
        forall a, b | 0 <= a < b < |r|
          ensures r[a] < r[b]
        {
          if a > 0 {
            assert r[a] == rest[a - 1] && r[b] == rest[b - 1];
          }
        }
      }
    }
  }

  /** The successor lists the matrix describes. */
  function Adj<W>(weights: seq<seq<Option<W>>>): (adj: seq<seq<nat>>)
    ensures |adj| == |weights|
  {
    seq(|weights|, v requires 0 <= v < |weights| => SomeCols(weights[v], 0))
  }

  /** Every row has one cell per vertex. */
  ghost predicate Square<W>(weights: seq<seq<Option<W>>>)
  {
    forall i :: 0 <= i < |weights| ==> |weights[i]| == |weights|
  }

  lemma SquareWellFormed<W>(weights: seq<seq<Option<W>>>)
    requires Square(weights)
    ensures WellFormed(Adj(weights))
  {
    var adj := Adj(weights);
    forall v, j | 0 <= v < |adj| && 0 <= j < |adj[v]|
      ensures adj[v][j] < |adj|
    {
      SomeColsSpec(weights[v], 0);
      assert adj[v][j] in SomeCols(weights[v], 0);
    }
  }

  /** The edges of row `src` from column `j` on, one per weighted cell. */
  function RowEdges<W>(src: nat, row: seq<Option<W>>, j: nat): (r: seq<Edge<W>>)
    requires j <= |row|
    ensures forall k :: 0 <= k < |r| ==> j <= r[k].to < |row|
    decreases |row| - j
  {
    if j == |row| then []
    else (if row[j].Some? then [Edge(src, j, row[j])] else []) + RowEdges(src, row, j + 1)
  }

  /** `RowEdges` holds one edge per weighted cell from `j` on, in column order, each
      carrying that cell's weight. */
  lemma RowEdgesSpec<W>(src: nat, row: seq<Option<W>>, j: nat)
    requires j <= |row|
    ensures var r := RowEdges(src, row, j);
      (forall e :: e in r <==> e.from == src && j <= e.to < |row| && row[e.to].Some? && e.weight == row[e.to]) &&
      forall a, b :: 0 <= a < b < |r| ==> r[a].to < r[b].to
  {
    RowEdgesMembers(src, row, j);
    RowEdgesOrdered(src, row, j);
  }

  lemma {:induction false} RowEdgesMembers<W>(src: nat, row: seq<Option<W>>, j: nat)
    requires j <= |row|
    ensures forall e :: e in RowEdges(src, row, j) <==>
      e.from == src && j <= e.to < |row| && row[e.to].Some? && e.weight == row[e.to]
    decreases |row| - j
  {
    if j < |row| {
      RowEdgesMembers(src, row, j + 1);
      var rest := RowEdges(src, row, j + 1);
      if row[j].Some? {
        assert RowEdges(src, row, j) == [Edge(src, j, row[j])] + rest;
      } else {
        assert RowEdges(src, row, j) == rest;
      }
    }
  }

  lemma {:induction false} RowEdgesOrdered<W>(src: nat, row: seq<Option<W>>, j: nat)
    requires j <= |row|
    ensures forall a, b :: 0 <= a < b < |RowEdges(src, row, j)| ==>
      RowEdges(src, row, j)[a].to < RowEdges(src, row, j)[b].to
    decreases |row| - j
  {
    if j < |row| {
      RowEdgesOrdered(src, row, j + 1);
      var r := RowEdges(src, row, j);
      var rest := RowEdges(src, row, j + 1);
      if row[j].Some? {
        assert r == [Edge(src, j, row[j])] + rest;
        forall a, b | 0 <= a < b < |r|
          ensures r[a].to < r[b].to
        {
          assert r[b] == rest[b - 1] && rest[b - 1].to >= j + 1;
          if a > 0 {
            assert r[a] == rest[a - 1];
          } else {
            assert r[a].to == j;
          }
        }
      } else {
        assert r == rest;
      }
    }
  }

  /** Column `des` of the row contributes to `RowEdges` from any `j <= des` the edge
      `src -> des` with its weight when the cell is weighted, and no other edge
      to `des`. */
  lemma {:induction false} RowEdgesAt<W>(src: nat, row: seq<Option<W>>, j: nat, des: nat)
    requires j <= des < |row|
    ensures row[des].Some? <==> Edge(src, des, row[des]) in RowEdges(src, row, j)
    ensures forall e :: e in RowEdges(src, row, j) && e.to == des ==> e == Edge(src, des, row[des])
    decreases |row| - j
  {
    var rest := RowEdges(src, row, j + 1);
    var head: seq<Edge<W>> := if row[j].Some? then [Edge(src, j, row[j])] else [];
    assert RowEdges(src, row, j) == head + rest;
    assert forall e :: e in head ==> e == Edge(src, j, row[j]);
    if j < des {
      RowEdgesAt(src, row, j + 1, des);
    } else {
      forall e | e in rest
        ensures e.to > des
      {
        var k :| 0 <= k < |rest| && rest[k] == e;
      }
    }
  }

  /** The edges of rows `i` on, row-major. */
  function AllEdges<W>(weights: seq<seq<Option<W>>>, i: nat): seq<Edge<W>>
    requires i <= |weights|
    decreases |weights| - i
  {
    if i == |weights| then [] else RowEdges(i, weights[i], 0) + AllEdges(weights, i + 1)
  }

  /** `AllEdges` holds exactly one edge per weighted cell in rows `i` on. */
  lemma {:induction false} AllEdgesMembers<W>(weights: seq<seq<Option<W>>>, i: nat, e: Edge<W>)
    requires i <= |weights|
    ensures e in AllEdges(weights, i) <==>
      i <= e.from < |weights| && e.to < |weights[e.from]| && weights[e.from][e.to].Some? &&
      e.weight == weights[e.from][e.to]
    decreases |weights| - i
  {
    if i < |weights| {
      var row, rest := RowEdges(i, weights[i], 0), AllEdges(weights, i + 1);
      AllEdgesMembers(weights, i + 1, e);
      RowEdgesSpec(i, weights[i], 0);
      assert AllEdges(weights, i) == row + rest;
      assert e in row + rest <==> e in row || e in rest;
    }
  }

  class MatrixGraph<T, W> {
    var vertices: seq<Vertex<T>>
    var weights: seq<seq<Option<W>>>

    ghost predicate Valid()
      reads this
    {
      |weights| == |vertices| && Square(weights) &&
      forall i :: 0 <= i < |vertices| ==> vertices[i].index == i
    }

    /** `new`: no vertices, an empty matrix. */
    constructor ()
      ensures Valid() && vertices == [] && weights == []
    {
      vertices := [];
      weights := [];
    }

    /** `create_vertex`: the matrix grows from n-by-n to (n+1)-by-(n+1), the new row
        and column empty and the old cells kept; the new id is n. */
    method CreateVertex(data: T) returns (id: nat)
      modifies this
      requires Valid()
      ensures Valid() && id == old(|weights|)
      ensures vertices == old(vertices) + [Vertex(data, id)] && |weights| == id + 1
      ensures forall i, j :: 0 <= i <= id && 0 <= j <= id ==>
        weights[i][j] == if i < id && j < id then old(weights)[i][j] else None
    {
      var n := |weights|;
      ghost var w0 := weights;
      var rows := weights;
      vertices := vertices + [Vertex(data, n)];
      var i := 0;
      while i < n
        invariant i <= n && |rows| == n
        invariant forall k :: 0 <= k < i ==> rows[k] == w0[k] + [None]
        invariant forall k :: i <= k < n ==> rows[k] == w0[k]
      {
        rows := rows[i := rows[i] + [None]];
        i := i + 1;
      }
      var newRow: seq<Option<W>> := seq(n + 1, j => None);
      weights := rows + [newRow];
      id := n;
      forall i, j | 0 <= i <= id && 0 <= j <= id
        ensures weights[i][j] == if i < id && j < id then w0[i][j] else None
      {
        if i < id {
          assert |w0[i]| == n;
          assert weights[i] == w0[i] + [None];
        } else {
          assert weights[i] == newRow;
        }
      }
      forall k | 0 <= k < |weights|
        ensures |weights[k]| == |weights|
      {
        if k < n {
          assert |w0[k]| == n;
          assert weights[k] == w0[k] + [None];
        }
      }
      assert Square(weights);
    }

    /** `add_directed_edge`: cell `[src][des]` set to `weight`, replacing an edge
        already there (`None` removes it). */
    method AddDirectedEdge(src: nat, des: nat, weight: Option<W>)
      modifies this
      requires Valid() && src < |vertices| && des < |vertices|
      ensures Valid() && vertices == old(vertices)
      ensures weights == old(weights)[src := old(weights)[src][des := weight]]
      ensures GetWeight(src, des) == weight
    {
      weights := weights[src := weights[src][des := weight]];
    }

    /** `add_undirected_edge`: both cells set. */
    method AddUndirectedEdge(src: nat, des: nat, weight: Option<W>)
      modifies this
      requires Valid() && src < |vertices| && des < |vertices|
      ensures Valid() && vertices == old(vertices)
      ensures var once := old(weights)[src := old(weights)[src][des := weight]];
        weights == once[des := once[des][src := weight]]
      ensures GetWeight(src, des) == weight && GetWeight(des, src) == weight
    {
      AddDirectedEdge(src, des, weight);
      AddDirectedEdge(des, src, weight);
    }

    /** `get_weight`: the cell, after the bounds assertion. */
    function GetWeight(src: nat, des: nat): Option<W>
      reads this
      requires Valid() && src < |vertices| && des < |vertices|
    {
      weights[src][des]
    }

    /** `get_weight` agrees with `edges_from_src`: the weight is that of the edge
        `src -> des` the row lists, and `None` exactly when it lists no edge to
        `des`. */
    lemma GetWeightListed(src: nat, des: nat)
      requires Valid() && src < |vertices| && des < |vertices|
      ensures var r, es := GetWeight(src, des), RowEdges(src, weights[src], 0);
        (r.Some? <==> Edge(src, des, r) in es) &&
        (r.None? <==> forall e :: e in es ==> e.to != des) &&
        forall e :: e in es && e.to == des ==> e.weight == r
    {
      RowEdgesAt(src, weights[src], 0, des);
    }

    /** `edges_from_src`: one edge `src -> j` per weighted cell of the row, in
        increasing `j`, carrying the cell's weight. */
    method EdgesFromSrc(src: nat) returns (r: seq<Edge<W>>)
      requires Valid() && src < |vertices|
      ensures r == RowEdges(src, weights[src], 0)
      ensures forall e :: e in r <==>
        e.from == src && e.to < |vertices| && weights[src][e.to].Some? && e.weight == weights[src][e.to]
      ensures forall a, b :: 0 <= a < b < |r| ==> r[a].to < r[b].to
    {
      r := AppendRow([], src, weights[src]);
      RowEdgesSpec(src, weights[src], 0);
    }

    /** The `for (idx, weight_opt) in row` loop of `edges_from_src` and `edges`: an
        edge pushed for each weighted cell, in column order. */
    static method AppendRow(init: seq<Edge<W>>, src: nat, row: seq<Option<W>>) returns (r: seq<Edge<W>>)
      ensures r == init + RowEdges(src, row, 0)
    {
      r := init;
      var j := 0;
      while j < |row|
        invariant j <= |row| && r + RowEdges(src, row, j) == init + RowEdges(src, row, 0)
      {
        if row[j].Some? {
          r := r + [Edge(src, j, row[j])];
        }
        j := j + 1;
      }
    }

    /** `edges`: the rows' edges, row-major: one edge per weighted cell. */
    method Edges() returns (r: seq<Edge<W>>)
      requires Valid()
      ensures r == AllEdges(weights, 0)
      ensures forall e :: e in r <==>
        e.from < |vertices| && e.to < |vertices| && weights[e.from][e.to].Some? &&
        e.weight == weights[e.from][e.to]
    {
      r := [];
      var i := 0;
      while i < |weights|
        invariant i <= |weights| && r + AllEdges(weights, i) == AllEdges(weights, 0)
      {
        ghost var before := r;
        r := AppendRow(r, i, weights[i]);
        assert r + AllEdges(weights, i + 1) == before + AllEdges(weights, i);
        i := i + 1;
      }
      assert r + [] == r;
      forall e
        ensures e in r <==>
          e.from < |vertices| && e.to < |vertices| && weights[e.from][e.to].Some? &&
          e.weight == weights[e.from][e.to]
      {
        AllEdgesMembers(weights, 0, e);
      }
    }

    /** The `for (idx, weight_opt) in row` loop of `bfs_traverse`: the column of
        each weighted cell enqueued, in column order. */
    static method EnqueueCols(queue: Queue.Queue<nat>, row: seq<Option<W>>)
      modifies queue
      requires queue.Valid()
      ensures queue.Valid() && queue.Contents() == old(queue.Contents()) + SomeCols(row, 0)
    {
      var j := 0;
      while j < |row|
        invariant j <= |row| && queue.Valid()
        invariant queue.Contents() + SomeCols(row, j) == old(queue.Contents()) + SomeCols(row, 0)
      {
        if row[j].Some? {
          queue.Enqueue(j);
        }
        j := j + 1;
      }
    }

    /** `bfs_traverse`: a FIFO queue seeded with `src`; a dequeued vertex already
        visited is skipped, any other is marked, emitted, and has the columns of its
        row's weighted cells enqueued in column order. */
    method BfsTraverse(src: nat) returns (r: seq<nat>)
      requires Valid() && src < |vertices|
      ensures WellFormed(Adj(weights)) && r == Bfs(Adj(weights), src)
      ensures r != [] && r[0] == src && Distinct(r)
      ensures forall v :: v in r <==> Reachable(Adj(weights), src, v)
    {
      SquareWellFormed(weights);
      var adj := Adj(weights);
      var visited := Falses(|vertices|);
      var queue := new Queue.Queue<nat>();
      r := [];
      queue.Enqueue(src);
      assert queue.Contents() == [src];
      var empty := queue.IsEmpty();
      while !empty
        invariant fresh(queue) && queue.Valid() && (empty <==> queue.Contents() == [])
        invariant |visited| == |adj|
        invariant forall i :: 0 <= i < |queue.Contents()| ==> queue.Contents()[i] < |adj|
        invariant BfsLoop(adj, queue.Contents(), visited, r) == Bfs(adj, src)
        decreases CountFalse(visited), |queue.Contents()|
      {
        visited, r := BfsStep(queue, visited, r);
        empty := queue.IsEmpty();
      }
      BfsVisitsReachable(adj, src);
    }

    /** One pass of `bfs_traverse`'s loop: the front vertex is dequeued; unless it is
        visited it is marked, emitted, and the columns of its row's weighted cells
        are enqueued. The loop's outcome from the new state is the same. */
    method BfsStep(queue: Queue.Queue<nat>, visited: seq<bool>, r: seq<nat>) returns (visited': seq<bool>, r': seq<nat>)
      modifies queue
      requires Valid() && queue.Valid() && queue.Contents() != [] && |visited| == |vertices|
      requires forall i :: 0 <= i < |queue.Contents()| ==> queue.Contents()[i] < |vertices|
      ensures queue.Valid() && |visited'| == |vertices| && WellFormed(Adj(weights))
      ensures forall i :: 0 <= i < |queue.Contents()| ==> queue.Contents()[i] < |vertices|
      ensures BfsLoop(Adj(weights), queue.Contents(), visited', r') == BfsLoop(Adj(weights), old(queue.Contents()), visited, r)
      ensures CountFalse(visited') < CountFalse(visited) ||
        (visited' == visited && |queue.Contents()| < |old(queue.Contents())|)
    {
      SquareWellFormed(weights);
      ghost var adj := Adj(weights);
      ghost var q0 := queue.Contents();
      var front := queue.Dequeue();
      var top := front.value;
      visited', r' := visited, r;
      if !visited[top] {
        CountFalseSet(visited, top);
        visited' := visited[top := true];
        r' := r + [top];
        EnqueueCols(queue, weights[top]);
        assert queue.Contents() == q0[1..] + adj[top];
      }
    }

    /** `dfs_traverse`: one recursive visit of `src` with nothing visited. */
    method DfsTraverse(src: nat) returns (r: seq<nat>)
      requires Valid() && src < |vertices|
      ensures WellFormed(Adj(weights)) && r == Dfs(Adj(weights), src)
      ensures r != [] && r[0] == src && Distinct(r)
      ensures forall v :: v in r <==> Reachable(Adj(weights), src, v)
    {
      SquareWellFormed(weights);
      var visited := DfsFrom(src, Falses(|vertices|), []);
      r := visited.1;
      DfsVisitsReachable(Adj(weights), src);
    }

    /** `_dfs`: nothing if `v` is visited; otherwise emit it, mark it, and visit the
        column of each weighted cell of its row in column order. */
    method DfsFrom(v: nat, visited: seq<bool>, out: seq<nat>) returns (r: (seq<bool>, seq<nat>))
      requires Valid() && |visited| == |vertices| && v < |vertices|
      ensures WellFormed(Adj(weights)) && r == DfsVisit(Adj(weights), v, visited, out)
      decreases CountFalse(visited), 0
    {
      SquareWellFormed(weights);
      if visited[v] {
        return (visited, out);
      }
      var row := weights[v];
      var o := out + [v];
      CountFalseSet(visited, v);
      var vis := visited[v := true];
      assert Adj(weights)[v] == SomeCols(row, 0);
      var j := 0;
      while j < |row|
        invariant j <= |row| == |vertices| == |vis| && CountFalse(vis) < CountFalse(visited)
        invariant DfsEach(Adj(weights), SomeCols(row, j), vis, o) == DfsVisit(Adj(weights), v, visited, out)
      {
        vis, o := DfsCell(v, j, vis, o);
        j := j + 1;
      }
      r := (vis, o);
    }

    /** One pass of `_dfs`'s loop over the row of `v`: the column `j` of a weighted
        cell is visited, and the rest of the row is left to the following passes. */
    method DfsCell(v: nat, j: nat, vis: seq<bool>, o: seq<nat>) returns (vis': seq<bool>, o': seq<nat>)
      requires Valid() && v < |vertices| && j < |vertices| && |vis| == |vertices|
      ensures WellFormed(Adj(weights)) && |vis'| == |vertices| && CountFalse(vis') <= CountFalse(vis)
      ensures DfsEach(Adj(weights), SomeCols(weights[v], j + 1), vis', o') ==
              DfsEach(Adj(weights), SomeCols(weights[v], j), vis, o)
      decreases CountFalse(vis), 1
    {
      SquareWellFormed(weights);
      ghost var rest := SomeCols(weights[v], j + 1);
      if weights[v][j].Some? {
        assert SomeCols(weights[v], j) == [j] + rest;
        DfsEachCons(Adj(weights), j, rest, vis, o);
        var s := DfsFrom(j, vis, o);
        vis', o' := s.0, s.1;
      } else {
        assert SomeCols(weights[v], j) == rest;
        vis', o' := vis, o;
      }
    }
  }

  /** The `test_edges_undirected` graph: `a - b`, `a - c`, `b - c`, weight 1.0. */
  method TestEdgesUndirected() returns (fromA: seq<Edge<real>>, fromB: seq<Edge<real>>, fromC: seq<Edge<real>>, all: seq<Edge<real>>)
    ensures fromA == [Edge(0, 1, Some(1.0)), Edge(0, 2, Some(1.0))]
    ensures fromB == [Edge(1, 0, Some(1.0)), Edge(1, 2, Some(1.0))]
    ensures fromC == [Edge(2, 0, Some(1.0)), Edge(2, 1, Some(1.0))]
    ensures all == [Edge(0, 1, Some(1.0)), Edge(0, 2, Some(1.0)), Edge(1, 0, Some(1.0)),
                    Edge(1, 2, Some(1.0)), Edge(2, 0, Some(1.0)), Edge(2, 1, Some(1.0))]
  {
    var g := new MatrixGraph<int, real>();
    var a := g.CreateVertex(1);
    var b := g.CreateVertex(2);
    var c := g.CreateVertex(3);
    g.AddUndirectedEdge(a, b, Some(1.0));
    g.AddUndirectedEdge(a, c, Some(1.0));
    g.AddUndirectedEdge(b, c, Some(1.0));
    UndirectedScenario(g.weights);
    fromA := g.EdgesFromSrc(a);
    fromB := g.EdgesFromSrc(b);
    fromC := g.EdgesFromSrc(c);
    all := g.Edges();
  }

  /** The matrix of the complete graph on three vertices, weight 1.0. */
  function Complete3(): seq<seq<Option<real>>>
  {
    [[None, Some(1.0), Some(1.0)], [Some(1.0), None, Some(1.0)], [Some(1.0), Some(1.0), None]]
  }

  /** Rows given cell by cell equal the literal rows. */
  lemma SameRows(ws: seq<seq<Option<real>>>, m: seq<seq<Option<real>>>)
    requires |ws| == |m| && forall i :: 0 <= i < |m| ==> |ws[i]| == |m[i]|
    requires forall i, j :: 0 <= i < |m| && 0 <= j < |m[i]| ==> ws[i][j] == m[i][j]
    ensures ws == m
  {
    forall i | 0 <= i < |m|
      ensures ws[i] == m[i]
    {
      assert forall j :: 0 <= j < |m[i]| ==> ws[i][j] == m[i][j];
    }
  }

  /** The rows and edges of `Complete3`. */
  lemma UndirectedScenario(ws: seq<seq<Option<real>>>)
    requires |ws| == 3 && forall i :: 0 <= i < 3 ==> |ws[i]| == 3
    requires forall i, j :: 0 <= i < 3 && 0 <= j < 3 ==> ws[i][j] == Complete3()[i][j]
    ensures RowEdges(0, ws[0], 0) == [Edge(0, 1, Some(1.0)), Edge(0, 2, Some(1.0))]
    ensures RowEdges(1, ws[1], 0) == [Edge(1, 0, Some(1.0)), Edge(1, 2, Some(1.0))]
    ensures RowEdges(2, ws[2], 0) == [Edge(2, 0, Some(1.0)), Edge(2, 1, Some(1.0))]
    ensures AllEdges(ws, 0) == [Edge(0, 1, Some(1.0)), Edge(0, 2, Some(1.0)), Edge(1, 0, Some(1.0)),
                                Edge(1, 2, Some(1.0)), Edge(2, 0, Some(1.0)), Edge(2, 1, Some(1.0))]
  {
    SameRows(ws, Complete3());
    Complete3Edges();
  }

  lemma Complete3Edges()
    ensures var m := Complete3();
      && RowEdges(0, m[0], 0) == [Edge(0, 1, Some(1.0)), Edge(0, 2, Some(1.0))]
      && RowEdges(1, m[1], 0) == [Edge(1, 0, Some(1.0)), Edge(1, 2, Some(1.0))]
      && RowEdges(2, m[2], 0) == [Edge(2, 0, Some(1.0)), Edge(2, 1, Some(1.0))]
      && AllEdges(m, 0) == [Edge(0, 1, Some(1.0)), Edge(0, 2, Some(1.0)), Edge(1, 0, Some(1.0)),
                            Edge(1, 2, Some(1.0)), Edge(2, 0, Some(1.0)), Edge(2, 1, Some(1.0))]
  {
    var m := Complete3();
    CompleteRows();
    assert AllEdges(m, 3) == [];
    assert AllEdges(m, 2) == RowEdges(2, m[2], 0);
    assert AllEdges(m, 1) == RowEdges(1, m[1], 0) + RowEdges(2, m[2], 0);
    assert AllEdges(m, 0) == RowEdges(0, m[0], 0) + AllEdges(m, 1);
  }

  lemma CompleteRows()
    ensures RowEdges(0, [None, Some(1.0), Some(1.0)], 0) == [Edge(0, 1, Some(1.0)), Edge(0, 2, Some(1.0))]
    ensures RowEdges(1, [Some(1.0), None, Some(1.0)], 0) == [Edge(1, 0, Some(1.0)), Edge(1, 2, Some(1.0))]
    ensures RowEdges(2, [Some(1.0), Some(1.0), None], 0) == [Edge(2, 0, Some(1.0)), Edge(2, 1, Some(1.0))]
  {
  }

  /** The matrix of the `test_bfs` / `test_dfs` graph, weight 1.0. */
  function TestMatrix(): seq<seq<Option<real>>>
  {
    [[None, Some(1.0), None, Some(1.0), None],
     [None, None, Some(1.0), None, None],
     [None, None, None, Some(1.0), None],
     [None, Some(1.0), None, None, Some(1.0)],
     [None, None, None, None, None]]
  }

  /** The `test_bfs` / `test_dfs` graph: `a -> b`, `a -> d`, `b -> c`, `c -> d`,
      `d -> b`, `d -> e`. */
  method TestGraph() returns (g: MatrixGraph<int, real>)
    ensures fresh(g) && g.Valid() && |g.vertices| == 5
    ensures Adj(g.weights) == TestAdj()
  {
    g := TestVertices();
    var a, b, c, d, e := 0, 1, 2, 3, 4;
    ghost var w := g.weights;
    g.AddDirectedEdge(a, b, Some(1.0));
    g.AddDirectedEdge(a, d, Some(1.0));
    g.AddDirectedEdge(b, c, Some(1.0));
    g.AddDirectedEdge(c, d, Some(1.0));
    g.AddDirectedEdge(d, b, Some(1.0));
    g.AddDirectedEdge(d, e, Some(1.0));
    assert g.weights == Link(Link(Link(Link(Link(Link(w, 0, 1), 0, 3), 1, 2), 2, 3), 3, 1), 3, 4);
    TestLinks(w);
  }

  /** The five vertices `a` to `e` of the `test_bfs` / `test_dfs` graph, with ids 0
      to 4 and no edges. */
  method TestVertices() returns (g: MatrixGraph<int, real>)
    ensures fresh(g) && g.Valid() && |g.vertices| == 5 && |g.weights| == 5
    ensures forall i :: 0 <= i < 5 ==> |g.weights[i]| == 5
    ensures forall i, j :: 0 <= i < 5 && 0 <= j < 5 ==> g.weights[i][j] == None
  {
    g := new MatrixGraph<int, real>();
    var a := g.CreateVertex(1);
    var b := g.CreateVertex(2);
    var c := g.CreateVertex(3);
    var d := g.CreateVertex(4);
    var e := g.CreateVertex(5);
  }

  /** The matrix `w` with the cell `(i, j)` weighted 1.0. */
  function Link(w: seq<seq<Option<real>>>, i: nat, j: nat): seq<seq<Option<real>>>
    requires i < |w| && j < |w[i]|
  {
    w[i := w[i][j := Some(1.0)]]
  }

  /** The six edges of the `test_bfs` / `test_dfs` graph added to an empty 5 by 5
      matrix give `TestMatrix`, whose successor lists are `TestAdj`. */
  lemma TestLinks(w: seq<seq<Option<real>>>)
    requires |w| == 5 && forall i :: 0 <= i < 5 ==> |w[i]| == 5
    requires forall i, j :: 0 <= i < 5 && 0 <= j < 5 ==> w[i][j] == None
    ensures Adj(Link(Link(Link(Link(Link(Link(w, 0, 1), 0, 3), 1, 2), 2, 3), 3, 1), 3, 4)) == TestAdj()
  {
    GraphScenario(Link(Link(Link(Link(Link(Link(w, 0, 1), 0, 3), 1, 2), 2, 3), 3, 1), 3, 4));
  }

  /** The successor lists of `TestMatrix`. */
  lemma GraphScenario(ws: seq<seq<Option<real>>>)
    requires |ws| == 5 && forall i :: 0 <= i < 5 ==> |ws[i]| == 5
    requires forall i, j :: 0 <= i < 5 && 0 <= j < 5 ==> ws[i][j] == TestMatrix()[i][j]
    ensures Adj(ws) == TestAdj()
  {
    SameRows(ws, TestMatrix());
    TestMatrixAdj();
  }

  lemma TestMatrixAdj()
    ensures Adj(TestMatrix()) == TestAdj()
  {
    var m := TestMatrix();
    var adj := Adj(m);
    TestRow0();
    TestRow3();
    TestRowsRest();
    assert adj[0] == SomeCols(m[0], 0) == [1, 3];
    assert adj[1] == SomeCols(m[1], 0) == [2];
    assert adj[2] == SomeCols(m[2], 0) == [3];
    assert adj[3] == SomeCols(m[3], 0) == [1, 4];
    assert adj[4] == SomeCols(m[4], 0) == [];
  }

  lemma TestRow0()
    ensures SomeCols([None, Some(1.0), None, Some(1.0), None], 0) == [1, 3]
  {
    var row: seq<Option<real>> := [None, Some(1.0), None, Some(1.0), None];
    assert SomeCols(row, 3) == [3];
  }

  lemma TestRow3()
    ensures SomeCols([None, Some(1.0), None, None, Some(1.0)], 0) == [1, 4]
  {
    var row: seq<Option<real>> := [None, Some(1.0), None, None, Some(1.0)];
    assert SomeCols(row, 4) == [4];
    assert SomeCols(row, 2) == [4];
  }

  lemma TestRowsRest()
    ensures SomeCols([None, None, Some(1.0), None, None], 0) == [2]
    ensures SomeCols([None, None, None, Some(1.0), None], 0) == [3]
    ensures SomeCols<real>([None, None, None, None, None], 0) == []
  {
  }

  /** `test_bfs` on the matrix: `[a, b, d, c, e]`. */
  method TestBfs() returns (r: seq<nat>)
    ensures r == [0, 1, 3, 2, 4]
  {
    var g := TestGraph();
    r := g.BfsTraverse(0);
    BfsScenario();
  }

  /** `test_dfs` on the matrix: `[a, b, c, d, e]`. */
  method TestDfs() returns (r: seq<nat>)
    ensures r == [0, 1, 2, 3, 4]
  {
    var g := TestGraph();
    r := g.DfsTraverse(0);
    DfsScenario();
  }
}

/**
 * graph: the vertex and edge records both graph representations share, and the two
 * traversals both of them run, stated over successor lists. `adj[v]` lists the
 * targets of `v`'s outgoing edges in the order the representation yields them: the
 * insertion order of an adjacency list, the column order of a matrix row.
 */
module Graph {
  import opened Wrappers

  /** A vertex: its payload and its id, the position it was created at. */
  datatype Vertex<T> = Vertex(data: T, index: nat)

  /** An edge `from -> to`; `W` stands for the `f32` weight. */
  datatype Edge<W> = Edge(from: nat, to: nat, weight: Option<W>)

  /** Every successor is a vertex of the graph. */
  ghost predicate WellFormed(adj: seq<seq<nat>>)
  {
    forall v, j :: 0 <= v < |adj| && 0 <= j < |adj[v]| ==> adj[v][j] < |adj|
  }

  /** A non-empty walk along edges. */
  ghost predicate IsPath(adj: seq<seq<nat>>, p: seq<nat>)
  {
    |p| > 0 && p[0] < |adj| &&
    forall i :: 0 <= i < |p| - 1 ==> p[i] < |adj| && p[i + 1] in adj[p[i]]
  }

  ghost predicate Reachable(adj: seq<seq<nat>>, s: nat, t: nat)
  {
    exists p :: IsPath(adj, p) && p[0] == s && p[|p| - 1] == t
  }

  lemma ReachSelf(adj: seq<seq<nat>>, s: nat)
    requires s < |adj|
    ensures Reachable(adj, s, s)
  {
    assert IsPath(adj, [s]);
  }

  lemma ReachStep(adj: seq<seq<nat>>, s: nat, u: nat, w: nat)
    requires Reachable(adj, s, u) && u < |adj| && w in adj[u]
    ensures Reachable(adj, s, w)
  {
    var p :| IsPath(adj, p) && p[0] == s && p[|p| - 1] == u;
    var q := p + [w];
    forall i | 0 <= i < |q| - 1
      ensures q[i] < |adj| && q[i + 1] in adj[q[i]]
    {
      if i < |p| - 1 {
        assert q[i] == p[i] && q[i + 1] == p[i + 1];
      }
    }
    assert IsPath(adj, q) && q[0] == s && q[|q| - 1] == w;
  }

  /** Every successor of a listed vertex is listed. */
  ghost predicate Closed(adj: seq<seq<nat>>, out: seq<nat>)
  {
    forall v :: v in out ==> v < |adj| && forall w :: w in adj[v] ==> w in out
  }

  lemma {:induction false} PathInside(adj: seq<seq<nat>>, out: seq<nat>, p: seq<nat>)
    requires Closed(adj, out) && IsPath(adj, p) && p[0] in out
    ensures p[|p| - 1] in out
  {
    if |p| > 1 {
      var q := p[..|p| - 1];
      assert IsPath(adj, q);
      PathInside(adj, out, q);
      assert p[|p| - 1] in adj[p[|p| - 2]];
    }
  }

  /** A closed list holding `s` holds everything reachable from `s`. */
  lemma ClosedReach(adj: seq<seq<nat>>, out: seq<nat>, s: nat, t: nat)
    requires Closed(adj, out) && s in out && Reachable(adj, s, t)
    ensures t in out
  {
    var p :| IsPath(adj, p) && p[0] == s && p[|p| - 1] == t;
    PathInside(adj, out, p);
  }

  ghost predicate Distinct(s: seq<nat>)
  {
    forall i, j :: 0 <= i < j < |s| ==> s[i] != s[j]
  }

  /** `iter::repeat(false).take(n)`: the fresh `visited` flags. */
  function Falses(n: nat): (r: seq<bool>)
    ensures |r| == n && forall i :: 0 <= i < n ==> !r[i]
  {
    seq(n, i => false)
  }

  /** The number of vertices not yet visited. */
  function CountFalse(vis: seq<bool>): nat
  {
    if |vis| == 0 then 0 else (if vis[0] then 0 else 1) + CountFalse(vis[1..])
  }

  lemma {:induction false} CountFalseSet(vis: seq<bool>, i: nat)
    requires i < |vis| && !vis[i]
    ensures CountFalse(vis[i := true]) == CountFalse(vis) - 1
  {
    if i > 0 {
      assert vis[i := true][1..] == vis[1..][i - 1 := true];
      CountFalseSet(vis[1..], i - 1);
    }
  }

  /** The `while !queue.is_empty()` loop of `bfs_traverse`: take the front; skip it
      if visited; otherwise mark it, emit it and enqueue all its successors. */
  function BfsLoop(adj: seq<seq<nat>>, queue: seq<nat>, visited: seq<bool>, out: seq<nat>): seq<nat>
    requires WellFormed(adj) && |visited| == |adj|
    requires forall i :: 0 <= i < |queue| ==> queue[i] < |adj|
    decreases CountFalse(visited), |queue|
  {
    if queue == [] then out
    else
      var top := queue[0];
      if visited[top] then BfsLoop(adj, queue[1..], visited, out)
      else
        CountFalseSet(visited, top);
        BfsLoop(adj, queue[1..] + adj[top], visited[top := true], out + [top])
  }

  /** `bfs_traverse(src)`: the loop started on the queue `[src]`, nothing visited. */
  function Bfs(adj: seq<seq<nat>>, src: nat): seq<nat>
    requires WellFormed(adj) && src < |adj|
  {
    BfsLoop(adj, [src], Falses(|adj|), [])
  }

  /** What holds of the BFS state at the top of every iteration. */
  ghost predicate BfsState(adj: seq<seq<nat>>, src: nat, queue: seq<nat>, visited: seq<bool>, out: seq<nat>)
  {
    WellFormed(adj) && src < |adj| && |visited| == |adj| &&
    (forall i :: 0 <= i < |queue| ==> queue[i] < |adj| && Reachable(adj, src, queue[i])) &&
    (forall v :: v in out ==> v < |adj| && Reachable(adj, src, v)) &&
    (forall v :: 0 <= v < |adj| ==> (visited[v] <==> v in out)) &&
    Distinct(out) &&
    (forall v, w :: v in out && w in adj[v] ==> w in out || w in queue) &&
    (out == [] ==> queue == [src]) && (out != [] ==> out[0] == src)
  }

  lemma BfsStep(adj: seq<seq<nat>>, src: nat, queue: seq<nat>, visited: seq<bool>, out: seq<nat>)
    requires BfsState(adj, src, queue, visited, out) && queue != []
    ensures var top := queue[0];
      if visited[top] then BfsState(adj, src, queue[1..], visited, out)
      else BfsState(adj, src, queue[1..] + adj[top], visited[top := true], out + [top])
  {
    var top := queue[0];
    if visited[top] {
      forall v, w | v in out && w in adj[v]
        ensures w in out || w in queue[1..]
      {
        if w !in out {
          assert w in queue && w != top;
          var k :| 0 <= k < |queue| && queue[k] == w;
          assert queue[1..][k - 1] == w;
        }
      }
    } else {
      var q := queue[1..] + adj[top];
      var o := out + [top];
      var vis := visited[top := true];
      forall i | 0 <= i < |q|
        ensures q[i] < |adj| && Reachable(adj, src, q[i])
      {
        if i < |queue| - 1 {
          assert q[i] == queue[i + 1];
        } else {
          assert q[i] in adj[top];
          ReachStep(adj, src, top, q[i]);
        }
      }
      forall v, w | v in o && w in adj[v]
        ensures w in o || w in q
      {
        if v == top {
          assert w in q;
        } else if w !in o {
          assert w in queue;
          if w != top {
            var k :| 0 <= k < |queue| && queue[k] == w;
            assert q[k - 1] == w;
          }
        }
      }
      forall i, j | 0 <= i < j < |o|
        ensures o[i] != o[j]
      {
        if j == |out| {
          assert o[i] in out;
        }
      }
    }
  }

  lemma {:induction false} BfsLoopState(adj: seq<seq<nat>>, src: nat, queue: seq<nat>, visited: seq<bool>, out: seq<nat>)
    requires BfsState(adj, src, queue, visited, out)
    ensures var r := BfsLoop(adj, queue, visited, out);
      r != [] && r[0] == src && Distinct(r) && Closed(adj, r) &&
      forall v :: v in r ==> Reachable(adj, src, v)
    decreases CountFalse(visited), |queue|
  {
    if queue != [] {
      var top := queue[0];
      BfsStep(adj, src, queue, visited, out);
      if visited[top] {
        BfsLoopState(adj, src, queue[1..], visited, out);
      } else {
        CountFalseSet(visited, top);
        BfsLoopState(adj, src, queue[1..] + adj[top], visited[top := true], out + [top]);
      }
    }
  }

  /** BFS emits `src` first, no vertex twice, and exactly the vertices reachable from
      `src`. */
  lemma BfsVisitsReachable(adj: seq<seq<nat>>, src: nat)
    requires WellFormed(adj) && src < |adj|
    ensures var r := Bfs(adj, src);
      r != [] && r[0] == src && Distinct(r) &&
      forall v :: v in r <==> Reachable(adj, src, v)
  {
    ReachSelf(adj, src);
    BfsLoopState(adj, src, [src], Falses(|adj|), []);
    var r := Bfs(adj, src);
    forall v | Reachable(adj, src, v)
      ensures v in r
    {
      ClosedReach(adj, r, src, v);
    }
  }

  /** `_dfs_traverse(v)`: nothing if `v` is visited; otherwise mark it, emit it and
      recurse on its successors in order. */
  function DfsVisit(adj: seq<seq<nat>>, v: nat, visited: seq<bool>, out: seq<nat>): (r: (seq<bool>, seq<nat>))
    requires WellFormed(adj) && |visited| == |adj| && v < |adj|
    ensures |r.0| == |adj| && CountFalse(r.0) <= CountFalse(visited)
    decreases CountFalse(visited), 0, 0
  {
    if visited[v] then (visited, out)
    else
      CountFalseSet(visited, v);
      DfsEach(adj, adj[v], visited[v := true], out + [v])
  }

  /** The `for edge in ...` loop of `_dfs_traverse`: one recursive visit per
      successor, each seeing the flags the previous one left. */
  function DfsEach(adj: seq<seq<nat>>, vs: seq<nat>, visited: seq<bool>, out: seq<nat>): (r: (seq<bool>, seq<nat>))
    requires WellFormed(adj) && |visited| == |adj|
    requires forall i :: 0 <= i < |vs| ==> vs[i] < |adj|
    ensures |r.0| == |adj| && CountFalse(r.0) <= CountFalse(visited)
    decreases CountFalse(visited), 1, |vs|
  {
    if vs == [] then (visited, out)
    else
      var s := DfsVisit(adj, vs[0], visited, out);
      DfsEach(adj, vs[1..], s.0, s.1)
  }

  /** A run over `[x] + rest` is the visit of `x` followed by the run over `rest`. */
  lemma DfsEachCons(adj: seq<seq<nat>>, x: nat, rest: seq<nat>, visited: seq<bool>, out: seq<nat>)
    requires WellFormed(adj) && |visited| == |adj| && x < |adj|
    requires forall i :: 0 <= i < |rest| ==> rest[i] < |adj|
    ensures var s := DfsVisit(adj, x, visited, out);
      DfsEach(adj, [x] + rest, visited, out) == DfsEach(adj, rest, s.0, s.1)
  {
    assert ([x] + rest)[0] == x && ([x] + rest)[1..] == rest;
  }

  /** `dfs_traverse(src)`: the vertices one visit of `src` emits. */
  function Dfs(adj: seq<seq<nat>>, src: nat): seq<nat>
    requires WellFormed(adj) && src < |adj|
  {
    DfsVisit(adj, src, Falses(|adj|), []).1
  }

  /** What holds of the DFS flags and output between visits. */
  ghost predicate DfsState(adj: seq<seq<nat>>, src: nat, visited: seq<bool>, out: seq<nat>)
  {
    WellFormed(adj) && |visited| == |adj| &&
    (forall v :: v in out ==> v < |adj| && Reachable(adj, src, v)) &&
    (forall v :: 0 <= v < |adj| ==> (visited[v] <==> v in out)) &&
    Distinct(out)
  }

  /** The run extends `out`, and every vertex it adds has all its successors
      visited when it is over. */
  ghost predicate Grows(adj: seq<seq<nat>>, out: seq<nat>, r: (seq<bool>, seq<nat>))
  {
    |out| <= |r.1| && r.1[..|out|] == out && |r.0| == |adj| &&
    forall i, w :: |out| <= i < |r.1| && r.1[i] < |adj| && w in adj[r.1[i]] ==> w < |adj| && r.0[w]
  }

  lemma {:induction false} DfsVisitState(adj: seq<seq<nat>>, src: nat, v: nat, visited: seq<bool>, out: seq<nat>)
    requires DfsState(adj, src, visited, out) && v < |adj| && Reachable(adj, src, v)
    ensures var r := DfsVisit(adj, v, visited, out);
      DfsState(adj, src, r.0, r.1) && Grows(adj, out, r) && r.0[v]
    decreases CountFalse(visited), 0, 1
  {
    if !visited[v] {
      DfsVisitFresh(adj, src, v, visited, out);
    }
  }

  /** The visit of an unvisited vertex: the run over its successors after marking
      and emitting it. */
  lemma {:induction false} DfsVisitFresh(adj: seq<seq<nat>>, src: nat, v: nat, visited: seq<bool>, out: seq<nat>)
    requires DfsState(adj, src, visited, out) && v < |adj| && Reachable(adj, src, v) && !visited[v]
    ensures var r := DfsEach(adj, adj[v], visited[v := true], out + [v]);
      DfsState(adj, src, r.0, r.1) && Grows(adj, out, r) && r.0[v]
    decreases CountFalse(visited), 0, 0
  {
    CountFalseSet(visited, v);
    var vis := visited[v := true];
    var o := out + [v];
    DfsMark(adj, src, v, visited, out);
    DfsEachState(adj, src, adj[v], vis, o);
    var r := DfsEach(adj, adj[v], vis, o);
    assert r.1[..|out|] == out by {
      assert r.1[..|out|] == r.1[..|o|][..|out|];
    }
    assert r.1[|out|] == v;
    forall i, w | |out| <= i < |r.1| && r.1[i] < |adj| && w in adj[r.1[i]]
      ensures w < |adj| && r.0[w]
    {
      if i == |out| {
        var j :| 0 <= j < |adj[v]| && adj[v][j] == w;
      }
    }
  }

  /** Marking and emitting an unvisited reachable vertex keeps the DFS state, and its
      successors are reachable. */
  lemma DfsMark(adj: seq<seq<nat>>, src: nat, v: nat, visited: seq<bool>, out: seq<nat>)
    requires DfsState(adj, src, visited, out) && v < |adj| && Reachable(adj, src, v) && !visited[v]
    ensures DfsState(adj, src, visited[v := true], out + [v])
    ensures forall i :: 0 <= i < |adj[v]| ==> adj[v][i] < |adj| && Reachable(adj, src, adj[v][i])
  {
    var o := out + [v];
    forall i, j | 0 <= i < j < |o|
      ensures o[i] != o[j]
    {
      if j == |out| {
        assert o[i] in out;
      }
    }
    forall i | 0 <= i < |adj[v]|
      ensures adj[v][i] < |adj| && Reachable(adj, src, adj[v][i])
    {
      ReachStep(adj, src, v, adj[v][i]);
    }
  }

  lemma {:induction false} DfsEachState(adj: seq<seq<nat>>, src: nat, vs: seq<nat>, visited: seq<bool>, out: seq<nat>)
    requires DfsState(adj, src, visited, out)
    requires forall i :: 0 <= i < |vs| ==> vs[i] < |adj| && Reachable(adj, src, vs[i])
    ensures var r := DfsEach(adj, vs, visited, out);
      DfsState(adj, src, r.0, r.1) && Grows(adj, out, r) &&
      forall i :: 0 <= i < |vs| ==> r.0[vs[i]]
    decreases CountFalse(visited), 1, |vs|
  {
    if vs != [] {
      DfsVisitState(adj, src, vs[0], visited, out);
      var s := DfsVisit(adj, vs[0], visited, out);
      DfsEachState(adj, src, vs[1..], s.0, s.1);
      var r := DfsEach(adj, vs[1..], s.0, s.1);
      assert r == DfsEach(adj, vs, visited, out);
      assert r.1[..|out|] == out by {
        assert r.1[..|out|] == r.1[..|s.1|][..|out|];
      }
      forall i, w | |out| <= i < |r.1| && r.1[i] < |adj| && w in adj[r.1[i]]
        ensures w < |adj| && r.0[w]
      {
        if i < |s.1| {
          assert r.1[i] == s.1[i];
          assert s.0[w];
          assert w in s.1 && w in r.1;
        }
      }
      forall i | 0 <= i < |vs|
        ensures r.0[vs[i]]
      {
        if i == 0 {
          assert vs[0] in s.1 && vs[0] in r.1;
        } else {
          assert vs[i] == vs[1..][i - 1];
        }
      }
    }
  }

  /** DFS emits `src` first, no vertex twice, and exactly the vertices reachable from
      `src`. */
  lemma DfsVisitsReachable(adj: seq<seq<nat>>, src: nat)
    requires WellFormed(adj) && src < |adj|
    ensures var r := Dfs(adj, src);
      r != [] && r[0] == src && Distinct(r) &&
      forall v :: v in r <==> Reachable(adj, src, v)
  {
    ReachSelf(adj, src);
    var vis := Falses(|adj|);
    DfsVisitState(adj, src, src, vis, []);
    var s := DfsVisit(adj, src, vis, []);
    var r := s.1;
    CountFalseSet(vis, src);
    assert r != [] && r[0] == src by {
      assert [] + [src] == [src];
      assert s == DfsEach(adj, adj[src], vis[src := true], [src]);
      DfsGrows(adj, adj[src], vis[src := true], [src]);
    }
    assert Closed(adj, r) by {
      forall v, w | v in r && w in adj[v]
        ensures w in r
      {
        var i :| 0 <= i < |r| && r[i] == v;
        assert s.0[w];
      }
    }
    forall v | Reachable(adj, src, v)
      ensures v in r
    {
      ClosedReach(adj, r, src, v);
    }
  }

  /** A run of visits only appends to the output. */
  lemma {:induction false} DfsGrows(adj: seq<seq<nat>>, vs: seq<nat>, visited: seq<bool>, out: seq<nat>)
    requires WellFormed(adj) && |visited| == |adj|
    requires forall i :: 0 <= i < |vs| ==> vs[i] < |adj|
    ensures var r := DfsEach(adj, vs, visited, out); |out| <= |r.1| && r.1[..|out|] == out
    decreases CountFalse(visited), 1, |vs|
  {
    if vs != [] {
      DfsVisitGrows(adj, vs[0], visited, out);
      var s := DfsVisit(adj, vs[0], visited, out);
      DfsGrows(adj, vs[1..], s.0, s.1);
      var r := DfsEach(adj, vs[1..], s.0, s.1);
      assert r.1[..|out|] == r.1[..|s.1|][..|out|];
    }
  }

  lemma {:induction false} DfsVisitGrows(adj: seq<seq<nat>>, v: nat, visited: seq<bool>, out: seq<nat>)
    requires WellFormed(adj) && |visited| == |adj| && v < |adj|
    ensures var r := DfsVisit(adj, v, visited, out); |out| <= |r.1| && r.1[..|out|] == out
    decreases CountFalse(visited), 0, 0
  {
    if !visited[v] {
      CountFalseSet(visited, v);
      DfsGrows(adj, adj[v], visited[v := true], out + [v]);
      var r := DfsEach(adj, adj[v], visited[v := true], out + [v]);
      assert r.1[..|out|] == r.1[..|out| + 1][..|out|];
    }
  }

  /** The graph of the traversal tests: `a -> b`, `a -> d`, `b -> c`, `c -> d`,
      `d -> b`, `d -> e`, with `a .. e` numbered 0 .. 4. */
  function TestAdj(): seq<seq<nat>>
  {
    [[1, 3], [2], [3], [1, 4], []]
  }

  /** BFS from `a` emits `[a, b, d, c, e]`. */
  lemma BfsScenario()
    ensures WellFormed(TestAdj()) && Bfs(TestAdj(), 0) == [0, 1, 3, 2, 4]
  {
    var adj := TestAdj();
    var f := false;
    var t := true;
    assert Falses(5) == [f, f, f, f, f];
    CountFalseSet([f, f, f, f, f], 0);
    BfsScenarioMid();
    calc {
      Bfs(adj, 0);
      BfsLoop(adj, [0], [f, f, f, f, f], []);
      { assert [0][1..] + adj[0] == [1, 3] && [f, f, f, f, f][0 := t] == [t, f, f, f, f] && [] + [0] == [0]; }
      BfsLoop(adj, [1, 3], [t, f, f, f, f], [0]);
    }
  }

  /** The BFS scenario from the state after `a` is emitted. */
  lemma BfsScenarioMid()
    ensures WellFormed(TestAdj()) &&
      BfsLoop(TestAdj(), [1, 3], [true, false, false, false, false], [0]) == [0, 1, 3, 2, 4]
  {
    var adj := TestAdj();
    var f := false;
    var t := true;
    CountFalseSet([t, f, f, f, f], 1);
    CountFalseSet([t, t, f, f, f], 3);
    BfsScenarioTail();
    calc {
      BfsLoop(adj, [1, 3], [t, f, f, f, f], [0]);
      { assert [1, 3][1..] + adj[1] == [3, 2] && [t, f, f, f, f][1 := t] == [t, t, f, f, f] && [0] + [1] == [0, 1]; }
      BfsLoop(adj, [3, 2], [t, t, f, f, f], [0, 1]);
      { assert [3, 2][1..] + adj[3] == [2, 1, 4] && [t, t, f, f, f][3 := t] == [t, t, f, t, f] && [0, 1] + [3] == [0, 1, 3]; }
      BfsLoop(adj, [2, 1, 4], [t, t, f, t, f], [0, 1, 3]);
    }
  }

  /** The BFS scenario from the state after `a`, `b` and `d` are emitted. */
  lemma BfsScenarioTail()
    ensures WellFormed(TestAdj()) &&
      BfsLoop(TestAdj(), [2, 1, 4], [true, true, false, true, false], [0, 1, 3]) == [0, 1, 3, 2, 4]
  {
    var adj := TestAdj();
    var f := false;
    var t := true;
    CountFalseSet([t, t, f, t, f], 2);
    CountFalseSet([t, t, t, t, f], 4);
    calc {
      BfsLoop(adj, [2, 1, 4], [t, t, f, t, f], [0, 1, 3]);
      { assert [2, 1, 4][1..] + adj[2] == [1, 4, 3] && [t, t, f, t, f][2 := t] == [t, t, t, t, f] && [0, 1, 3] + [2] == [0, 1, 3, 2]; }
      BfsLoop(adj, [1, 4, 3], [t, t, t, t, f], [0, 1, 3, 2]);
      BfsLoop(adj, [4, 3], [t, t, t, t, f], [0, 1, 3, 2]);
      { assert [4, 3][1..] + adj[4] == [3] && [t, t, t, t, f][4 := t] == [t, t, t, t, t] && [0, 1, 3, 2] + [4] == [0, 1, 3, 2, 4]; }
      BfsLoop(adj, [3], [t, t, t, t, t], [0, 1, 3, 2, 4]);
      BfsLoop(adj, [], [t, t, t, t, t], [0, 1, 3, 2, 4]);
    }
  }

  /** DFS from `a` emits `[a, b, c, d, e]`. */
  lemma DfsScenario()
    ensures WellFormed(TestAdj()) && Dfs(TestAdj(), 0) == [0, 1, 2, 3, 4]
  {
    var adj := TestAdj();
    var f := false;
    var t := true;
    assert Falses(5) == [f, f, f, f, f];
    CountFalseSet([f, f, f, f, f], 0);
    assert [f, f, f, f, f][0 := t] == [t, f, f, f, f] && [] + [0] == [0];
    assert [1, 3][1..] == [3];
    DfsScenarioB();
    var done := ([t, t, t, t, t], [0, 1, 2, 3, 4]);
    assert DfsVisit(adj, 0, [f, f, f, f, f], []) == DfsEach(adj, [1, 3], [t, f, f, f, f], [0]);
    assert DfsEach(adj, [1, 3], [t, f, f, f, f], [0]) == DfsEach(adj, [3], done.0, done.1);
    assert DfsVisit(adj, 3, done.0, done.1) == done;
  }

  /** The visit of `b` from the DFS scenario reaches `c`, `d` and `e`. */
  lemma DfsScenarioB()
    ensures WellFormed(TestAdj()) &&
      DfsVisit(TestAdj(), 1, [true, false, false, false, false], [0]) == ([true, true, true, true, true], [0, 1, 2, 3, 4])
  {
    var adj := TestAdj();
    var f := false;
    var t := true;
    CountFalseSet([t, f, f, f, f], 1);
    CountFalseSet([t, t, f, f, f], 2);
    assert [t, t, f, f, f][2 := t] == [t, t, t, f, f] && [0, 1] + [2] == [0, 1, 2];
    assert [t, f, f, f, f][1 := t] == [t, t, f, f, f] && [0] + [1] == [0, 1];
    DfsScenarioD();
    var done := ([t, t, t, t, t], [0, 1, 2, 3, 4]);
    assert DfsVisit(adj, 2, [t, t, f, f, f], [0, 1]) == DfsEach(adj, [3], [t, t, t, f, f], [0, 1, 2]);
    assert DfsEach(adj, [3], [t, t, t, f, f], [0, 1, 2]) == DfsEach(adj, [], done.0, done.1);
    assert DfsVisit(adj, 1, [t, f, f, f, f], [0]) == DfsEach(adj, [2], [t, t, f, f, f], [0, 1]);
    assert DfsEach(adj, [2], [t, t, f, f, f], [0, 1]) == DfsEach(adj, [], done.0, done.1);
  }

  /** The visit of `d` from the DFS scenario skips `b` and reaches `e`. */
  lemma DfsScenarioD()
    ensures WellFormed(TestAdj()) &&
      DfsVisit(TestAdj(), 3, [true, true, true, false, false], [0, 1, 2]) == ([true, true, true, true, true], [0, 1, 2, 3, 4])
  {
    var adj := TestAdj();
    var f := false;
    var t := true;
    CountFalseSet([t, t, t, f, f], 3);
    CountFalseSet([t, t, t, t, f], 4);
    var all := [t, t, t, t, t];
    assert [t, t, t, t, f][4 := t] == all && [0, 1, 2, 3] + [4] == [0, 1, 2, 3, 4];
    assert [t, t, t, f, f][3 := t] == [t, t, t, t, f] && [0, 1, 2] + [3] == [0, 1, 2, 3];
    assert [1, 4][1..] == [4];
    assert DfsVisit(adj, 4, [t, t, t, t, f], [0, 1, 2, 3]) == DfsEach(adj, [], all, [0, 1, 2, 3, 4]);
    assert DfsVisit(adj, 1, [t, t, t, t, f], [0, 1, 2, 3]) == ([t, t, t, t, f], [0, 1, 2, 3]);
    assert DfsEach(adj, [4], [t, t, t, t, f], [0, 1, 2, 3]) == DfsEach(adj, [], all, [0, 1, 2, 3, 4]);
    assert DfsVisit(adj, 3, [t, t, t, f, f], [0, 1, 2]) == DfsEach(adj, [1, 4], [t, t, t, t, f], [0, 1, 2, 3]);
  }
}

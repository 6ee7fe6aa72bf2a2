/**
 * huffman_tree: the node table behind Huffman coding. The first 256 nodes are
 * the byte leaves; `build_tree` appends one parent per merge. Links and indices
 * are node positions, with -1 for none.
 *
 * `build_tree` is modelled by the functions `Queued` (the nodes it enqueues),
 * `Merge` (one round of its loop) and `Built`; `Building` is the invariant those
 * rounds keep, from which `BuiltSound` derives the shape of the finished tree.
 */
module HuffmanTree {
  import Heap
  import Seqs

  /** A tree node (lines 93-99); `Blank` is its default (lines 113-123). */
  datatype Node = Node(parent: int, left: int, right: int, index: int, count: nat)

  /** A frequency-table entry (lines 133-137). */
  datatype Freq = Freq(byte: Byte, count: nat)

  /** A byte of the data being coded (`u8`). */
  newtype Byte = x: int | 0 <= x < 256

  const Blank := Node(-1, -1, -1, -1, 0)

  /** The node table of a new `Huffman`: 256 default nodes. */
  function Fresh(): (t: seq<Node>)
    ensures |t| == 256 && forall i | 0 <= i < |t| :: t[i] == Blank
  {
    seq(256, _ => Blank)
  }

  /** The queue order: a node with a smaller count compares greater (lines
      102-111), so the key of the max-heap is the negated count. */
  function Rank(n: Node): int
  {
    -(n.count as int)
  }

  /** The sum of the counts of `ns`. */
  function Sum(ns: seq<Node>): nat
    decreases |ns|
  {
    if ns == [] then 0 else Sum(ns[..|ns| - 1]) + ns[|ns| - 1].count
  }

  lemma {:induction false} SumConcat(a: seq<Node>, b: seq<Node>)
    ensures Sum(a + b) == Sum(a) + Sum(b)
    decreases |b|
  {
    if b == [] {
      assert a + b == a;
    } else {
      assert (a + b)[..|a + b| - 1] == a + b[..|b| - 1];
      SumConcat(a, b[..|b| - 1]);
    }
  }

  /** Sums do not depend on the order of the nodes. */
  lemma {:induction false} SumPerm(a: seq<Node>, b: seq<Node>)
    requires multiset(a) == multiset(b)
    ensures Sum(a) == Sum(b)
    decreases |a|
  {
    if a == [] {
      assert |b| == |multiset(b)| == 0;
    } else {
      var x, a' := a[|a| - 1], a[..|a| - 1];
      assert a == a' + [x];
      assert x in multiset(b);
      var j :| 0 <= j < |b| && b[j] == x;
      DropAt(b, j);
      assert multiset(a') == multiset(a) - multiset{x};
      SumPerm(a', b[..j] + b[j + 1..]);
    }
  }

  /** Dropping position `j` removes one copy of `b[j]` and its count from the sum. */
  lemma DropAt(b: seq<Node>, j: nat)
    requires j < |b|
    ensures multiset(b[..j] + b[j + 1..]) == multiset(b) - multiset{b[j]}
    ensures Sum(b) == Sum(b[..j] + b[j + 1..]) + b[j].count
  {
    Seqs.SplitAt(b, j);
    DropSum(b[..j], b[j], b[j + 1..]);
    DropMultiset(b[..j], b[j], b[j + 1..]);
  }

  lemma DropMultiset(l: seq<Node>, x: Node, r: seq<Node>)
    ensures multiset(l + r) == multiset(l + ([x] + r)) - multiset{x}
  {
    assert multiset(l + ([x] + r)) == multiset(l) + multiset{x} + multiset(r);
  }

  lemma DropSum(l: seq<Node>, x: Node, r: seq<Node>)
    ensures Sum(l + ([x] + r)) == Sum(l + r) + x.count
  {
    SumConcat(l, [x] + r);
    SumConcat([x], r);
    SumConcat(l, r);
    assert Sum([x]) == x.count by { assert [x][..0] == []; }
  }

  /** Replacing one node changes the sum by the difference of the counts. */
  lemma {:induction false} SumUpdate(t: seq<Node>, i: nat, n: Node)
    requires i < |t|
    ensures Sum(t[i := n]) + t[i].count == Sum(t) + n.count
    decreases |t|
  {
    var u := t[i := n];
    if i < |t| - 1 {
      assert u[..|u| - 1] == t[..|t| - 1][i := n];
      SumUpdate(t[..|t| - 1], i, n);
    } else {
      assert u[..|u| - 1] == t[..|t| - 1];
    }
  }

  // ---------------------------------------------------------------------------
  // count_byte_freq (lines 171-180)

  /** One byte of `count_byte_freq`: its leaf's count goes up by one and its
      index becomes the byte. */
  function Bump(t: seq<Node>, b: Byte): (u: seq<Node>)
    requires |t| >= 256
    ensures |u| == |t|
  {
    t[b as int := t[b as int].(count := t[b as int].count + 1, index := b as int)]
  }

  /** The node table after `count_byte_freq(data)`. */
  function Counted(t: seq<Node>, data: seq<Byte>): (u: seq<Node>)
    requires |t| >= 256
    ensures |u| == |t|
    decreases |data|
  {
    if data == [] then t else Bump(Counted(t, data[..|data| - 1]), data[|data| - 1])
  }

  /** The number of occurrences of `b` in `data`. */
  function Occurrences(data: seq<Byte>, b: Byte): nat
    decreases |data|
  {
    if data == [] then 0
    else Occurrences(data[..|data| - 1], b) + if data[|data| - 1] == b then 1 else 0
  }

  /** After counting, a byte's leaf has gained one count per occurrence of the
      byte, its index is the byte once it occurs, and a byte that does not occur
      keeps its node. */
  lemma {:induction false} CountedCounts(t: seq<Node>, data: seq<Byte>, b: Byte)
    requires |t| >= 256
    ensures Counted(t, data)[b as int].count == t[b as int].count + Occurrences(data, b)
    ensures Occurrences(data, b) > 0 ==> Counted(t, data)[b as int] == t[b as int].(count := t[b as int].count + Occurrences(data, b), index := b as int)
    ensures Occurrences(data, b) == 0 ==> Counted(t, data)[b as int] == t[b as int]
    decreases |data|
  {
    if data != [] {
      var x := data[|data| - 1];
      CountedCounts(t, data[..|data| - 1], b);
    }
  }

  /** Counting keeps every node at position 256 or beyond. */
  lemma {:induction false} CountedKeeps(t: seq<Node>, data: seq<Byte>, i: nat)
    requires 256 <= i < |t|
    ensures Counted(t, data)[i] == t[i]
    decreases |data|
  {
    if data != [] {
      CountedKeeps(t, data[..|data| - 1], i);
    }
  }

  /** Counting adds one to the total count per byte. */
  lemma {:induction false} CountedSum(t: seq<Node>, data: seq<Byte>)
    requires |t| >= 256
    ensures Sum(Counted(t, data)) == Sum(t) + |data|
    decreases |data|
  {
    if data != [] {
      var c, x := Counted(t, data[..|data| - 1]), data[|data| - 1] as int;
      CountedSum(t, data[..|data| - 1]);
      SumUpdate(c, x, c[x].(count := c[x].count + 1, index := x));
    }
  }

  /** A table of unlinked leaves in which exactly the nodes with a positive count
      carry their own position as index, as `count_byte_freq` and
      `restore_tree` leave a new table. */
  ghost predicate Plain(t: seq<Node>)
  {
    forall i | 0 <= i < |t| :: t[i] == Node(-1, -1, -1, if t[i].count > 0 then i else -1, t[i].count)
  }

  /** Counting bytes into a new table leaves it plain. */
  lemma CountedPlain(data: seq<Byte>)
    ensures Plain(Counted(Fresh(), data))
  {
    var t := Counted(Fresh(), data);
    forall i | 0 <= i < |t|
      ensures t[i] == Node(-1, -1, -1, if t[i].count > 0 then i else -1, t[i].count)
    {
      CountedCounts(Fresh(), data, i as Byte);
    }
  }

  // ---------------------------------------------------------------------------
  // frequency_tbl (lines 257-263)

  /** The cast of an index to a byte, which keeps its low eight bits. */
  function ByteOf(i: int): (b: Byte)
    ensures 0 <= i < 256 ==> b as int == i
  {
    (i % 256) as Byte
  }

  /** The entry for one node: nothing when its count is zero, otherwise its
      index as a byte and its count. */
  function Entry(n: Node): seq<Freq>
  {
    if n.count > 0 then [Freq(ByteOf(n.index), n.count)] else []
  }

  /** The entries of `ns`, in order. */
  function Table(ns: seq<Node>): seq<Freq>
    decreases |ns|
  {
    if ns == [] then [] else Table(ns[..|ns| - 1]) + Entry(ns[|ns| - 1])
  }

  /** `frequency_tbl`: the entries of the first 256 nodes. */
  function FrequencyTbl(t: seq<Node>): seq<Freq>
  {
    Table(if |t| <= 256 then t else t[..256])
  }

  /** On a table of at least 256 nodes the frequency table reads the first 256. */
  lemma FrequencyTblPrefix(t: seq<Node>)
    requires |t| >= 256
    ensures FrequencyTbl(t) == Table(t[..256])
  {
    if |t| == 256 { assert t[..256] == t; }
  }

  /** The entries of a plain table of at most 256 nodes name nodes with a
      positive count, with that count. */
  lemma {:induction false} TableCounts(t: seq<Node>)
    requires |t| <= 256 && Plain(t)
    ensures forall f | f in Table(t) :: f.byte as int < |t| && f.count == t[f.byte as int].count > 0
    decreases |t|
  {
    if t != [] {
      var m := |t| - 1;
      assert Plain(t[..m]);
      TableCounts(t[..m]);
    }
  }

  /** The entries of a plain table of at most 256 nodes are in increasing byte
      order. */
  lemma {:induction false} TableIncreasing(t: seq<Node>)
    requires |t| <= 256 && Plain(t)
    ensures forall k, l | 0 <= k < l < |Table(t)| :: Table(t)[k].byte as int < Table(t)[l].byte as int
    decreases |t|
  {
    if t != [] {
      var m := |t| - 1;
      var s := t[..m];
      assert Plain(s);
      TableIncreasing(s);
      TableCounts(s);
      var e := Entry(t[m]);
      forall k, l | 0 <= k < l < |Table(t)| ensures Table(t)[k].byte as int < Table(t)[l].byte as int {
        if l >= |Table(s)| {
          assert Table(t)[k] in Table(s);
        }
      }
    }
  }

  /** Every node with a positive count of a plain table of at most 256 nodes has
      its entry. */
  lemma {:induction false} TableComplete(t: seq<Node>)
    requires |t| <= 256 && Plain(t)
    ensures forall i | 0 <= i < |t| && t[i].count > 0 :: Freq(ByteOf(i), t[i].count) in Table(t)
    decreases |t|
  {
    if t != [] {
      var m := |t| - 1;
      assert Plain(t[..m]);
      TableComplete(t[..m]);
    }
  }

  // ---------------------------------------------------------------------------
  // restore_tree (lines 212-219)

  /** One entry of `restore_tree`: its byte's leaf takes the byte as index and the
      entry's count. */
  function Put(t: seq<Node>, f: Freq): (u: seq<Node>)
    requires |t| >= 256
    ensures |u| == |t|
  {
    t[f.byte as int := t[f.byte as int].(index := f.byte as int, count := f.count)]
  }

  /** The node table after `restore_tree`'s loop over `fs`. */
  function Restored(t: seq<Node>, fs: seq<Freq>): (u: seq<Node>)
    requires |t| >= 256
    ensures |u| == |t|
    decreases |fs|
  {
    if fs == [] then t else Put(Restored(t, fs[..|fs| - 1]), fs[|fs| - 1])
  }

  /** Restoring the frequency table of a plain table's first `m` nodes into a new
      table rebuilds those nodes. */
  lemma {:induction false} RestoreTablePrefix(t: seq<Node>, m: nat)
    requires |t| == 256 && Plain(t) && m <= 256
    ensures Restored(Fresh(), Table(t[..m])) == t[..m] + Fresh()[m..]
    decreases m
  {
    if m > 0 {
      var s := t[..m - 1];
      assert t[..m][..m - 1] == s;
      RestoreTablePrefix(t, m - 1);
      if t[m - 1].count > 0 {
        var f := Freq(ByteOf(m - 1), t[m - 1].count);
        assert Table(t[..m]) == Table(s) + [f];
        assert (Table(s) + [f])[..|Table(s)|] == Table(s);
        RestoreOne(t, m);
      } else {
        assert Table(t[..m]) == Table(s);
        SkipOne(t, m);
      }
    } else {
      assert Table(t[..0]) == [];
    }
  }

  /** Putting the entry of a plain table's node `m - 1` into a new table restored
      up to `m - 1` restores it up to `m`. */
  lemma RestoreOne(t: seq<Node>, m: nat)
    requires |t| == 256 && Plain(t) && 0 < m <= 256 && t[m - 1].count > 0
    ensures Put(t[..m - 1] + Fresh()[m - 1..], Freq(ByteOf(m - 1), t[m - 1].count)) == t[..m] + Fresh()[m..]
  {
    var u, v := t[..m - 1] + Fresh()[m - 1..], t[..m] + Fresh()[m..];
    forall i | 0 <= i < 256 ensures Put(u, Freq(ByteOf(m - 1), t[m - 1].count))[i] == v[i] {
      if i == m - 1 {
        assert u[i] == Blank;
      }
    }
  }

  /** A plain table's node `m - 1` with count zero is a default node. */
  lemma SkipOne(t: seq<Node>, m: nat)
    requires |t| == 256 && Plain(t) && 0 < m <= 256 && t[m - 1].count == 0
    ensures t[..m - 1] + Fresh()[m - 1..] == t[..m] + Fresh()[m..]
  {
    var u, v := t[..m - 1] + Fresh()[m - 1..], t[..m] + Fresh()[m..];
    forall i | 0 <= i < 256 ensures u[i] == v[i] { }
  }

  /** `restore_tree` on a new table inverts `frequency_tbl` of a plain table. */
  lemma RestoreTable(t: seq<Node>)
    requires |t| == 256 && Plain(t)
    ensures Restored(Fresh(), FrequencyTbl(t)) == t
  {
    RestoreTablePrefix(t, 256);
    assert t[..256] == t;
    assert Fresh()[256..] == [];
    assert t + [] == t;
  }

  // ---------------------------------------------------------------------------
  // build_tree (lines 182-210)

  /** What `build_tree` needs of the table it starts from: unlinked leaves, each
      with a positive count carrying its own position as index (line 203 indexes
      the table by it), and at least one of them (the `unwrap` on line 208). */
  ghost predicate Startable(t: seq<Node>)
  {
    && (forall i | 0 <= i < |t| ::
          t[i].parent == -1 && t[i].left == -1 && t[i].right == -1 && (t[i].count > 0 ==> t[i].index == i))
    && exists i | 0 <= i < |t| :: t[i].count > 0
  }

  /** The queue after `build_tree` has enqueued the nodes with a positive count
      among the first `i` (lines 183-188). */
  function Queued(t: seq<Node>, i: nat): seq<Node>
    requires i <= |t|
    decreases i
  {
    if i == 0 then []
    else
      var q := Queued(t, i - 1);
      if t[i - 1].count > 0 then Heap.SiftUp(q + [t[i - 1]], |q|, Rank) else q
  }

  /** Sets the parent of node `i`. */
  function SetParent(t: seq<Node>, i: int, p: int): (u: seq<Node>)
    ensures |u| == |t|
  {
    if 0 <= i < |t| then t[i := t[i].(parent := p)] else t
  }

  /** The table after one merge: a new node with children `a` and `b` and count
      `c` at the end, which becomes their parent (lines 196-204). */
  function Joined(t: seq<Node>, a: int, b: int, c: nat): (u: seq<Node>)
    ensures |u| == |t| + 1
  {
    SetParent(SetParent(t + [Node(-1, a, b, |t|, c)], a, |t|), b, |t|)
  }

  /** The queue after a `dequeue`: the popped vector sifted down from the root. */
  function Rest(q: seq<Node>): (r: seq<Node>)
    requires |q| > 0
    ensures |r| == |q| - 1
  {
    Heap.SiftDown(Heap.Popped(q), 0, |q| - 1, Rank)
  }

  /** One round of `build_tree`'s loop (lines 192-206): the two nodes dequeued
      first become the children of a new node with the sum of their counts,
      which is enqueued. */
  function Merge(t: seq<Node>, q: seq<Node>): (r: (seq<Node>, seq<Node>))
    requires |q| >= 2
    ensures |r.0| == |t| + 1 && |r.1| == |q| - 1
  {
    var n1, n2, q2 := q[0], Rest(q)[0], Rest(Rest(q));
    var p := Node(-1, n1.index, n2.index, |t|, n1.count + n2.count);
    (Joined(t, n1.index, n2.index, n1.count + n2.count), Heap.SiftUp(q2 + [p], |q2|, Rank))
  }

  /** `build_tree`'s loop: merges while more than one node is queued. */
  function Merged(t: seq<Node>, q: seq<Node>): (r: (seq<Node>, seq<Node>))
    ensures |q| >= 1 ==> |r.1| == 1
    decreases |q|
  {
    if |q| <= 1 then (t, q) else Merged(Merge(t, q).0, Merge(t, q).1)
  }

  /** `build_tree`: the finished table, and as root the index of the node left
      in the queue (lines 208-209). */
  function Built(t: seq<Node>): (r: (seq<Node>, int))
    requires Startable(t)
    ensures Grown(t, r.0) && Shaped(r.0) && 0 <= r.1 < |r.0| && r.0[r.1].parent == -1
  {
    var q := Queued(t, |t|);
    QueuedBuilding(t);
    var i :| 0 <= i < |t| && t[i].count > 0;
    assert t[i] in q;
    MergedSound(t, t, q);
    var m := Merged(t, q);
    assert m.1[0] in m.1;
    (m.0, m.1[0].index)
  }

  /** Node `i` agrees with its neighbours: a parent, when it has one, comes later
      and has `i` as a child; and it either has no children or two distinct
      earlier ones whose parent it is. */
  ghost predicate Linked(t: seq<Node>, i: int)
    requires 0 <= i < |t|
  {
    && (t[i].parent == -1 || (i < t[i].parent < |t| && (t[t[i].parent].left == i || t[t[i].parent].right == i)))
    && ((t[i].left == -1 && t[i].right == -1)
        || (0 <= t[i].left < i && 0 <= t[i].right < i && t[i].left != t[i].right
            && t[t[i].left].parent == i && t[t[i].right].parent == i))
  }

  /** Every node agrees with its neighbours. */
  ghost predicate Shaped(t: seq<Node>)
  {
    forall i | 0 <= i < |t| :: Linked(t, i)
  }

  /** Queued node `n` is the table's node at its index, has no parent yet, a
      positive count, and is queued once. */
  ghost predicate Waiting(t: seq<Node>, q: seq<Node>, n: Node)
  {
    0 <= n.index < |t| && t[n.index] == n && n.parent == -1 && n.count > 0 && multiset(q)[n] == 1
  }

  /** `t` extends `t0`: of the nodes of `t0` only parents differ and they are
      leaves; later nodes are internal with a positive count; and a node with a
      positive count has its position as index. */
  ghost predicate Grown(t0: seq<Node>, t: seq<Node>)
  {
    && |t0| <= |t|
    && (forall i | 0 <= i < |t0| :: t[i] == t0[i].(parent := t[i].parent))
    && (forall i | 0 <= i < |t| :: (i < |t0| <==> t[i].right == -1))
    && (forall i | |t0| <= i < |t| :: t[i].count > 0)
    && (forall i | 0 <= i < |t| && t[i].count > 0 :: t[i].index == i)
  }

  /** What each round of `build_tree`'s loop keeps, for the table `t` and queue
      `q` reached from the table `t0`: the table is shaped; of the nodes of `t0`
      only parents change and they stay leaves; later nodes are internal with a
      positive count; a node with a positive count has its position as index;
      the queue is a heap of waiting nodes holding every parentless node with a
      positive count, and the counts it holds add up to those of `t0`. */
  ghost predicate Building(t0: seq<Node>, t: seq<Node>, q: seq<Node>)
  {
    && Grown(t0, t) && Shaped(t) && Heap.IsHeap(q, Rank) && Sum(q) == Sum(t0)
    && (forall n | n in q :: Waiting(t, q, n))
    && (forall i | 0 <= i < |t| && t[i].parent == -1 && t[i].count > 0 :: t[i] in q)
  }

  /** `q` is a heap holding, once each, exactly the nodes among the first `i`
      of `t` with a positive count, and their counts. */
  ghost predicate Gathered(t: seq<Node>, i: nat, q: seq<Node>)
    requires i <= |t|
  {
    && Heap.IsHeap(q, Rank) && Sum(q) == Sum(t[..i])
    && (forall n | n in q :: 0 <= n.index < i && t[n.index] == n && n.count > 0 && multiset(q)[n] == 1)
    && (forall j | 0 <= j < i && t[j].count > 0 :: t[j] in q)
  }

  /** The nodes of a table of unlinked leaves that `build_tree` enqueues first. */
  lemma {:induction false} QueuedSound(t: seq<Node>, i: nat)
    requires i <= |t|
    requires forall j | 0 <= j < |t| :: t[j].parent == -1 && (t[j].count > 0 ==> t[j].index == j)
    ensures Gathered(t, i, Queued(t, i))
    decreases i
  {
    if i == 0 {
      assert t[..0] == [];
    } else {
      QueuedSound(t, i - 1);
      GatherOne(t, i - 1, Queued(t, i - 1));
    }
  }

  /** One step of `build_tree`'s first loop, which enqueues node `i` of the
      table when its count is positive. */
  lemma GatherOne(t: seq<Node>, i: nat, q: seq<Node>)
    requires i < |t| && (t[i].count > 0 ==> t[i].index == i) && Gathered(t, i, q)
    ensures t[i].count > 0 ==> Gathered(t, i + 1, Heap.SiftUp(q + [t[i]], |q|, Rank))
    ensures t[i].count == 0 ==> Gathered(t, i + 1, q)
  {
    SumPrefix(t, i);
    if t[i].count > 0 {
      EnqueueOne(t, i, q);
    } else {
      SkipOneNode(t, i, q);
    }
  }

  /** Skipping node `i` of the table, whose count is zero. */
  lemma SkipOneNode(t: seq<Node>, i: nat, q: seq<Node>)
    requires i < |t| && t[i].count == 0 && Gathered(t, i, q)
    requires Sum(t[..i + 1]) == Sum(t[..i]) + t[i].count
    ensures Gathered(t, i + 1, q)
  {
  }

  lemma SumPrefix(t: seq<Node>, i: nat)
    requires i < |t|
    ensures Sum(t[..i + 1]) == Sum(t[..i]) + t[i].count
  {
    assert t[..i + 1][..i] == t[..i];
  }

  /** Enqueuing node `i` of the table, whose count is positive. */
  lemma EnqueueOne(t: seq<Node>, i: nat, q: seq<Node>)
    requires i < |t| && t[i].count > 0 && t[i].index == i && Gathered(t, i, q)
    requires Sum(t[..i + 1]) == Sum(t[..i]) + t[i].count
    ensures Gathered(t, i + 1, Heap.SiftUp(q + [t[i]], |q|, Rank))
  {
    var x := t[i];
    var q' := Heap.SiftUp(q + [x], |q|, Rank);
    Heap.InsertSound(q, x, Rank);
    assert Sum(q + [x]) == Sum(q) + x.count by {
      assert (q + [x])[..|q|] == q;
    }
    SumPerm(q', q + [x]);
    assert x !in q;
    forall n | n in q' ensures 0 <= n.index < i + 1 && t[n.index] == n && n.count > 0 && multiset(q')[n] == 1 {
      assert n in multiset(q');
    }
    forall j | 0 <= j < i + 1 && t[j].count > 0 ensures t[j] in q' {
      if j < i {
        assert t[j] in multiset(q);
      }
      assert t[j] in multiset(q');
    }
  }

  /** The queue `build_tree` starts its loop with keeps `Building` for the table
      it starts from. */
  lemma QueuedBuilding(t: seq<Node>)
    requires Startable(t)
    ensures Building(t, t, Queued(t, |t|))
  {
    QueuedSound(t, |t|);
    assert t[..|t|] == t;
    var q := Queued(t, |t|);
    assert forall n | n in q :: Waiting(t, q, n);
    assert Shaped(t) by {
      forall i | 0 <= i < |t| ensures Linked(t, i) { }
    }
  }

  /** Dequeuing twice from a queue of waiting nodes gives two different nodes,
      and a heap of the others. */
  lemma TakeTwo(t: seq<Node>, q: seq<Node>)
    requires |q| >= 2 && Heap.IsHeap(q, Rank) && forall n | n in q :: Waiting(t, q, n)
    ensures Heap.IsHeap(Rest(Rest(q)), Rank)
    ensures multiset(q) == multiset(Rest(Rest(q))) + multiset{q[0]} + multiset{Rest(q)[0]}
    ensures Waiting(t, q, q[0]) && Waiting(t, q, Rest(q)[0]) && q[0].index != Rest(q)[0].index
  {
    var q1 := Rest(q);
    Heap.RemoveSound(q, Rank);
    Heap.RemoveSound(q1, Rank);
    assert q[0] in q;
    assert Waiting(t, q, q[0]);
    assert multiset(q1)[q[0]] == 0;
    assert q1[0] in multiset(q1);
    assert q1[0] in q;
  }

  /** Where `Joined` differs from the table it extends. */
  lemma JoinedAt(t: seq<Node>, a: int, b: int, c: nat)
    requires 0 <= a < |t| && 0 <= b < |t| && a != b
    ensures Joined(t, a, b, c)[|t|] == Node(-1, a, b, |t|, c)
    ensures Joined(t, a, b, c)[a] == t[a].(parent := |t|) && Joined(t, a, b, c)[b] == t[b].(parent := |t|)
    ensures forall k | 0 <= k < |t| && k != a && k != b :: Joined(t, a, b, c)[k] == t[k]
  {
  }

  /** Joining two different parentless nodes keeps the table shaped. */
  lemma JoinedShaped(t: seq<Node>, a: int, b: int, c: nat)
    requires Shaped(t) && 0 <= a < |t| && 0 <= b < |t| && a != b
    requires t[a].parent == -1 && t[b].parent == -1
    ensures Shaped(Joined(t, a, b, c))
  {
    var u := Joined(t, a, b, c);
    JoinedAt(t, a, b, c);
    forall k | 0 <= k < |u| ensures Linked(u, k) {
      if k < |t| {
        assert Linked(t, k);
        if t[k].left != -1 {
          assert Linked(t, t[k].left) && Linked(t, t[k].right);
        }
      }
    }
  }

  /** One round of `build_tree`'s loop keeps `Building`. */
  lemma MergeSound(t0: seq<Node>, t: seq<Node>, q: seq<Node>)
    requires Building(t0, t, q) && |q| >= 2
    ensures Building(t0, Merge(t, q).0, Merge(t, q).1)
  {
    var n1, n2, q2 := q[0], Rest(q)[0], Rest(Rest(q));
    var c := n1.count + n2.count;
    var p := Node(-1, n1.index, n2.index, |t|, c);
    var u, q' := Joined(t, n1.index, n2.index, c), Heap.SiftUp(q2 + [p], |q2|, Rank);
    assert Merge(t, q) == (u, q');
    TakeTwo(t, q);
    JoinedShaped(t, n1.index, n2.index, c);
    Heap.InsertSound(q2, p, Rank);
    MergeSum(q, q2, n1, n2, p, q');
    MergeWaiting(t, q, q2, n1, n2, c, q');
    MergeLive(t, q, q2, n1, n2, c, q');
    JoinedGrown(t0, t, n1.index, n2.index, c);
  }

  /** Joining two nodes with a positive count extends the table. */
  lemma JoinedGrown(t0: seq<Node>, t: seq<Node>, a: int, b: int, c: nat)
    requires Grown(t0, t) && 0 <= a < |t| && 0 <= b < |t| && a != b && c > 0
    ensures Grown(t0, Joined(t, a, b, c))
  {
    JoinedAt(t, a, b, c);
  }

  /** After a round of merging, the queue holds waiting nodes of the new table. */
  lemma MergeWaiting(t: seq<Node>, q: seq<Node>, q2: seq<Node>, n1: Node, n2: Node, c: nat, q': seq<Node>)
    requires forall n | n in q :: Waiting(t, q, n)
    requires multiset(q) == multiset(q2) + multiset{n1} + multiset{n2}
    requires Waiting(t, q, n1) && Waiting(t, q, n2) && n1.index != n2.index && c > 0
    requires multiset(q') == multiset(q2) + multiset{Node(-1, n1.index, n2.index, |t|, c)}
    ensures forall n | n in q' :: Waiting(Joined(t, n1.index, n2.index, c), q', n)
  {
    var p, u := Node(-1, n1.index, n2.index, |t|, c), Joined(t, n1.index, n2.index, c);
    JoinedAt(t, n1.index, n2.index, c);
    forall n | n in q' ensures Waiting(u, q', n) {
      assert n in multiset(q');
      if n != p {
        assert n in multiset(q2);
        assert n in multiset(q);
        assert n in q;
        assert multiset(q)[n] == multiset(q2)[n] + (if n == n1 then 1 else 0) + (if n == n2 then 1 else 0);
      } else {
        assert p !in q;
        assert p !in multiset(q);
        assert p !in multiset(q2);
      }
    }
  }

  /** After a round of merging, every parentless node with a positive count of
      the new table is queued. */
  lemma MergeLive(t: seq<Node>, q: seq<Node>, q2: seq<Node>, n1: Node, n2: Node, c: nat, q': seq<Node>)
    requires forall i | 0 <= i < |t| && t[i].parent == -1 && t[i].count > 0 :: t[i] in q
    requires forall i | 0 <= i < |t| && t[i].count > 0 :: t[i].index == i
    requires multiset(q) == multiset(q2) + multiset{n1} + multiset{n2}
    requires 0 <= n1.index < |t| && 0 <= n2.index < |t| && n1.index != n2.index && t[n1.index] == n1 && t[n2.index] == n2
    requires multiset(q') == multiset(q2) + multiset{Node(-1, n1.index, n2.index, |t|, c)}
    ensures var u := Joined(t, n1.index, n2.index, c);
      forall k | 0 <= k < |u| && u[k].parent == -1 && u[k].count > 0 :: u[k] in q'
  {
    var p, u := Node(-1, n1.index, n2.index, |t|, c), Joined(t, n1.index, n2.index, c);
    JoinedAt(t, n1.index, n2.index, c);
    forall k | 0 <= k < |u| && u[k].parent == -1 && u[k].count > 0 ensures u[k] in q' {
      if k < |t| {
        assert t[k] in multiset(q);
        assert t[k] in multiset(q2);
        assert u[k] in multiset(q');
      } else {
        assert p in multiset(q');
      }
    }
  }

  /** The counts a round of merging leaves in the queue still add up. */
  lemma MergeSum(q: seq<Node>, q2: seq<Node>, n1: Node, n2: Node, p: Node, q': seq<Node>)
    requires multiset(q) == multiset(q2) + multiset{n1} + multiset{n2}
    requires multiset(q') == multiset(q2) + multiset{p} && p.count == n1.count + n2.count
    ensures Sum(q') == Sum(q)
  {
    assert (q2 + [p])[..|q2|] == q2;
    SumPerm(q', q2 + [p]);
    var r := q2 + [n1] + [n2];
    assert r[..|r| - 1] == q2 + [n1] && (q2 + [n1])[..|q2|] == q2;
    SumPerm(q, r);
  }

  /** `build_tree`'s loop keeps `Building` until one node is left. */
  lemma {:induction false} MergedSound(t0: seq<Node>, t: seq<Node>, q: seq<Node>)
    requires Building(t0, t, q) && |q| >= 1
    ensures Building(t0, Merged(t, q).0, Merged(t, q).1)
    decreases |q|
  {
    if |q| > 1 {
      MergeSound(t0, t, q);
      MergedSound(t0, Merge(t, q).0, Merge(t, q).1);
    }
  }

  /** The root above node `i`: the end of its chain of parents. */
  function Top(t: seq<Node>, i: int): (r: int)
    requires Shaped(t) && 0 <= i < |t|
    ensures 0 <= r < |t| && t[r].parent == -1
    decreases |t| - i
  {
    assert Linked(t, i);
    if t[i].parent == -1 then i else Top(t, t[i].parent)
  }

  /** While `build_tree` runs, the root above a node with a positive count is
      queued. */
  lemma {:induction false} TopQueued(t0: seq<Node>, t: seq<Node>, q: seq<Node>, i: int)
    requires Building(t0, t, q) && 0 <= i < |t| && t[i].count > 0
    ensures t[Top(t, i)] in q
    decreases |t| - i
  {
    assert Linked(t, i);
    if t[i].parent != -1 {
      var p := t[i].parent;
      assert Linked(t, p);
      TopQueued(t0, t, q, p);
    }
  }

  /** What `build_tree` leaves: a shaped table extending the one it started
      from, whose root has no parent and counts every occurrence, and which
      lies above every node that had a positive count. */
  lemma BuiltSound(t0: seq<Node>)
    requires Startable(t0)
    ensures var t, r := Built(t0).0, Built(t0).1;
      && Grown(t0, t) && Shaped(t) && 0 <= r < |t| && t[r].parent == -1 && t[r].count == Sum(t0)
      && forall i | 0 <= i < |t0| && t0[i].count > 0 :: Top(t, i) == r
  {
    var q0 := Queued(t0, |t0|);
    QueuedBuilding(t0);
    var i0 :| 0 <= i0 < |t0| && t0[i0].count > 0;
    assert t0[i0] in q0;
    MergedSound(t0, t0, q0);
    var t, q := Merged(t0, q0).0, Merged(t0, q0).1;
    var x := q[0];
    assert q == [x];
    assert x in q && Waiting(t, q, x);
    assert Sum(q) == x.count by { assert q[..0] == []; }
    forall i | 0 <= i < |t0| && t0[i].count > 0 ensures Top(t, i) == x.index {
      assert t[i].count > 0;
      TopQueued(t0, t, q, i);
    }
  }
}

/**
 * huffman_coding: compression and decompression with a Huffman tree. A byte is
 * coded by the path from the root down to its leaf, one bit per edge (one for
 * a left child, zero for a right child); decoding follows bits from the root
 * until it reaches a leaf.
 *
 * `Code` and `Follow` are those two walks on a node table, `Encode` and `Decode`
 * repeat them over a byte sequence, and `DecodeEncode` proves that decoding
 * undoes encoding on a built tree. `RoundTrip` runs the repository's own
 * scenario on two fresh `Huffman` instances.
 */
module HuffmanCoding {
  import opened Wrappers
  import opened HuffmanBits
  import opened HuffmanTree
  import PriorityQueue
  import Heap

  /** The bits `traverse_tree(node, child)` writes (lines 221-233): those for
      `node`'s parent first, then a one when `child` is `node`'s left child and a
      zero when it is its right child. */
  function Path(t: seq<Node>, node: int, child: int): seq<bool>
    requires Shaped(t) && 0 <= node < |t|
    decreases |t| - node
  {
    assert Linked(t, node);
    (if t[node].parent != -1 then Path(t, t[node].parent, node) else []) + Edge(t, node, child)
  }

  /** The bit for the edge from `node` down to `child`, if it is one. */
  function Edge(t: seq<Node>, node: int, child: int): seq<bool>
    requires 0 <= node < |t|
  {
    if child != -1 && child == t[node].left then [true]
    else if child != -1 && child == t[node].right then [false]
    else []
  }

  /** The code of node `i`: what `traverse_tree(i, -1)` writes. */
  function Code(t: seq<Node>, i: int): seq<bool>
    requires Shaped(t) && 0 <= i < |t|
  {
    Path(t, i, -1)
  }

  /** A node's code extends its parent's by the edge between them. */
  lemma CodeStep(t: seq<Node>, i: int)
    requires Shaped(t) && 0 <= i < |t| && t[i].parent != -1
    ensures Linked(t, i) && t[i].parent < |t|
    ensures Code(t, i) == Code(t, t[i].parent) + [t[t[i].parent].left == i]
  {
    var p := t[i].parent;
    assert Linked(t, i) && Linked(t, p);
    var above := if t[p].parent != -1 then Path(t, t[p].parent, p) else [];
    assert Code(t, i) == Path(t, p, i) + Edge(t, i, -1);
    assert Path(t, p, i) == above + Edge(t, p, i);
    assert Code(t, p) == above + Edge(t, p, -1);
    assert Edge(t, p, i) == [t[p].left == i];
  }

  /** `find_leaf_node` at an internal node with bits left: the walk from the child the
      first bit selects, one bit longer. */
  lemma FollowUnfold(t: seq<Node>, i: int, bits: seq<bool>)
    requires Shaped(t) && 0 <= i < |t| && t[i].right != -1
    ensures 0 <= t[i].left < i && 0 <= t[i].right < i
    ensures bits == [] ==> Follow(t, i, bits).None?
    ensures bits != [] ==>
      Follow(t, i, bits) == Shifted(Follow(t, if bits[0] then t[i].left else t[i].right, bits[1..]), 1)
  {
    assert Linked(t, i);
  }

  /** One bit of `find_leaf_node`'s walk: from an internal node it goes on from
      the child the bit selects, and a walk that reaches a leaf has a bit here. */
  lemma FollowStep(t: seq<Node>, i: int, bits: seq<bool>, k: nat)
    requires Shaped(t) && 0 <= i < |t| && t[i].right != -1
    requires Shifted(Follow(t, i, bits), k).Some?
    ensures bits != [] && 0 <= t[i].left < i && 0 <= t[i].right < i
    ensures bits[0] ==> Shifted(Follow(t, t[i].left, bits[1..]), k + 1) == Shifted(Follow(t, i, bits), k)
    ensures !bits[0] ==> Shifted(Follow(t, t[i].right, bits[1..]), k + 1) == Shifted(Follow(t, i, bits), k)
  {
    FollowUnfold(t, i, bits);
    ShiftedSome(Follow(t, i, bits), k);
    ShiftedTwice(Follow(t, if bits[0] then t[i].left else t[i].right, bits[1..]), 1, k);
  }

  lemma ShiftedSome(r: Option<(int, nat)>, k: nat)
    ensures Shifted(r, k).Some? <==> r.Some?
  {
  }

  lemma ShiftedTwice(r: Option<(int, nat)>, j: nat, k: nat)
    ensures Shifted(Shifted(r, j), k) == Shifted(r, j + k)
  {
  }

  /** The table and queue after `k` rounds of `build_tree`'s loop, which stops
      once one node is queued. */
  function Rounds(t0: seq<Node>, k: nat): (seq<Node>, seq<Node>)
    decreases k
  {
    if k == 0 then (t0, Queued(t0, |t0|))
    else
      var r := Rounds(t0, k - 1);
      if |r.1| >= 2 then Merge(r.0, r.1) else r
  }

  /** What every round of `build_tree`'s loop keeps: `Building`, and a node
      queued. */
  ghost predicate Round(t0: seq<Node>, r: (seq<Node>, seq<Node>))
  {
    Building(t0, r.0, r.1) && |r.1| >= 1
  }

  /** Rounds of merging do not change where merging ends. */
  lemma RoundsMerged(t0: seq<Node>, k: nat)
    ensures Merged(Rounds(t0, k).0, Rounds(t0, k).1) == Merged(t0, Queued(t0, |t0|))
  {
    if k > 0 {
      var r := Rounds(t0, k - 1);
      if |r.1| >= 2 {
        assert Rounds(t0, k) == Merge(r.0, r.1);
        assert Merged(r.0, r.1) == Merged(Merge(r.0, r.1).0, Merge(r.0, r.1).1);
      } else {
        assert Rounds(t0, k) == r;
      }
      RoundsMerged(t0, k - 1);
    }
  }

  lemma RoundsSound(t0: seq<Node>, k: nat)
    requires Startable(t0)
    ensures Round(t0, Rounds(t0, k))
  {
    if k == 0 {
      RoundStart(t0);
    } else {
      RoundsSound(t0, k - 1);
      RoundStep(t0, k);
    }
  }

  /** Round `k` keeps what round `k - 1` left. */
  lemma RoundStep(t0: seq<Node>, k: nat)
    requires k > 0 && Round(t0, Rounds(t0, k - 1))
    ensures Round(t0, Rounds(t0, k))
  {
    var r := Rounds(t0, k - 1);
    if |r.1| >= 2 {
      assert Rounds(t0, k) == Merge(r.0, r.1);
      RoundNext(t0, r);
    } else {
      assert Rounds(t0, k) == r;
    }
  }

  /** The loop starts from the queue of all nodes with a positive count. */
  lemma RoundStart(t0: seq<Node>)
    requires Startable(t0)
    ensures Round(t0, (t0, Queued(t0, |t0|)))
  {
    QueuedBuilding(t0);
    var i0 :| 0 <= i0 < |t0| && t0[i0].count > 0;
    assert t0[i0] in Queued(t0, |t0|);
  }

  /** A round of merging keeps `Round`. */
  lemma RoundNext(t0: seq<Node>, r: (seq<Node>, seq<Node>))
    requires Round(t0, r) && |r.1| >= 2
    ensures Round(t0, Merge(r.0, r.1))
  {
    MergeReady(t0, r.0, r.1);
  }

  /** What `build_tree`'s loop needs after `k` rounds: a node is queued; with
      two, the two nodes to dequeue are different nodes of the table and merging
      them is the next round; with one, the table is the finished one and that
      node is the root. */
  lemma RoundReady(t0: seq<Node>, k: nat)
    requires Startable(t0)
    ensures |Rounds(t0, k).1| >= 1
    ensures var r := Rounds(t0, k); |r.1| >= 2 ==>
      && 0 <= r.1[0].index < |r.0| && 0 <= Rest(r.1)[0].index < |r.0| && r.1[0].index != Rest(r.1)[0].index
      && Rounds(t0, k + 1) == Merge(r.0, r.1)
    ensures var r := Rounds(t0, k); |r.1| == 1 ==> r.0 == Built(t0).0 && r.1[0].index == Built(t0).1
  {
    RoundsSound(t0, k);
    var r := Rounds(t0, k);
    if |r.1| >= 2 {
      MergeReady(t0, r.0, r.1);
    } else {
      RoundsMerged(t0, k);
      assert Merged(r.0, r.1) == r;
    }
  }

  /** What a round of `build_tree`'s loop needs: the two nodes it dequeues are
      different nodes of the table, and merging them keeps `Building`. */
  lemma MergeReady(t0: seq<Node>, t: seq<Node>, q: seq<Node>)
    requires Building(t0, t, q) && |q| >= 2
    ensures 0 <= q[0].index < |t| && 0 <= Rest(q)[0].index < |t| && q[0].index != Rest(q)[0].index
    ensures Building(t0, Merge(t, q).0, Merge(t, q).1)
  {
    TakeTwo(t, q);
    MergeSound(t0, t, q);
  }

  /** Adds `k` to the number of bits a walk used. */
  function Shifted(r: Option<(int, nat)>, k: nat): Option<(int, nat)>
  {
    match r
    case None => None
    case Some(v) => Some((v.0, v.1 + k))
  }

  /** `find_leaf_node(node)` (lines 235-245) on the bits `bits`: the leaf reached
      by going left on a one and right on a zero from `node` until a node without
      a right child, and the number of bits used; `None` when the bits run out
      first (the reader would then read past its buffer). */
  function Follow(t: seq<Node>, node: int, bits: seq<bool>): (r: Option<(int, nat)>)
    requires Shaped(t) && 0 <= node < |t|
    ensures r.Some? ==> 0 <= r.value.0 < |t| && t[r.value.0].right == -1 && r.value.1 <= |bits|
    decreases node
  {
    assert Linked(t, node);
    if t[node].right == -1 then Some((node, 0))
    else if bits == [] then None
    else Shifted(Follow(t, if bits[0] then t[node].left else t[node].right, bits[1..]), 1)
  }

  /** Following a node's code from the root above it leads to that node, using
      exactly the code's bits. */
  lemma {:induction false} FollowCode(t: seq<Node>, i: int, rest: seq<bool>)
    requires Shaped(t) && 0 <= i < |t|
    ensures Follow(t, Top(t, i), Code(t, i) + rest) == Shifted(Follow(t, i, rest), |Code(t, i)|)
    decreases |t| - i
  {
    assert Linked(t, i);
    if t[i].parent == -1 {
      assert Code(t, i) == [];
      assert Code(t, i) + rest == rest;
    } else {
      var p := t[i].parent;
      CodeStep(t, i);
      var bit := t[p].left == i;
      var bits := [bit] + rest;
      assert Linked(t, p) && t[p].right != -1;
      assert Top(t, i) == Top(t, p);
      FollowCode(t, p, bits);
      FollowUnfold(t, p, bits);
      assert bits[0] == bit && bits[1..] == rest;
      assert (if bit then t[p].left else t[p].right) == i;
      ShiftedTwice(Follow(t, i, rest), 1, |Code(t, p)|);
      Associative(Code(t, p), [bit], rest);
    }
  }

  /** The bits `compress_data`'s loop writes for `data` (lines 269-272). */
  function Encode(t: seq<Node>, data: seq<Byte>): seq<bool>
    requires Shaped(t) && |t| >= 256
    decreases |data|
  {
    if data == [] then [] else Code(t, data[0] as int) + Encode(t, data[1..])
  }

  lemma {:induction false} EncodeSnoc(t: seq<Node>, data: seq<Byte>, b: Byte)
    requires Shaped(t) && |t| >= 256
    ensures Encode(t, data + [b]) == Encode(t, data) + Code(t, b as int)
    decreases |data|
  {
    if data == [] {
      assert Encode(t, [b]) == Code(t, b as int) + Encode(t, []);
    } else {
      var rest := data[1..];
      assert (data + [b])[0] == data[0] && (data + [b])[1..] == rest + [b];
      EncodeSnoc(t, rest, b);
      Associative(Code(t, data[0] as int), Encode(t, rest), Code(t, b as int));
    }
  }

  /** What `decompress_data`'s loop (lines 285-290) produces from `bits`: `n`
      bytes, each the leaf `Follow` reaches from `root` on the bits left over by
      the previous one; `None` when the bits run out. */
  function Decode(t: seq<Node>, root: int, bits: seq<bool>, n: nat): Option<seq<Byte>>
    requires Shaped(t) && 0 <= root < |t|
    decreases n
  {
    if n == 0 then Some([])
    else match Follow(t, root, bits)
      case None => None
      case Some(v) =>
        match Decode(t, root, bits[v.1..], n - 1)
        case None => None
        case Some(rest) => Some([ByteOf(v.0)] + rest)
  }

  /** One byte of decoding: the walk from the root reaches a leaf, and the rest
      decodes from the bits it leaves. */
  lemma DecodeStep(t: seq<Node>, root: int, bits: seq<bool>, n: nat, m: nat)
    requires Shaped(t) && 0 <= root < |t| && n == m + 1 && Decode(t, root, bits, n).Some?
    ensures Follow(t, root, bits).Some?
    ensures var v := Follow(t, root, bits).value;
      && Decode(t, root, bits[v.1..], m).Some?
      && Decode(t, root, bits, n).value == [ByteOf(v.0)] + Decode(t, root, bits[v.1..], m).value
  {
  }

  /** Decoding undoes encoding, whatever bits follow, when every byte's node
      is a leaf below `root`. */
  lemma {:induction false} DecodeEncode(t: seq<Node>, root: int, data: seq<Byte>, rest: seq<bool>)
    requires Shaped(t) && |t| >= 256 && 0 <= root < |t|
    requires forall k | 0 <= k < |data| :: t[data[k] as int].right == -1 && Top(t, data[k] as int) == root
    ensures Decode(t, root, Encode(t, data) + rest, |data|) == Some(data)
    decreases |data|
  {
    if data != [] {
      var b := data[0] as int;
      var tail := Encode(t, data[1..]) + rest;
      FollowCode(t, b, tail);
      assert Encode(t, data) + rest == Code(t, b) + tail;
      assert (Code(t, b) + tail)[|Code(t, b)|..] == tail;
      DecodeEncode(t, root, data[1..], rest);
      assert [data[0]] + data[1..] == data;
    }
  }

  /** The zeros `flush` adds after `n` written bits to complete a byte. */
  function Padding(n: nat): nat
  {
    if n % 8 == 0 then 0 else 8 - n % 8
  }

  class Huffman {
    var root: int
    var tree: seq<Node>

    /** `new`: no root and 256 default nodes (lines 249-255). */
    constructor ()
      ensures root == -1 && tree == Fresh()
    {
      root := -1;
      tree := Fresh();
    }

    /** `count_byte_freq(data)` (lines 171-180). */
    method CountByteFreq(data: seq<Byte>)
      requires |tree| >= 256
      modifies this
      ensures tree == Counted(old(tree), data) && root == old(root)
    {
      for i := 0 to |data|
        invariant |tree| == |old(tree)| && tree == Counted(old(tree), data[..i]) && root == old(root)
      {
        assert data[..i + 1][..i] == data[..i];
        var idx := data[i] as int;
        tree := tree[idx := tree[idx].(count := tree[idx].count + 1)];
        tree := tree[idx := tree[idx].(index := idx)];
      }
      assert data[..|data|] == data;
    }

    /** `build_tree` (lines 182-210): enqueues the nodes with a positive count,
        merges the two first dequeued until one node is queued, and makes that
        one the root. */
    method BuildTree()
      requires Startable(tree)
      modifies this
      ensures tree == Built(old(tree)).0 && root == Built(old(tree)).1
    {
      ghost var t0 := tree;
      var queue := new PriorityQueue.PriorityQueue<Node>(Rank);
      EnqueueLive(queue);
      assert (tree, queue.heap.inner) == Rounds(t0, 0);
      MergeRounds(queue, t0);
      var rootNode := DequeueUnwrap(queue);
      root := rootNode.index;
    }

    /** The loop of `build_tree` (lines 191-206): rounds are merged while more than
        one node is queued, which leaves the finished table and its root queued. */
    method MergeRounds(queue: PriorityQueue.PriorityQueue<Node>, ghost t0: seq<Node>)
      requires Startable(t0) && queue.Valid() && queue.heap.key == Rank
      requires (tree, queue.heap.inner) == Rounds(t0, 0)
      modifies this, queue.heap
      ensures queue.Valid() && queue.heap.key == Rank && root == old(root)
      ensures |queue.heap.inner| == 1 && tree == Built(t0).0 && queue.heap.inner[0].index == Built(t0).1
    {
      ghost var k := 0;
      var n := queue.Count();
      while n > 1
        invariant queue.Valid() && queue.heap.key == Rank && root == old(root)
        invariant n == |queue.heap.inner| && (tree, queue.heap.inner) == Rounds(t0, k)
        decreases n
      {
        RoundReady(t0, k);
        MergeRound(queue);
        k := k + 1;
        RoundReady(t0, k);
        n := queue.Count();
      }
      RoundReady(t0, k);
    }

    /** The start of `build_tree` (lines 183-188): enqueues, in table order,
        the nodes with a positive count. */
    method EnqueueLive(queue: PriorityQueue.PriorityQueue<Node>)
      requires queue.Valid() && queue.heap.key == Rank && queue.heap.inner == []
      modifies queue.heap
      ensures queue.Valid() && queue.heap.inner == Queued(tree, |tree|)
    {
      for i := 0 to |tree|
        invariant queue.Valid() && queue.heap.inner == Queued(tree, i)
      {
        if tree[i].count > 0 {
          queue.Enqueue(tree[i]);
        }
      }
    }

    /** One round of `build_tree`'s loop (lines 192-205): the two nodes
        dequeued first get a new parent, appended to the table and enqueued. */
    method MergeRound(queue: PriorityQueue.PriorityQueue<Node>)
      requires queue.Valid() && queue.heap.key == Rank && |queue.heap.inner| >= 2
      requires var q := queue.heap.inner;
        0 <= q[0].index < |tree| && 0 <= Rest(q)[0].index < |tree| && q[0].index != Rest(q)[0].index
      modifies this, queue.heap
      ensures queue.Valid() && root == old(root)
      ensures tree == Merge(old(tree), old(queue.heap.inner)).0
      ensures queue.heap.inner == Merge(old(tree), old(queue.heap.inner)).1
    {
      ghost var q, t := queue.heap.inner, tree;
      ghost var pn := Node(-1, q[0].index, Rest(q)[0].index, |t|, q[0].count + Rest(q)[0].count);
      ghost var q2 := Rest(Rest(q));
      assert Merge(t, q) == (Joined(t, pn.left, pn.right, pn.count), Heap.SiftUp(q2 + [pn], |q2|, Rank));
      var node1 := DequeueUnwrap(queue);
      var node2 := DequeueUnwrap(queue);
      var parentNode := Node(-1, node1.index, node2.index, |tree|, node1.count + node2.count);
      assert parentNode == pn;
      AddParent(node1.index, node2.index, parentNode);
      queue.Enqueue(parentNode);
    }

    /** Lines 200-203 of `build_tree`: the new node `p` goes at the end of the
        table and becomes the parent of nodes `a` and `b`. */
    method AddParent(a: int, b: int, p: Node)
      requires 0 <= a < |tree| && 0 <= b < |tree| && p == Node(-1, a, b, |tree|, p.count)
      modifies this
      ensures tree == Joined(old(tree), a, b, p.count) && root == old(root)
    {
      tree := tree + [p];
      tree := tree[a := tree[a].(parent := p.index)];
      tree := tree[b := tree[b].(parent := p.index)];
    }

    /** `restore_tree(ft)` (lines 212-219): puts each entry's count back on its
        byte's leaf, then builds the tree. */
    method RestoreTree(ft: seq<Freq>)
      requires |tree| >= 256 && Startable(Restored(tree, ft))
      modifies this
      ensures tree == Built(Restored(old(tree), ft)).0 && root == Built(Restored(old(tree), ft)).1
    {
      for i := 0 to |ft|
        invariant |tree| == |old(tree)| && tree == Restored(old(tree), ft[..i])
      {
        assert ft[..i + 1][..i] == ft[..i];
        var b := ft[i].byte as int;
        tree := tree[b := tree[b].(index := b)];
        tree := tree[b := tree[b].(count := ft[i].count)];
      }
      assert ft[..|ft|] == ft;
      BuildTree();
    }

    /** `traverse_tree(writer, node, child)` (lines 221-233). */
    method TraverseTree(writer: BitWriter, node: int, child: int)
      requires Shaped(tree) && 0 <= node < |tree| && writer.Valid()
      modifies writer
      ensures writer.Valid() && writer.Bits() == old(writer.Bits()) + Path(tree, node, child)
      decreases |tree| - node
    {
      assert Linked(tree, node);
      ghost var w0, e := writer.Bits(), Edge(tree, node, child);
      ghost var above := if tree[node].parent != -1 then Path(tree, tree[node].parent, node) else [];
      assert Path(tree, node, child) == above + e;
      if tree[node].parent != -1 {
        var parent := tree[node].parent;
        TraverseTree(writer, parent, node);
      }
      ghost var mid := writer.Bits();
      assert mid == old(writer.Bits()) + above;
      if child != -1 {
        if child == tree[node].left {
          writer.WriteBit(true);
        } else if child == tree[node].right {
          writer.WriteBit(false);
        }
      }
      assert writer.Bits() == mid + e;
      Associative(w0, above, e);
    }

    /** `find_leaf_node(reader, node)` (lines 235-245): reads bits until a leaf,
        which it returns as a byte. Reading past the reader's buffer panics, so
        the unread bits must reach a leaf. */
    method FindLeafNode(reader: BitReader, node: int) returns (b: Byte)
      requires Shaped(tree) && 0 <= node < |tree| && reader.Valid()
      requires Follow(tree, node, reader.Unread()).Some?
      modifies reader
      ensures reader.Valid()
      ensures reader.Pos() == old(reader.Pos()) + Follow(tree, node, old(reader.Unread())).value.1
      ensures reader.Unread() == old(reader.Unread())[Follow(tree, node, old(reader.Unread())).value.1..]
      ensures b == ByteOf(Follow(tree, node, old(reader.Unread())).value.0)
    {
      ghost var bits := reader.Unread();
      ghost var used: nat := 0;
      var idx := node;
      while tree[idx].right != -1
        invariant 0 <= idx < |tree| && reader.Valid()
        invariant used <= |bits| && reader.Pos() == old(reader.Pos()) + used
        invariant reader.Unread() == bits[used..]
        invariant Shifted(Follow(tree, idx, bits[used..]), used) == Follow(tree, node, bits)
        decreases idx
      {
        idx := ReadStep(reader, node, bits, used, idx);
        used := used + 1;
      }
      b := ByteOf(idx);
    }

    /** One pass of `find_leaf_node`'s loop at the inner node `idx`, `used` bits into
        `bits`: one bit is read and the walk moves to the left child on a set bit,
        to the right child otherwise, still on the way `Follow` takes from `node`. */
    method ReadStep(reader: BitReader, ghost node: int, ghost bits: seq<bool>, ghost used: nat, idx: int)
      returns (next: int)
      requires Shaped(tree) && 0 <= idx < |tree| && tree[idx].right != -1
      requires reader.Valid() && used <= |bits| && reader.Unread() == bits[used..]
      requires 0 <= node < |tree| && Follow(tree, node, bits).Some?
      requires Shifted(Follow(tree, idx, bits[used..]), used) == Follow(tree, node, bits)
      modifies reader
      ensures reader.Valid() && reader.Pos() == old(reader.Pos()) + 1
      ensures used < |bits| && reader.Unread() == bits[used + 1..]
      ensures 0 <= next < idx && Shifted(Follow(tree, next, bits[used + 1..]), used + 1) == Follow(tree, node, bits)
    {
      ghost var rest := bits[used..];
      FollowStep(tree, idx, rest, used);
      assert rest[1..] == bits[used + 1..];
      var bit := reader.ReadBit();
      next := if bit then tree[idx].left else tree[idx].right;
    }

    /** `compress_data(data)` (lines 265-275): counts the bytes, builds the tree,
        writes each byte's code and flushes. The result holds the codes
        followed by zeros up to a whole byte. A fresh instance is needed, and
        empty data panics in `build_tree`. */
    method CompressData(data: seq<Byte>) returns (c: seq<bv8>)
      requires tree == Fresh() && |data| > 0
      modifies this
      ensures Startable(Counted(Fresh(), data))
      ensures tree == Built(Counted(Fresh(), data)).0 && root == Built(Counted(Fresh(), data)).1
      ensures BytesBits(c) == Encode(tree, data) + Zeros(Padding(|Encode(tree, data)|))
    {
      CountByteFreq(data);
      CountedStartable(data);
      BuildTree();
      c := WriteData(data);
    }

    /** The writing part of `compress_data` (lines 269-274): the codes of the
        bytes of `data`, in order, padded with zeros to a whole byte. */
    method WriteData(data: seq<Byte>) returns (c: seq<bv8>)
      requires Shaped(tree) && |tree| >= 256
      ensures BytesBits(c) == Encode(tree, data) + Zeros(Padding(|Encode(tree, data)|))
    {
      var writer := new BitWriter();
      WriteCodes(writer, data);
      assert writer.Bits() == Encode(tree, data);
      c := FlushCodes(writer);
    }

    /** The end of `compress_data` (lines 273-274): the last byte is padded with
        zero bits and the bytes written are returned. */
    method FlushCodes(writer: BitWriter) returns (c: seq<bv8>)
      requires writer.Valid()
      modifies writer
      ensures BytesBits(c) == old(writer.Bits()) + Zeros(Padding(|old(writer.Bits())|))
    {
      ghost var e := writer.Bits();
      ghost var pad := if writer.outCount == 0 then 0 else 8 - writer.outCount;
      assert pad == Padding(|e|) by { FlushPadding(writer.buf, writer.outByte, writer.outCount); }
      writer.Flush();
      c := writer.Data();
      assert BytesBits(c) == e + Zeros(pad);
    }

    /** The loop of `compress_data` (lines 270-272): appends the code of each
        byte of `data`, in order. */
    method WriteCodes(writer: BitWriter, data: seq<Byte>)
      requires Shaped(tree) && |tree| >= 256 && writer.Valid()
      modifies writer
      ensures writer.Valid() && writer.Bits() == old(writer.Bits()) + Encode(tree, data)
    {
      ghost var w0 := writer.Bits();
      for i := 0 to |data|
        invariant writer.Valid() && writer.Bits() == w0 + Encode(tree, data[..i])
      {
        TraverseTree(writer, data[i] as int, -1);
        EncodeSnoc(tree, data[..i], data[i]);
        PrefixSnoc(data, i);
        Associative(w0, Encode(tree, data[..i]), Code(tree, data[i] as int));
      }
      assert data[..|data|] == data;
    }

    /** `decompress_data(data, ft)` (lines 277-292): rebuilds the tree from the
        frequency table and decodes as many bytes as the root counts. A fresh
        instance is needed; reading past `data` panics. */
    method DecompressData(data: seq<bv8>, ft: seq<Freq>) returns (out: seq<Byte>)
      requires tree == Fresh() && Startable(Restored(Fresh(), ft))
      requires var t := Built(Restored(Fresh(), ft));
        Decode(t.0, t.1, BytesBits(data), t.0[t.1].count).Some?
      modifies this
      ensures tree == Built(Restored(Fresh(), ft)).0 && root == Built(Restored(Fresh(), ft)).1
      ensures out == Decode(tree, root, BytesBits(data), tree[root].count).value
    {
      RestoreTree(ft);
      var reader := new BitReader(data);
      var r := root;
      var byteCount := tree[r].count;
      out := DecodeBytes(reader, r, byteCount);
    }

    /** The loop of `decompress_data` (lines 284-290): `byteCount` leaves are
        found one after the other from the root. */
    method DecodeBytes(reader: BitReader, r: int, byteCount: nat) returns (out: seq<Byte>)
      requires Shaped(tree) && 0 <= r < |tree| && reader.Valid()
      requires Decode(tree, r, reader.Unread(), byteCount).Some?
      modifies reader
      ensures out == Decode(tree, r, old(reader.Unread()), byteCount).value
    {
      ghost var all := Decode(tree, r, reader.Unread(), byteCount).value;
      ghost var todo, left := all, byteCount;
      out := [];
      var i := 0;
      while i < byteCount
        invariant i <= byteCount && left == byteCount - i && reader.Valid()
        invariant Decode(tree, r, reader.Unread(), left) == Some(todo) && out + todo == all
      {
        ghost var n := left;
        left := left - 1;
        var b;
        b, todo := DecodeNext(reader, r, n, left, todo);
        Associative(out, [b], todo);
        out := out + [b];
        i := i + 1;
      }
    }

    /** One turn of `decompress_data`'s loop (line 287): the leaf reached from
        the root is the first of the bytes still to decode. */
    method DecodeNext(reader: BitReader, r: int, ghost n: nat, ghost m: nat, ghost todo: seq<Byte>)
      returns (b: Byte, ghost rest: seq<Byte>)
      requires Shaped(tree) && 0 <= r < |tree| && reader.Valid() && n == m + 1
      requires Decode(tree, r, reader.Unread(), n) == Some(todo)
      modifies reader
      ensures reader.Valid() && Decode(tree, r, reader.Unread(), m) == Some(rest)
      ensures todo == [b] + rest
    {
      ghost var u := reader.Unread();
      DecodeStep(tree, r, u, n, m);
      ghost var v := Follow(tree, r, u).value;
      rest := Decode(tree, r, u[v.1..], m).value;
      b := FindLeafNode(reader, r);
    }
  }

  /** `queue.dequeue().unwrap()` on a non-empty queue of nodes (lines 192-193
      and 208): the first node of the heap, leaving `Rest` of it. */
  method DequeueUnwrap(queue: PriorityQueue.PriorityQueue<Node>) returns (n: Node)
    requires queue.Valid() && queue.heap.key == Rank && |queue.heap.inner| >= 1
    modifies queue.heap
    ensures queue.Valid() && queue.heap.key == Rank
    ensures n == old(queue.heap.inner)[0] && queue.heap.inner == Rest(old(queue.heap.inner))
  {
    ghost var q := queue.heap.inner;
    assert q[0] in multiset(q);
    var r := queue.Dequeue();
    n := r.value;
  }

  lemma PrefixSnoc(data: seq<Byte>, i: nat)
    requires i < |data|
    ensures data[..i + 1] == data[..i] + [data[i]]
  {
  }

  lemma Associative<T>(a: seq<T>, b: seq<T>, c: seq<T>)
    ensures a + b + c == a + (b + c)
  {
  }

  /** Flushing leaves the written bits followed by `Padding` zeros. */
  lemma FlushPadding(buf: seq<bv8>, x: bv8, c: nat)
    requires c <= 8
    ensures (if c == 0 then 0 else 8 - c) == Padding(|BytesBits(buf) + LowBits(x, c)|)
  {
    assert |BytesBits(buf) + LowBits(x, c)| == 8 * |buf| + c;
  }

  /** Counting non-empty data into a new table leaves a table `build_tree` can
      start from. */
  lemma CountedStartable(data: seq<Byte>)
    requires |data| > 0
    ensures Startable(Counted(Fresh(), data))
  {
    var t := Counted(Fresh(), data);
    CountedPlain(data);
    OccursPositive(data, |data| - 1);
    CountedCounts(Fresh(), data, data[|data| - 1]);
    assert t[data[|data| - 1] as int].count > 0;
  }

  /** A byte at some position occurs. */
  lemma {:induction false} OccursPositive(data: seq<Byte>, k: nat)
    requires k < |data|
    ensures Occurrences(data, data[k]) > 0
    decreases |data|
  {
    if k < |data| - 1 {
      OccursPositive(data[..|data| - 1], k);
    }
  }

  /** The counts of a new table add up to zero. */
  lemma FreshSum()
    ensures Sum(Fresh()) == 0
  {
    var t := Fresh();
    forall m | 0 <= m <= 256 ensures Sum(t[..m]) == 0 {
      FreshPrefixSum(m);
    }
    assert t[..256] == t;
  }

  lemma {:induction false} FreshPrefixSum(m: nat)
    requires m <= 256
    ensures Sum(Fresh()[..m]) == 0
  {
    if m > 0 {
      assert Fresh()[..m][..m - 1] == Fresh()[..m - 1];
      FreshPrefixSum(m - 1);
    }
  }

  /** Two tables that differ only in parents have the same frequency table. */
  lemma {:induction false} TableParents(a: seq<Node>, b: seq<Node>)
    requires |a| == |b| && forall i | 0 <= i < |a| :: a[i] == b[i].(parent := a[i].parent)
    ensures Table(a) == Table(b)
    decreases |a|
  {
    if a != [] {
      TableParents(a[..|a| - 1], b[..|b| - 1]);
    }
  }

  /** The frequency table `compress_data` leaves in its tree gives back, restored
      into a fresh table, the counts it started from. */
  lemma TableRestores(data: seq<Byte>)
    requires Startable(Counted(Fresh(), data))
    ensures Restored(Fresh(), FrequencyTbl(Built(Counted(Fresh(), data)).0)) == Counted(Fresh(), data)
  {
    var t0 := Counted(Fresh(), data);
    var t := Built(t0).0;
    assert FrequencyTbl(t) == Table(t0) by {
      BuiltSound(t0);
      assert |t0| == 256 && Grown(t0, t);
      var p := t[..256];
      assert forall i | 0 <= i < 256 :: p[i] == t0[i].(parent := p[i].parent);
      TableParents(p, t0);
      FrequencyTblPrefix(t);
    }
    assert FrequencyTbl(t0) == Table(t0) by {
      FrequencyTblPrefix(t0);
      assert t0[..256] == t0;
    }
    CountedPlain(data);
    RestoreTable(t0);
  }

  /** Decoding the compressed bits along the tree built from the data's counts,
      for as many symbols as the root counts, gives back the data. */
  lemma EncodedDecodes(data: seq<Byte>, bits: seq<bool>)
    requires Startable(Counted(Fresh(), data))
    requires var t := Built(Counted(Fresh(), data)).0;
      bits == Encode(t, data) + Zeros(Padding(|Encode(t, data)|))
    ensures var b := Built(Counted(Fresh(), data));
      0 <= b.1 < |b.0| && Decode(b.0, b.1, bits, b.0[b.1].count) == Some(data)
  {
    var t0 := Counted(Fresh(), data);
    var t, r := Built(t0).0, Built(t0).1;
    BuiltSound(t0);
    CountedSum(Fresh(), data);
    FreshSum();
    assert t[r].count == |data|;
    forall k | 0 <= k < |data| ensures t[data[k] as int].right == -1 && Top(t, data[k] as int) == r {
      OccursPositive(data, k);
      CountedCounts(Fresh(), data, data[k]);
    }
    DecodeEncode(t, r, data, Zeros(Padding(|Encode(t, data)|)));
  }

  /** `test_huffman` (lines 332-344): compressing with one fresh instance, then
      decompressing with another from the first one's frequency table, gives
      back the data. */
  method RoundTrip(data: seq<Byte>) returns (out: seq<Byte>)
    requires |data| > 0
    ensures out == data
  {
    var h1 := new Huffman();
    var c := h1.CompressData(data);
    var ft := FrequencyTbl(h1.tree);
    TableRestores(data);
    EncodedDecodes(data, BytesBits(c));
    var h2 := new Huffman();
    out := h2.DecompressData(c, ft);
  }
}

/**
 * trie: a character trie whose nodes live in an arena (a slab keyed by node id).
 * Each node knows its parent, its children by character, the character on the
 * edge from its parent, and whether a stored word ends at it. The ghost map
 * `path` gives every node the string spelled by the path from the root to it;
 * the stored words are the labels of the terminal nodes.
 */
module Trie {
  import opened Wrappers

  /** `Node`: parent id, children by character, word-end flag, edge character. */
  datatype Node = Node(parent: Option<nat>, children: map<char, nat>, terminal: bool, value: Option<char>)

  /** `is_leaf`: no children. */
  predicate IsLeaf(n: Node)
  {
    n.children == map[]
  }

  /** Node `y` (not the root) is the child of its parent under its own character,
      and its path extends the parent's by that character. */
  ghost predicate UpLink(nodes: map<nat, Node>, path: map<nat, string>, y: nat)
    requires y in nodes && nodes.Keys == path.Keys
  {
    nodes[y].parent.Some? && nodes[y].value.Some? &&
    var p, c := nodes[y].parent.value, nodes[y].value.value;
    p in nodes && c in nodes[p].children && nodes[p].children[c] == y &&
    path[y] == path[p] + [c]
  }

  /** The child of `x` under `c` is a node whose parent is `x` and whose character
      is `c`. */
  ghost predicate DownLink(nodes: map<nat, Node>, x: nat, c: char)
    requires x in nodes && c in nodes[x].children
  {
    var y := nodes[x].children[c];
    y in nodes && nodes[y].parent == Some(x) && nodes[y].value == Some(c)
  }

  /** The arena forms a tree under `root` whose labels are the root-to-node paths:
      parent and child links agree, the root has no parent and the empty path,
      and no two nodes share a path. */
  ghost predicate Linked(nodes: map<nat, Node>, path: map<nat, string>, root: nat)
  {
    root in nodes && nodes.Keys == path.Keys &&
    nodes[root].parent.None? && path[root] == [] &&
    (forall y {:trigger UpLink(nodes, path, y)} :: y in nodes && y != root ==> UpLink(nodes, path, y)) &&
    (forall x, c {:trigger DownLink(nodes, x, c)} :: x in nodes && c in nodes[x].children ==> DownLink(nodes, x, c)) &&
    (forall x, y {:trigger Twins(path, x, y)} :: Twins(path, x, y) ==> x == y)
  }

  /** Nodes `x` and `y` have the same path. */
  ghost predicate Twins(path: map<nat, string>, x: nat, y: nat)
  {
    x in path && y in path && path[x] == path[y]
  }

  /** Every id is below the next fresh id and every path fits within `height`. */
  ghost predicate Bounded(nodes: map<nat, Node>, path: map<nat, string>, nextKey: nat, height: nat)
    requires nodes.Keys == path.Keys
  {
    forall x :: x in nodes ==> x < nextKey && |path[x]| <= height
  }

  /** The stored words: the labels of the terminal nodes. */
  ghost function WordSet(nodes: map<nat, Node>, path: map<nat, string>): set<string>
    requires nodes.Keys == path.Keys
  {
    set y | y in nodes && nodes[y].terminal :: path[y]
  }

  /** The stored words at or below `x`. */
  ghost function Sub(nodes: map<nat, Node>, path: map<nat, string>, x: nat): set<string>
    requires nodes.Keys == path.Keys && x in nodes
  {
    set y | y in nodes && nodes[y].terminal && path[x] <= path[y] :: path[y]
  }

  /** The stored words strictly below `x` whose next character is in `keys`. */
  ghost function SubKeys(nodes: map<nat, Node>, path: map<nat, string>, x: nat, keys: set<char>): set<string>
    requires nodes.Keys == path.Keys && x in nodes
  {
    set y | y in nodes && nodes[y].terminal && path[x] < path[y] && path[y][|path[x]|] in keys :: path[y]
  }

  /** The word ending at `x`, if any. */
  ghost function Here(nodes: map<nat, Node>, path: map<nat, string>, x: nat): set<string>
    requires nodes.Keys == path.Keys && x in nodes
  {
    if nodes[x].terminal then {path[x]} else {}
  }

  /** The strings a list holds. */
  ghost function Listed(s: seq<string>): set<string>
  {
    set w | w in s
  }

  ghost predicate NoDuplicates(s: seq<string>)
  {
    forall i, j :: 0 <= i < j < |s| ==> s[i] != s[j]
  }

  /** Every prefix of a path is a path: the path to a node passes through nodes. */
  lemma {:induction false} Ancestor(nodes: map<nat, Node>, path: map<nat, string>, root: nat, y: nat, k: nat)
    requires Linked(nodes, path, root) && y in nodes && k <= |path[y]|
    ensures path[y][..k] in path.Values
    decreases |path[y]|
  {
    if k == |path[y]| {
      assert path[y][..k] == path[y];
    } else {
      assert y != root;
      assert UpLink(nodes, path, y);
      var p := nodes[y].parent.value;
      assert path[y] == path[p] + [nodes[y].value.value];
      Ancestor(nodes, path, root, p, k);
      assert path[p][..k] == path[y][..k];
    }
  }

  /** A path strictly below `x` continues through the child of `x` under its next
      character. */
  lemma Descend(nodes: map<nat, Node>, path: map<nat, string>, root: nat, x: nat, y: nat)
    requires Linked(nodes, path, root) && x in nodes && y in nodes && path[x] < path[y]
    ensures var c := path[y][|path[x]|];
      c in nodes[x].children && nodes[x].children[c] in nodes &&
      path[nodes[x].children[c]] == path[x] + [c] && path[x] + [c] <= path[y]
  {
    var n := |path[x]|;
    var c := path[y][n];
    Ancestor(nodes, path, root, y, n + 1);
    var z :| z in path && path[z] == path[y][..n + 1];
    assert z != root by {
      assert |path[z]| == n + 1;
    }
    assert UpLink(nodes, path, z);
    var p := nodes[z].parent.value;
    assert path[p] + [nodes[z].value.value] == path[y][..n + 1];
    assert path[p] == path[y][..n] == path[x];
    assert Twins(path, p, x);
    assert path[x] + [c] == path[y][..n + 1];
  }

  /** A path that stops at a missing child is no node's path. */
  lemma MissingChild(nodes: map<nat, Node>, path: map<nat, string>, root: nat, x: nat, w: string, i: nat)
    requires Linked(nodes, path, root) && x in nodes && i < |w| && path[x] == w[..i]
    requires w[i] !in nodes[x].children
    ensures w !in path.Values
  {
    if w in path.Values {
      var y :| y in path && path[y] == w;
      assert path[x] < path[y];
      Descend(nodes, path, root, x, y);
    }
  }

  /** The words at or below `x`: the one ending at `x` and those under its children. */
  lemma SubSplit(nodes: map<nat, Node>, path: map<nat, string>, root: nat, x: nat)
    requires Linked(nodes, path, root) && x in nodes
    ensures Sub(nodes, path, x) == Here(nodes, path, x) + SubKeys(nodes, path, x, nodes[x].children.Keys)
  {
    forall w | w in Sub(nodes, path, x)
      ensures w in Here(nodes, path, x) + SubKeys(nodes, path, x, nodes[x].children.Keys)
    {
      var y :| y in nodes && nodes[y].terminal && path[x] <= path[y] && path[y] == w;
      if path[x] == path[y] {
        assert Twins(path, x, y);
      } else {
        Descend(nodes, path, root, x, y);
      }
    }
  }

  /** Adding a character to the processed keys adds the words under that child. */
  lemma SubKeysAdd(nodes: map<nat, Node>, path: map<nat, string>, root: nat, x: nat, done: set<char>, k: char)
    requires Linked(nodes, path, root) && x in nodes && k in nodes[x].children
    ensures nodes[x].children[k] in nodes
    ensures SubKeys(nodes, path, x, done + {k}) ==
      SubKeys(nodes, path, x, done) + Sub(nodes, path, nodes[x].children[k])
  {
    var child := nodes[x].children[k];
    assert DownLink(nodes, x, k);
    assert child != root;
    assert UpLink(nodes, path, child);
    assert path[child] == path[x] + [k];
    forall w | w in SubKeys(nodes, path, x, done + {k})
      ensures w in SubKeys(nodes, path, x, done) + Sub(nodes, path, child)
    {
      var y :| y in nodes && nodes[y].terminal && path[x] < path[y] && path[y][|path[x]|] in done + {k} && path[y] == w;
      if path[y][|path[x]|] == k {
        Descend(nodes, path, root, x, y);
      }
    }
    forall w | w in Sub(nodes, path, child)
      ensures w in SubKeys(nodes, path, x, done + {k})
    {
      var y :| y in nodes && nodes[y].terminal && path[child] <= path[y] && path[y] == w;
      assert path[y][|path[x]|] == k;
    }
  }

  /** A word at or below a child of `x` is longer than the path of `x` and is not
      among the words under other children. */
  lemma ChildSubDisjoint(nodes: map<nat, Node>, path: map<nat, string>, root: nat, x: nat, done: set<char>, k: char)
    requires Linked(nodes, path, root) && x in nodes && k in nodes[x].children && k !in done
    ensures nodes[x].children[k] in nodes
    ensures var s := Sub(nodes, path, nodes[x].children[k]);
      s !! Here(nodes, path, x) && s !! SubKeys(nodes, path, x, done) && s <= Sub(nodes, path, x)
  {
    var child := nodes[x].children[k];
    assert DownLink(nodes, x, k);
    assert child != root;
    assert UpLink(nodes, path, child);
    assert path[child] == path[x] + [k];
    SubKeysAdd(nodes, path, root, x, done, k);
    SubSplit(nodes, path, root, x);
    forall w | w in Sub(nodes, path, child)
      ensures w !in Here(nodes, path, x) && w !in SubKeys(nodes, path, x, done)
    {
      var y :| y in nodes && nodes[y].terminal && path[child] <= path[y] && path[y] == w;
      assert w[|path[x]|] == k;
    }
  }

  /** Before the words under the child `k` of `x` are appended to a list holding
      `acc`, the word at `x` and the words under the children in `done`: the child's
      path extends that of `x` by `k`, its words are not yet listed, and listing
      them accounts for `k`. */
  lemma SubtrieStep(nodes: map<nat, Node>, path: map<nat, string>, root: nat, x: nat,
                    done: set<char>, k: char, acc: seq<string>, r: seq<string>)
    requires Linked(nodes, path, root) && x in nodes && k in nodes[x].children && k !in done
    requires Listed(acc) !! Sub(nodes, path, x)
    requires Listed(r) == Listed(acc) + Here(nodes, path, x) + SubKeys(nodes, path, x, done)
    ensures var child := nodes[x].children[k];
      child in nodes && path[child] == path[x] + [k] &&
      Listed(r) !! Sub(nodes, path, child) &&
      Listed(r) + Sub(nodes, path, child) ==
        Listed(acc) + Here(nodes, path, x) + SubKeys(nodes, path, x, done + {k})
  {
    var child := nodes[x].children[k];
    assert DownLink(nodes, x, k);
    assert child != root && UpLink(nodes, path, child);
    ChildSubDisjoint(nodes, path, root, x, done, k);
    SubKeysAdd(nodes, path, root, x, done, k);
  }

  /** Moving one key from the pending keys to the processed ones. */
  lemma MoveKey(keys: set<char>, done: set<char>, all: set<char>, k: char)
    requires keys + done == all && keys !! done && k in keys
    ensures (keys - {k}) + (done + {k}) == all && (keys - {k}) !! (done + {k})
    ensures |keys - {k}| < |keys|
  {
  }

  /** A list without duplicates holds as many strings as it is long. */
  lemma {:induction false} ListedCount(s: seq<string>)
    requires NoDuplicates(s)
    ensures |Listed(s)| == |s|
  {
    if s != [] {
      var t := s[..|s| - 1];
      assert NoDuplicates(t);
      ListedCount(t);
      assert Listed(s) == Listed(t) + {s[|s| - 1]};
      assert s[|s| - 1] !in Listed(t);
    }
  }

  /** The words below the root are all the stored words. */
  lemma SubRoot(nodes: map<nat, Node>, path: map<nat, string>, root: nat)
    requires Linked(nodes, path, root)
    ensures Sub(nodes, path, root) == WordSet(nodes, path)
  {
    forall w | w in WordSet(nodes, path)
      ensures w in Sub(nodes, path, root)
    {
      var y :| y in nodes && nodes[y].terminal && path[y] == w;
      assert path[root] <= path[y];
    }
  }

  /** The words below the node labelled `p` are the stored words starting with `p`. */
  lemma SubPrefix(nodes: map<nat, Node>, path: map<nat, string>, root: nat, x: nat)
    requires Linked(nodes, path, root) && x in nodes
    ensures Sub(nodes, path, x) == set w | w in WordSet(nodes, path) && path[x] <= w
  {
  }

  /** No node's path starts with a string that is no path. */
  lemma NoPrefix(nodes: map<nat, Node>, path: map<nat, string>, root: nat, p: string)
    requires Linked(nodes, path, root) && p !in path.Values
    ensures (set w | w in WordSet(nodes, path) && p <= w) == {}
  {
    forall w | w in WordSet(nodes, path) && p <= w
      ensures false
    {
      var y :| y in nodes && nodes[y].terminal && path[y] == w;
      assert path[y][..|p|] == p;
      Ancestor(nodes, path, root, y, |p|);
    }
  }

  /** At a node labelled `w`, `w` is stored exactly when the node is terminal. */
  lemma WordAt(nodes: map<nat, Node>, path: map<nat, string>, root: nat, x: nat)
    requires Linked(nodes, path, root) && x in nodes
    ensures path[x] in WordSet(nodes, path) <==> nodes[x].terminal
  {
    if path[x] in WordSet(nodes, path) {
      var y :| y in nodes && nodes[y].terminal && path[y] == path[x];
      assert Twins(path, x, y);
    }
  }

  /** The arena after `x` gains the child `k` under `c`, with `k` linked back to `x`. */
  function Grafted(nodes: map<nat, Node>, x: nat, c: char, k: nat): map<nat, Node>
    requires x in nodes
  {
    nodes[x := nodes[x].(children := nodes[x].children[c := k])][k := Node(Some(x), map[], false, Some(c))]
  }

  /** Grafting a fresh child keeps every node linked to its parent. */
  lemma GraftUp(nodes: map<nat, Node>, path: map<nat, string>, root: nat, x: nat, c: char, k: nat)
    requires Linked(nodes, path, root) && x in nodes && c !in nodes[x].children && k !in nodes
    ensures var ns, ls := Grafted(nodes, x, c, k), path[k := path[x] + [c]];
      ns.Keys == ls.Keys && forall y :: y in ns && y != root ==> UpLink(ns, ls, y)
  {
    var ns, ls := Grafted(nodes, x, c, k), path[k := path[x] + [c]];
    assert ns.Keys == ls.Keys;
    forall y | y in ns && y != root
      ensures UpLink(ns, ls, y)
    {
      if y != k {
        assert UpLink(nodes, path, y);
      }
    }
  }

  /** Grafting a fresh child keeps every node linked to its children. */
  lemma GraftDown(nodes: map<nat, Node>, path: map<nat, string>, root: nat, x: nat, c: char, k: nat)
    requires Linked(nodes, path, root) && x in nodes && c !in nodes[x].children && k !in nodes
    ensures var ns := Grafted(nodes, x, c, k);
      forall y, d :: y in ns && d in ns[y].children ==> DownLink(ns, y, d)
  {
    var ns := Grafted(nodes, x, c, k);
    forall y, d | y in ns && d in ns[y].children
      ensures DownLink(ns, y, d)
    {
      if y != x && y != k {
        assert DownLink(nodes, y, d);
      } else if y == x && d != c {
        assert DownLink(nodes, y, d);
      }
    }
  }

  /** Grafting a fresh child under a missing character keeps paths unique. */
  lemma GraftTwins(nodes: map<nat, Node>, path: map<nat, string>, root: nat, x: nat, c: char, k: nat)
    requires Linked(nodes, path, root) && x in nodes && c !in nodes[x].children && k !in nodes
    ensures var ls := path[k := path[x] + [c]];
      forall y, z :: Twins(ls, y, z) ==> y == z
  {
    var ls := path[k := path[x] + [c]];
    forall y, z | Twins(ls, y, z)
      ensures y == z
    {
      if y == k && z != k {
        MissingChild(nodes, path, root, x, ls[k], |path[x]|);
      } else if z == k && y != k {
        MissingChild(nodes, path, root, x, ls[k], |path[x]|);
      } else if y != k && z != k {
        assert Twins(path, y, z);
      }
    }
  }

  /** Grafting a fresh child keeps the tree linked. */
  lemma GraftLinked(nodes: map<nat, Node>, path: map<nat, string>, root: nat, x: nat, c: char, k: nat)
    requires Linked(nodes, path, root) && x in nodes && c !in nodes[x].children && k !in nodes
    ensures Linked(Grafted(nodes, x, c, k), path[k := path[x] + [c]], root)
  {
    GraftUp(nodes, path, root, x, c, k);
    GraftDown(nodes, path, root, x, c, k);
    GraftTwins(nodes, path, root, x, c, k);
  }

  /** Grafting a non-terminal child leaves the stored words as they are. */
  lemma GraftWords(nodes: map<nat, Node>, path: map<nat, string>, x: nat, c: char, k: nat)
    requires nodes.Keys == path.Keys && x in nodes && k !in nodes
    ensures WordSet(Grafted(nodes, x, c, k), path[k := path[x] + [c]]) == WordSet(nodes, path)
  {
    var ns, ls := Grafted(nodes, x, c, k), path[k := path[x] + [c]];
    forall w | w in WordSet(nodes, path)
      ensures w in WordSet(ns, ls)
    {
      var y :| y in nodes && nodes[y].terminal && path[y] == w;
      assert y != k && ns[y].terminal && ls[y] == w;
    }
    forall w | w in WordSet(ns, ls)
      ensures w in WordSet(nodes, path)
    {
      var y :| y in ns && ns[y].terminal && ls[y] == w;
      assert y != k && nodes[y].terminal && path[y] == w;
    }
  }

  /** Changing a word-end flag keeps the tree linked. */
  lemma MarkLinked(nodes: map<nat, Node>, path: map<nat, string>, root: nat, x: nat, b: bool)
    requires Linked(nodes, path, root) && x in nodes
    ensures Linked(nodes[x := nodes[x].(terminal := b)], path, root)
  {
    var ns := nodes[x := nodes[x].(terminal := b)];
    forall y | y in ns && y != root
      ensures UpLink(ns, path, y)
    {
      assert UpLink(nodes, path, y);
    }
    forall y, d | y in ns && d in ns[y].children
      ensures DownLink(ns, y, d)
    {
      assert DownLink(nodes, y, d);
    }
  }

  /** Setting or clearing the word-end flag of `x` adds or removes its path. */
  lemma MarkWords(nodes: map<nat, Node>, path: map<nat, string>, root: nat, x: nat, b: bool)
    requires Linked(nodes, path, root) && x in nodes
    ensures WordSet(nodes[x := nodes[x].(terminal := b)], path) ==
      if b then WordSet(nodes, path) + {path[x]} else WordSet(nodes, path) - {path[x]}
  {
    var ns := nodes[x := nodes[x].(terminal := b)];
    var old_, new_ := WordSet(nodes, path), WordSet(ns, path);
    forall w | w in old_ && w != path[x]
      ensures w in new_
    {
      var y :| y in nodes && nodes[y].terminal && path[y] == w;
      assert y != x && ns[y].terminal;
    }
    forall w | w in new_ && w != path[x]
      ensures w in old_
    {
      var y :| y in ns && ns[y].terminal && path[y] == w;
      assert y != x && nodes[y].terminal;
    }
    if b {
      assert path[x] in new_;
    } else {
      forall y | y in ns && ns[y].terminal
        ensures path[y] != path[x]
      {
        assert y != x && (Twins(path, x, y) ==> x == y);
      }
    }
  }

  /** The arena after the leaf `y` is unhooked from its parent and removed. */
  function Pruned(nodes: map<nat, Node>, p: nat, c: char, y: nat): map<nat, Node>
    requires p in nodes
  {
    nodes[p := nodes[p].(children := nodes[p].children - {c})] - {y}
  }

  /** Removing a leaf other than the root keeps the tree linked. */
  lemma PruneLinked(nodes: map<nat, Node>, path: map<nat, string>, root: nat, y: nat)
    requires Linked(nodes, path, root) && y in nodes && y != root && IsLeaf(nodes[y])
    ensures UpLink(nodes, path, y)
    ensures Linked(Pruned(nodes, nodes[y].parent.value, nodes[y].value.value, y), path - {y}, root)
  {
    assert UpLink(nodes, path, y);
    var p, c := nodes[y].parent.value, nodes[y].value.value;
    var ns, ls := Pruned(nodes, p, c, y), path - {y};
    assert ns.Keys == ls.Keys;
    forall z | z in ns && z != root
      ensures UpLink(ns, ls, z)
    {
      assert UpLink(nodes, path, z);
      var q, d := nodes[z].parent.value, nodes[z].value.value;
      assert q != y by {
        assert d in nodes[q].children;
      }
      assert nodes[p].children[c] == y && nodes[q].children[d] == z;
    }
    forall a, b | Twins(ls, a, b)
      ensures a == b
    {
      assert Twins(path, a, b);
    }
    forall x, d | x in ns && d in ns[x].children
      ensures DownLink(ns, x, d)
    {
      assert DownLink(nodes, x, d);
      var z := nodes[x].children[d];
      assert z == y ==> x == p && d == c;
    }
  }

  /** Removing a node removes its path from the stored words when it ends one. */
  lemma PruneWords(nodes: map<nat, Node>, path: map<nat, string>, root: nat, p: nat, c: char, y: nat)
    requires Linked(nodes, path, root) && y in nodes && p in nodes && p != y
    ensures WordSet(Pruned(nodes, p, c, y), path - {y}) ==
      if nodes[y].terminal then WordSet(nodes, path) - {path[y]} else WordSet(nodes, path)
  {
    var ns, ls := Pruned(nodes, p, c, y), path - {y};
    var old_, new_ := WordSet(nodes, path), WordSet(ns, ls);
    forall w | w in old_ && w != path[y]
      ensures w in new_
    {
      var z :| z in nodes && nodes[z].terminal && path[z] == w;
      assert z != y && z in ns && ns[z].terminal && ls[z] == w;
    }
    forall z | z in ns && ns[z].terminal
      ensures ls[z] in old_ && ls[z] != path[y]
    {
      assert nodes[z].terminal && ls[z] == path[z];
      assert z != y && (Twins(path, z, y) ==> z == y);
    }
    if !nodes[y].terminal {
      forall z | z in nodes && nodes[z].terminal
        ensures path[z] != path[y]
      {
        assert z != y && (Twins(path, z, y) ==> z == y);
      }
    }
  }

  /**
   * The nodes `delete_node` removes when it starts at the leaf `x`: nothing at the
   * root; otherwise `x` itself and, when its parent ends no word and has `x` as its
   * only child (so is left a childless leaf), the nodes removed from the parent on.
   */
  ghost function PruneChain(nodes: map<nat, Node>, path: map<nat, string>, root: nat, x: nat): set<nat>
    decreases if x in path then |path[x]| else 0
  {
    if x == root || x !in nodes || x !in path || nodes[x].parent.None? || nodes[x].value.None? then {}
    else
      var p, c := nodes[x].parent.value, nodes[x].value.value;
      if p in nodes && p in path && |path[p]| < |path[x]| && !nodes[p].terminal && nodes[p].children.Keys == {c}
      then {x} + PruneChain(nodes, path, root, p)
      else {x}
  }

  /** The pruned nodes are `x` (unless it is the root) and ancestors of `x` that end
      no word and have a single child; the root is never removed. */
  lemma {:induction false} PruneChainAncestors(nodes: map<nat, Node>, path: map<nat, string>, root: nat, x: nat)
    requires Linked(nodes, path, root) && x in nodes
    ensures var r := PruneChain(nodes, path, root, x);
      r <= nodes.Keys && root !in r && (x != root ==> x in r) &&
      forall y :: y in r ==> path[y] <= path[x] && (y != x ==> !nodes[y].terminal && |nodes[y].children| == 1)
    decreases |path[x]|
  {
    if x != root {
      assert UpLink(nodes, path, x);
      var p, c := nodes[x].parent.value, nodes[x].value.value;
      if !nodes[p].terminal && nodes[p].children.Keys == {c} {
        PruneChainAncestors(nodes, path, root, p);
        assert |nodes[p].children.Keys| == 1;
      }
    }
  }

  /** `cur` is the arena `n0` without the nodes in `removed` and with the children of
      `last` (at most) changed. */
  ghost predicate PrunedFrom(n0: map<nat, Node>, cur: map<nat, Node>, removed: set<nat>, last: nat)
  {
    last in n0 && last in cur && last !in removed &&
    cur == (n0 - removed)[last := n0[last].(children := cur[last].children)]
  }

  /** `delete_node` from `node` has so far removed `removed`, leaving `cur` with its
      cursor at `last`: the chain from `node` is what was removed plus, while the
      loop goes on from `last`, the chain from `last`. */
  ghost predicate Pruning(n0: map<nat, Node>, path: map<nat, string>, root: nat, node: nat,
                          cur: map<nat, Node>, removed: set<nat>, last: nat)
  {
    node in n0 && PrunedFrom(n0, cur, removed, last) && cur.Keys == n0.Keys - removed &&
    (IsLeaf(n0[node]) ==>
      PruneChain(n0, path, root, node) ==
      removed + if IsLeaf(cur[last]) && (last == node || !cur[last].terminal) then PruneChain(n0, path, root, last) else {})
  }

  /** A map is empty exactly when it has no keys. */
  lemma NoKeys<K, V>(m: map<K, V>)
    ensures m == map[] <==> m.Keys == {}
  {
    var e: map<K, V> := map[];
    if m.Keys == {} {
      assert m.Keys == e.Keys;
    }
  }

  /** One pass of `delete_node`'s loop from the leaf `last` with a parent: the leaf
      joins the removed nodes and the cursor moves to the parent. */
  lemma PruningStep(n0: map<nat, Node>, path: map<nat, string>, root: nat, node: nat,
                    cur: map<nat, Node>, removed: set<nat>, last: nat)
    requires Linked(n0, path, root) && Pruning(n0, path, root, node, cur, removed, last)
    requires IsLeaf(cur[last]) && (last == node || !cur[last].terminal) && last != root
    requires n0[last].parent.Some? && n0[last].value.Some? && n0[last].parent.value in cur
    ensures var p, c := n0[last].parent.value, n0[last].value.value;
      Pruning(n0, path, root, node, Pruned(cur, p, c, last), removed + {last}, p)
  {
    assert UpLink(n0, path, last);
    var p, c := n0[last].parent.value, n0[last].value.value;
    assert p != last && cur[p] == n0[p] && c in n0[p].children;
    var next := Pruned(cur, p, c, last);
    assert next[p].children == n0[p].children - {c};
    assert IsLeaf(next[p]) <==> n0[p].children.Keys == {c} by {
      assert next[p].children.Keys == n0[p].children.Keys - {c};
      NoKeys(next[p].children);
    }
    assert next.Keys == n0.Keys - (removed + {last});
    assert next == (n0 - (removed + {last}))[p := n0[p].(children := next[p].children)];
  }

  /**
   * One pass of `delete_node`'s loop body as written: a node with a parent is
   * unhooked and removed and the walk moves to the parent (ending if the parent
   * is terminal); a node without a parent is left as it is. Returns the arena,
   * the new cursor, and whether the body broke out of the loop.
   */
  function DeleteBodyAsWritten(nodes: map<nat, Node>, last: nat): (r: (map<nat, Node>, nat, bool))
    requires last in nodes
    requires nodes[last].parent.Some? ==> nodes[last].value.Some? && nodes[last].parent.value in nodes
  {
    match nodes[last].parent
    case Some(p) =>
      var ns := Pruned(nodes, p, nodes[last].value.value, last);
      (ns, p, p in ns && ns[p].terminal)
    case None => (nodes, last, false)
  }

  /** As written, `delete_node` never ends once its cursor is a parentless leaf (the
      root after the last word is removed): the body leaves the state as it is, does
      not break, and the loop condition still holds. */
  lemma DeleteSpinsAtRoot(nodes: map<nat, Node>, last: nat)
    requires last in nodes && nodes[last].parent.None? && IsLeaf(nodes[last])
    ensures DeleteBodyAsWritten(nodes, last) == (nodes, last, false)
    ensures var r := DeleteBodyAsWritten(nodes, last); r.1 in r.0 && IsLeaf(r.0[r.1]) && !r.2
  {
  }

  /** The arena of a trie holding only the word "a": root 0 with child 1. */
  function OneWordArena(): map<nat, Node>
  {
    map[0 := Node(None, map['a' := 1], false, None), 1 := Node(Some(0), map[], true, Some('a'))]
  }

  /** Removing "a" from the one-word trie as written: the first pass removes node 1
      and moves to the root without breaking; from then on every pass is a no-op, so
      `remove("a")` never returns. */
  lemma RemoveOnlyWordSpins()
    ensures var r := DeleteBodyAsWritten(OneWordArena(), 1);
      r.1 == 0 && !r.2 && r.0 == map[0 := Node(None, map[], false, None)] &&
      DeleteBodyAsWritten(r.0, r.1) == r
  {
    var m := OneWordArena();
    var ns := Pruned(m, 0, 'a', 1);
    assert ns == map[0 := Node(None, map[], false, None)] by {
      assert m[0].children - {'a'} == map[];
      assert ns.Keys == {0};
    }
  }

  /** `Trie`: the word counter, the root id, the arena and its next fresh id, with
      the ghost path labels and a bound on their lengths. */
  class Trie {
    var wordCnt: nat
    var root: nat
    var nodes: map<nat, Node>
    var nextKey: nat
    ghost var path: map<nat, string>
    ghost var height: nat

    ghost predicate Valid()
      reads this
    {
      Linked(nodes, path, root) && Bounded(nodes, path, nextKey, height)
    }

    /** The stored words. */
    ghost function Words(): (r: set<string>)
      reads this
      requires Valid()
      ensures r <= path.Values
    {
      WordSet(nodes, path)
    }

    /** `words_count`: the number of insertions minus the number of removals. */
    function WordsCount(): nat
      reads this
    {
      wordCnt
    }

    /** `is_empty`: the count is zero. */
    predicate IsEmpty()
      reads this
      ensures IsEmpty() <==> WordsCount() == 0
    {
      wordCnt == 0
    }

    /** `new`: an arena holding only the root, no words, a zero count. */
    constructor ()
      ensures Valid() && Words() == {} && wordCnt == 0
      ensures nodes.Keys == {root} && IsLeaf(nodes[root])
    {
      wordCnt := 0;
      root := 0;
      nodes := map[];
      nextKey := 0;
      path := map[];
      height := 0;
      new;
      root := AppendNode(None);
      path := map[root := []];
    }

    /** `Arena::append_node`: a parentless, childless, non-terminal node with the given
        character under the next fresh id. */
    method AppendNode(data: Option<char>) returns (id: nat)
      modifies this
      ensures root == old(root) && wordCnt == old(wordCnt) && path == old(path) && height == old(height)
      ensures id == old(nextKey) && nextKey == id + 1
      ensures nodes == old(nodes)[id := Node(None, map[], false, data)]
    {
      id := nextKey;
      nodes := nodes[id := Node(None, map[], false, data)];
      nextKey := nextKey + 1;
    }

    /** `NodeId::add`: with no child of `x` under `value`, a new node is appended and
        becomes that child, and its id is returned; otherwise nothing changes and the
        result is `None`. */
    method Add(x: nat, value: char) returns (r: Option<nat>)
      modifies this
      requires x in nodes
      ensures root == old(root) && wordCnt == old(wordCnt) && path == old(path) && height == old(height)
      ensures value in old(nodes[x].children) ==> r == None && nodes == old(nodes) && nextKey == old(nextKey)
      ensures value !in old(nodes[x].children) ==>
        var k := old(nextKey);
        var appended := old(nodes)[k := Node(None, map[], false, Some(value))];
        r == Some(k) && nextKey == k + 1 &&
        nodes == appended[x := appended[x].(children := appended[x].children[value := k])]
    {
      if value !in nodes[x].children {
        var idx := AppendNode(Some(value));
        nodes := nodes[x := nodes[x].(children := nodes[x].children[value := idx])];
        r := Some(idx);
      } else {
        r := None;
      }
    }

    /** `insert`: walks the word's characters from the root, creating each missing
        child and linking it to its parent, then marks the last node terminal. The
        word becomes stored, no other word changes, and the count grows by one even
        when the word was already stored. */
    method Insert(word: string)
      modifies this
      requires Valid()
      ensures Valid() && root == old(root)
      ensures Words() == old(Words()) + {word} && wordCnt == old(wordCnt) + 1
    {
      height := if |word| > height then |word| else height;
      var cur := root;
      var i := 0;
      while i < |word|
        invariant i <= |word| && Valid() && root == old(root) && wordCnt == old(wordCnt)
        invariant |word| <= height && cur in nodes && path[cur] == word[..i]
        invariant Words() == old(Words())
      {
        var c := word[i];
        if c in nodes[cur].children {
          var next := nodes[cur].children[c];
          assert DownLink(nodes, cur, c);
          assert next != root && UpLink(nodes, path, next);
          cur := next;
        } else {
          cur := NewChild(cur, c);
        }
        assert word[..i + 1] == word[..i] + [c];
        i := i + 1;
      }
      assert word[..i] == word;
      SetTerminal(cur, true);
      wordCnt := wordCnt + 1;
    }

    /** The missing-child branch of `insert`'s loop: `add` appends the child and the
        child's parent is set, so `x` gains a non-terminal child under `c` whose path
        extends that of `x` by `c`; the stored words stay as they are. */
    method NewChild(x: nat, c: char) returns (k: nat)
      modifies this
      requires Valid() && x in nodes && c !in nodes[x].children && |path[x]| < height
      ensures Valid() && root == old(root) && wordCnt == old(wordCnt) && height == old(height)
      ensures k in nodes && path[k] == old(path[x]) + [c] && Words() == old(Words())
    {
      ghost var before := nodes;
      var child := Add(x, c);
      k := child.value;
      nodes := nodes[k := nodes[k].(parent := Some(x))];
      assert nodes == Grafted(before, x, c, k);
      GraftLinked(before, path, root, x, c, k);
      GraftWords(before, path, x, c, k);
      path := path[k := path[x] + [c]];
    }

    /** `contains`: walks the word from the root; a missing child gives false, and
        otherwise the answer is whether the last node is terminal, so a stored
        word's proper prefix that was never inserted is not contained. */
    method Contains(word: string) returns (r: bool)
      requires Valid()
      ensures r <==> word in Words()
    {
      var cur := root;
      var i := 0;
      while i < |word|
        invariant i <= |word| && cur in nodes && path[cur] == word[..i]
      {
        var c := word[i];
        if c in nodes[cur].children {
          var next := nodes[cur].children[c];
          assert DownLink(nodes, cur, c);
          assert next != root && UpLink(nodes, path, next);
          cur := next;
        } else {
          MissingChild(nodes, path, root, cur, word, i);
          return false;
        }
        assert word[..i + 1] == word[..i] + [c];
        i := i + 1;
      }
      assert word[..i] == word;
      WordAt(nodes, path, root, cur);
      r := nodes[cur].terminal;
    }

    /** `find_last_node`: the node reached by walking the word, if every step has a
        child: exactly when the word is some node's path. */
    method FindLastNode(word: string) returns (r: Option<nat>)
      requires Valid()
      ensures r.Some? <==> word in path.Values
      ensures r.Some? ==> r.value in nodes && path[r.value] == word
    {
      var cur := root;
      var i := 0;
      while i < |word|
        invariant i <= |word| && cur in nodes && path[cur] == word[..i]
      {
        var c := word[i];
        if c in nodes[cur].children {
          var next := nodes[cur].children[c];
          assert DownLink(nodes, cur, c);
          assert next != root && UpLink(nodes, path, next);
          cur := next;
        } else {
          MissingChild(nodes, path, root, cur, word, i);
          return None;
        }
        assert word[..i + 1] == word[..i] + [c];
        i := i + 1;
      }
      assert word[..i] == word;
      r := Some(cur);
    }

    /** `delete_node`, with the loop also ending at a node that has no parent (whose
        word-end flag it clears): from a leaf, the leaf and then every ancestor that
        is left childless and ends no word are removed, stopping below the first
        terminal or branching ancestor or at the root. Exactly the nodes of
        `PruneChain` leave the arena; the leaf's path leaves the stored words and no
        other word changes; from a node with children nothing changes. */
    method DeleteNode(node: nat)
      modifies this
      requires Valid() && node in nodes
      ensures Valid() && root == old(root) && wordCnt == old(wordCnt)
      ensures old(IsLeaf(nodes[node])) ==>
        nodes.Keys == old(nodes.Keys) - PruneChain(old(nodes), old(path), root, node)
      ensures !old(IsLeaf(nodes[node])) ==> nodes == old(nodes)
      ensures Words() == if old(IsLeaf(nodes[node])) then old(Words()) - {old(path[node])} else old(Words())
    {
      ghost var n0, p0, w0 := nodes, path, Words();
      ghost var removed: set<nat> := {};
      var last := node;
      while IsLeaf(nodes[last]) && nodes[last].parent.Some? && (last == node || !nodes[last].terminal)
        invariant Deleting(n0, p0, w0, node, removed, last)
        invariant root == old(root) && wordCnt == old(wordCnt)
        decreases |nodes.Keys|
      {
        var parent := PruneUp(n0, p0, w0, node, removed, last);
        removed, last := removed + {last}, parent;
      }
      FinishDelete(n0, p0, w0, node, removed, last);
    }

    /** The state of `delete_node` from `node` in the arena `n0` (with paths `p0` and
        words `w0`) after it removed `removed` and moved its cursor to `last`. */
    ghost predicate Deleting(n0: map<nat, Node>, p0: map<nat, string>, w0: set<string>, node: nat,
                             removed: set<nat>, last: nat)
      reads this
    {
      Valid() && Linked(n0, p0, root) && w0 == WordSet(n0, p0) && last in nodes &&
      Pruning(n0, p0, root, node, nodes, removed, last) &&
      (last == node ==> nodes == n0 && path == p0 && removed == {}) &&
      (last != node ==> node !in nodes && IsLeaf(n0[node]) && Words() == w0 - {p0[node]})
    }

    /** One pass of `delete_node`'s loop from a leaf with a parent (`UnhookLeaf`),
        with the removed nodes tracked against the chain the whole loop removes. */
    method PruneUp(ghost n0: map<nat, Node>, ghost p0: map<nat, string>, ghost w0: set<string>,
                   ghost node: nat, ghost removed: set<nat>, last: nat) returns (parent: nat)
      modifies this
      requires Deleting(n0, p0, w0, node, removed, last)
      requires IsLeaf(nodes[last]) && nodes[last].parent.Some? && (last == node || !nodes[last].terminal)
      ensures Deleting(n0, p0, w0, node, removed + {last}, parent)
      ensures root == old(root) && wordCnt == old(wordCnt) && |nodes.Keys| < old(|nodes.Keys|)
    {
      assert last != root && UpLink(nodes, path, last);
      PruningStep(n0, p0, root, node, nodes, removed, last);
      parent := UnhookLeaf(last);
    }

    /** The end of `delete_node`'s loop at `last`: at the root left as a childless leaf
        its word-end flag is cleared; the whole call then removed exactly the chain
        from `node`. */
    method FinishDelete(ghost n0: map<nat, Node>, ghost p0: map<nat, string>, ghost w0: set<string>,
                        node: nat, ghost removed: set<nat>, last: nat)
      modifies this
      requires Deleting(n0, p0, w0, node, removed, last)
      requires !(IsLeaf(nodes[last]) && nodes[last].parent.Some? && (last == node || !nodes[last].terminal))
      ensures Valid() && root == old(root) && wordCnt == old(wordCnt)
      ensures IsLeaf(n0[node]) ==> nodes.Keys == n0.Keys - PruneChain(n0, p0, root, node)
      ensures !IsLeaf(n0[node]) ==> nodes == n0
      ensures Words() == if IsLeaf(n0[node]) then w0 - {p0[node]} else w0
    {
      if last == node && IsLeaf(nodes[node]) {
        assert node == root by {
          assert node != root ==> UpLink(nodes, path, node);
        }
        SetTerminal(node, false);
      } else if last != node && IsLeaf(nodes[last]) && !nodes[last].terminal {
        assert last == root by {
          assert last != root ==> UpLink(nodes, path, last);
        }
      }
    }

    /** `self.arena[x].terminal = b`: the node's word-end flag set to `b`, so its path
        joins or leaves the stored words. */
    method SetTerminal(x: nat, b: bool)
      modifies this
      requires Valid() && x in nodes
      ensures Valid() && root == old(root) && wordCnt == old(wordCnt) && path == old(path)
      ensures nodes == old(nodes)[x := old(nodes)[x].(terminal := b)]
      ensures Words() == if b then old(Words()) + {path[x]} else old(Words()) - {path[x]}
    {
      MarkLinked(nodes, path, root, x, b);
      MarkWords(nodes, path, root, x, b);
      nodes := nodes[x := nodes[x].(terminal := b)];
    }

    /** The body of `delete_node`'s loop for a leaf with a parent: the leaf is removed
        from its parent's children and from the arena. Its path leaves the stored
        words, which otherwise stay as they are. */
    method UnhookLeaf(last: nat) returns (parent: nat)
      modifies this
      requires Valid() && last in nodes && IsLeaf(nodes[last]) && nodes[last].parent.Some?
      ensures Valid() && root == old(root) && wordCnt == old(wordCnt)
      ensures parent == old(nodes[last].parent.value) && parent in nodes
      ensures parent in old(nodes) && old(nodes[last].value).Some?
      ensures nodes == Pruned(old(nodes), parent, old(nodes[last].value.value), last)
      ensures path == old(path) - {last}
      ensures Words() == old(Words()) - {old(path[last])}
      ensures !old(nodes[last].terminal) ==> Words() == old(Words())
    {
      assert last != root;
      PruneLinked(nodes, path, root, last);
      WordAt(nodes, path, root, last);
      parent := nodes[last].parent.value;
      var c := nodes[last].value.value;
      PruneWords(nodes, path, root, parent, c, last);
      nodes := nodes[parent := nodes[parent].(children := nodes[parent].children - {c})];
      nodes := nodes - {last};
      path := path - {last};
    }

    /** `remove`: the node at the word's path, which must exist, is deleted with
        `DeleteNode` when it is a leaf and has its word-end flag cleared otherwise;
        the count drops by one. The word stops being stored and no other word
        changes. */
    method Remove(word: string)
      modifies this
      requires Valid() && word in path.Values && wordCnt > 0
      ensures Valid() && root == old(root)
      ensures Words() == old(Words()) - {word} && wordCnt == old(wordCnt) - 1
    {
      var found := FindLastNode(word);
      var node := found.value;
      if IsLeaf(nodes[node]) {
        DeleteNode(node);
      } else {
        SetTerminal(node, false);
      }
      wordCnt := wordCnt - 1;
    }

    /** `words_in_subtrie`: appends to `acc` the word at `x` (when `x` is terminal)
        and then, child by child in an unspecified order, the words below each
        child, building each word from `partial`, the path to `x`. Exactly the
        words at or below `x` are appended, each once. */
    method WordsInSubtrie(x: nat, partial: string, acc: seq<string>) returns (r: seq<string>)
      requires Valid() && x in nodes && partial == path[x]
      requires NoDuplicates(acc) && Listed(acc) !! Sub(nodes, path, x)
      ensures Listed(r) == Listed(acc) + Sub(nodes, path, x)
      ensures NoDuplicates(r)
      decreases height - |path[x]|
    {
      SubSplit(nodes, path, root, x);
      r := acc;
      if nodes[x].terminal {
        r := r + [partial];
      }
      var children := nodes[x].children;
      var keys := children.Keys;
      ghost var done: set<char> := {};
      while keys != {}
        invariant keys + done == children.Keys && keys !! done
        invariant NoDuplicates(r)
        invariant Listed(r) == Listed(acc) + Here(nodes, path, x) + SubKeys(nodes, path, x, done)
        decreases |keys|
      {
        var k :| k in keys;
        var child := children[k];
        SubtrieStep(nodes, path, root, x, done, k, acc, r);
        ghost var before := r;
        r := WordsInSubtrie(child, partial + [k], r);
        assert Listed(r) == Listed(before) + Sub(nodes, path, child);
        MoveKey(keys, done, children.Keys, k);
        keys := keys - {k};
        done := done + {k};
      }
    }

    /** `words`: every stored word, each once, in an unspecified order. */
    method AllWords() returns (r: seq<string>)
      requires Valid()
      ensures Listed(r) == Words() && NoDuplicates(r)
    {
      SubRoot(nodes, path, root);
      r := WordsInSubtrie(root, [], []);
    }

    /** `find_with_prefix`: for a non-empty prefix, every stored word starting with
        it, each once, in an unspecified order. */
    method FindWithPrefix(prefix: string) returns (r: seq<string>)
      requires Valid() && |prefix| > 0
      ensures Listed(r) == (set w | w in Words() && prefix <= w) && NoDuplicates(r)
    {
      r := [];
      var node := FindLastNode(prefix);
      if node.Some? {
        SubPrefix(nodes, path, root, node.value);
        r := WordsInSubtrie(node.value, prefix, r);
      } else {
        NoPrefix(nodes, path, root, prefix);
      }
    }
  }

  /** `test_create`: a new trie is empty with a zero count. */
  method TestCreate() returns (empty: bool, count: nat)
    ensures empty && count == 0
  {
    var t := new Trie();
    empty := t.IsEmpty();
    count := t.WordsCount();
  }

  /** `test_insert`: after inserting "cute", "cutie" and "fred", "cute" is contained
      and "cut" is not; after inserting "cut" it is, and four words were inserted. */
  method TestInsert() returns (cute: bool, cutBefore: bool, cutAfter: bool, count: nat)
    ensures cute && !cutBefore && cutAfter && count == 4
  {
    var t := new Trie();
    t.Insert("cute");
    t.Insert("cutie");
    t.Insert("fred");
    cute := t.Contains("cute");
    cutBefore := t.Contains("cut");
    t.Insert("cut");
    cutAfter := t.Contains("cut");
    count := t.wordCnt;
  }

  /** `test_remove`: with "cute" and "cut" inserted, removing "cute" keeps "cut",
      drops "cute" and leaves a count of one. */
  method TestRemove() returns (before: nat, cut: bool, cute: bool, after: nat)
    ensures before == 2 && cut && !cute && after == 1
  {
    var t := new Trie();
    t.Insert("cute");
    t.Insert("cut");
    before := t.wordCnt;
    t.Remove("cute");
    cut := t.Contains("cut");
    cute := t.Contains("cute");
    after := t.wordCnt;
  }

  /** `test_words`: no words at first; then exactly "foobar"; then four words. */
  method TestWords() returns (none: seq<string>, one: seq<string>, four: seq<string>)
    ensures none == [] && one == ["foobar"]
    ensures |four| == 4 && Listed(four) == {"foobar", "foobaz", "foobaa", "bafoo"}
  {
    var t := new Trie();
    none := t.AllWords();
    ListedCount(none);
    t.Insert("foobar");
    ghost var w1 := t.Words();
    one := t.AllWords();
    ListedCount(one);
    assert one[0] in Listed(one);
    InsertAll(t, ["foobaz", "foobaa", "bafoo"]);
    four := t.AllWords();
    ListedCount(four);
    FourWords(w1, t.Words());
  }

  /** The stored words after each insertion of `test_words`. */
  lemma FourWords(w1: set<string>, w4: set<string>)
    requires w1 == {} + {"foobar"} && w4 == w1 + Listed(["foobaz", "foobaa", "bafoo"])
    ensures w4 == {"foobar", "foobaz", "foobaa", "bafoo"} && |w4| == 4
  {
    assert "bafoo" !in {"foobar", "foobaz", "foobaa"};
    assert "foobaa" !in {"foobar", "foobaz"};
  }

  /** Inserting the words of `ws` in turn adds them to the stored words and their
      number to the count. */
  method InsertAll(t: Trie, ws: seq<string>)
    modifies t
    requires t.Valid()
    ensures t.Valid() && t.Words() == old(t.Words()) + Listed(ws) && t.wordCnt == old(t.wordCnt) + |ws|
  {
    var i := 0;
    while i < |ws|
      invariant i <= |ws| && t.Valid()
      invariant t.Words() == old(t.Words()) + Listed(ws[..i]) && t.wordCnt == old(t.wordCnt) + i
    {
      assert Listed(ws[..i + 1]) == Listed(ws[..i]) + {ws[i]} by {
        assert ws[..i + 1] == ws[..i] + [ws[i]];
      }
      t.Insert(ws[i]);
      i := i + 1;
    }
    assert ws[..i] == ws;
  }

  /** The trie of `test_find_prefix`: "foobar", "foobaa", "foobaz", "fozzzz", "fz"
      and "bb" inserted in turn. */
  method PrefixTrie() returns (t: Trie)
    ensures fresh(t) && t.Valid() && t.wordCnt == 6
    ensures t.Words() == {"foobar", "foobaa", "foobaz", "fozzzz", "fz", "bb"}
  {
    t := new Trie();
    InsertAll(t, ["foobar", "foobaa", "foobaz", "fozzzz", "fz", "bb"]);
  }

  /** `test_find_prefix`: of "foobar", "foobaa", "foobaz", "fozzzz", "fz" and "bb",
      four start with "fo" and five with "f". */
  method TestFindPrefix() returns (count: nat, fo: seq<string>, f: seq<string>)
    ensures count == 6
    ensures |fo| == 4 && Listed(fo) == {"foobar", "foobaa", "foobaz", "fozzzz"}
    ensures |f| == 5 && Listed(f) == {"foobar", "foobaa", "foobaz", "fozzzz", "fz"}
  {
    var t := PrefixTrie();
    PrefixWords(t.Words());
    count := t.wordCnt;
    fo := t.FindWithPrefix("fo");
    ListedCount(fo);
    f := t.FindWithPrefix("f");
    ListedCount(f);
  }

  /** Which of the six words of `test_find_prefix` start with "fo" and with "f". */
  lemma PrefixWords(w6: set<string>)
    requires w6 == {"foobar", "foobaa", "foobaz", "fozzzz", "fz", "bb"}
    ensures (set w | w in w6 && "fo" <= w) == {"foobar", "foobaa", "foobaz", "fozzzz"}
    ensures (set w | w in w6 && "f" <= w) == {"foobar", "foobaa", "foobaz", "fozzzz", "fz"}
    ensures |{"foobar", "foobaa", "foobaz", "fozzzz"}| == 4
    ensures |{"foobar", "foobaa", "foobaz", "fozzzz", "fz"}| == 5
  {
    assert "fo"[1] != "fz"[1] && "fo"[0] != "bb"[0];
    assert "fozzzz" !in {"foobar", "foobaa", "foobaz"};
    assert "foobaz" !in {"foobar", "foobaa"};
    assert "fz" !in {"foobar", "foobaa", "foobaz", "fozzzz"};
  }
}

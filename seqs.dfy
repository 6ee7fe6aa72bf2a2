/**
 * Sequence facts shared by several structures: reversal, and order on integer
 * sequences.
 */
module Seqs {
  /** `s` backwards. */
  function Reverse<T>(s: seq<T>): (r: seq<T>)
    ensures |r| == |s| && forall i | 0 <= i < |s| :: r[i] == s[|s| - 1 - i]
  {
    if s == [] then [] else Reverse(s[1..]) + [s[0]]
  }

  /** Reversing `s + [v]` puts `v` first. */
  lemma ReverseSnoc<T>(s: seq<T>, v: T)
    ensures Reverse(s + [v]) == [v] + Reverse(s)
  {
    var r := Reverse(s + [v]);
    var r' := [v] + Reverse(s);
    assert |r| == |r'|;
    forall t | 0 <= t < |r| ensures r[t] == r'[t] {
      if t > 0 { assert r'[t] == Reverse(s)[t - 1]; }
    }
  }

  /** Reversing a prefix one element longer puts that element first. */
  lemma ReversePrefix<T>(cs: seq<T>, i: nat)
    requires i < |cs|
    ensures Reverse(cs[..i + 1]) == [cs[i]] + Reverse(cs[..i])
  {
    assert cs[..i + 1] == cs[..i] + [cs[i]];
    ReverseSnoc(cs[..i], cs[i]);
  }

  /** `s` is in non-decreasing order. */
  ghost predicate Sorted(s: seq<int>)
  {
    forall i, j | 0 <= i < j < |s| :: s[i] <= s[j]
  }

  /** The first `k` positions of `s` hold its `k` least elements in order: each of
      them is at most everything after it. With `k == |s|` this is `Sorted(s)`. */
  ghost predicate SortedPrefix(s: seq<int>, k: nat)
  {
    forall i, j | 0 <= i < j < |s| && i < k :: s[i] <= s[j]
  }

  /** A sorted sequence without its first element is sorted. */
  lemma SortedTail(s: seq<int>)
    requires Sorted(s) && s != []
    ensures Sorted(s[1..])
  {
    var t := s[1..];
    forall i, j | 0 <= i < j < |t| ensures t[i] <= t[j] {
      assert t[i] == s[i + 1] && t[j] == s[j + 1];
    }
  }

  /** A non-empty sequence is its first element followed by its tail, and so are its
      elements. */
  lemma HeadTail<T>(s: seq<T>)
    requires s != []
    ensures s == [s[0]] + s[1..]
    ensures multiset(s[1..]) == multiset(s) - multiset{s[0]}
  {
    assert s == [s[0]] + s[1..];
  }

  /** A sequence is its part before `j`, its element at `j`, and its part after `j`. */
  lemma SplitAt<T>(s: seq<T>, j: nat)
    requires j < |s|
    ensures s == s[..j] + ([s[j]] + s[j + 1..])
  {
  }

  /** The first element of a sorted sequence is at most every element in it. */
  lemma SortedFirstLeast(s: seq<int>, x: int)
    requires Sorted(s) && x in multiset(s)
    ensures s[0] <= x
  {
    var i :| 0 <= i < |s| && s[i] == x;
    if i > 0 { assert s[0] <= s[i]; }
  }

  /** Two sorted sequences with the same elements are equal: a sorted permutation
      is unique. */
  lemma {:induction false} SortedUnique(s: seq<int>, t: seq<int>)
    requires Sorted(s) && Sorted(t) && multiset(s) == multiset(t)
    ensures s == t
  {
    if s == [] || t == [] {
      assert |s| == |multiset(s)| == |multiset(t)| == |t|;
    } else {
      var x, y := s[0], t[0];
      assert x in multiset(t) by { assert x in multiset(s); }
      assert y in multiset(s) by { assert y in multiset(t); }
      SortedFirstLeast(t, x);
      SortedFirstLeast(s, y);
      HeadTail(s);
      HeadTail(t);
      SortedTail(s);
      SortedTail(t);
      assert x == y;
      var s', t' := s[1..], t[1..];
      assert multiset(s') == multiset(t');
      SortedUnique(s', t');
      assert s == [x] + s' && t == [x] + t';
    }
  }

  /** `s` with the elements at `i` and `j` exchanged. */
  function Swap<T>(s: seq<T>, i: nat, j: nat): (t: seq<T>)
    requires i < |s| && j < |s|
    ensures |t| == |s|
    ensures t[i] == s[j] && t[j] == s[i]
    ensures forall k | 0 <= k < |s| && k != i && k != j :: t[k] == s[k]
  {
    s[i := s[j]][j := s[i]]
  }

  /** Swapping only permutes. (Kept out of `Swap`'s contract: a multiset fact on
      every swapped sequence in sight makes nested swaps expensive to reason
      about.) */
  lemma SwapPerm<T>(s: seq<T>, i: nat, j: nat)
    requires i < |s| && j < |s|
    ensures multiset(Swap(s, i, j)) == multiset(s)
  {
  }
}

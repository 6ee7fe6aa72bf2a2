/**
 * stack: a LIFO stack over a growable vector; the top is the last element.
 */
module Stack {
  import opened Wrappers
  import opened Seqs

  /** What `pop` does to the elements `s`: the last one comes off, if any. */
  function PopOf<T>(s: seq<T>): (r: (Option<T>, seq<T>))
    ensures r.0.None? <==> s == []
    ensures r.0.Some? ==> s == r.1 + [r.0.value]
    ensures r.0.None? ==> r.1 == s
  {
    if s == [] then (None, s) else (Some(s[|s| - 1]), s[..|s| - 1])
  }

  /** The element `top` shows: the last one, if any. */
  function TopOf<T>(s: seq<T>): (r: Option<T>)
    ensures r == PopOf(s).0
  {
    if s == [] then None else Some(s[|s| - 1])
  }

  class Stack<T> {
    var inner: seq<T>

    /** `new`: an empty stack. */
    constructor ()
      ensures inner == []
    {
      inner := [];
    }

    /** `is_empty`: nothing on the stack. */
    function IsEmpty(): (r: bool)
      reads this
      ensures r <==> inner == []
    {
      |inner| == 0
    }

    /** `len`: the number of values on the stack. */
    function Len(): (r: nat)
      reads this
      ensures r == 0 <==> IsEmpty()
    {
      |inner|
    }

    /** `push`: `v` goes on top. */
    method Push(v: T)
      modifies this
      ensures inner == old(inner) + [v]
    {
      inner := inner + [v];
    }

    /** `pop`: the top comes off. */
    method Pop() returns (r: Option<T>)
      modifies this
      ensures (r, inner) == PopOf(old(inner))
    {
      if |inner| == 0 {
        r := None;
      } else {
        r := Some(inner[|inner| - 1]);
        inner := inner[..|inner| - 1];
      }
    }

    /** `top`: the element `pop` would return, without removing it. */
    method Top() returns (r: Option<T>)
      ensures r == TopOf(inner)
    {
      r := if |inner| == 0 then None else Some(inner[|inner| - 1]);
    }

    /** The `Iterator` implementation: `next` is `pop`. */
    method Next() returns (r: Option<T>)
      modifies this
      ensures (r, inner) == PopOf(old(inner))
    {
      r := Pop();
    }
  }

  /** A new stack is empty: length 0, and `pop` and `top` give `None`. */
  lemma EmptyStack<T>()
    ensures PopOf<T>([]) == (None, []) && TopOf<T>([]) == None
  {
  }

  /** `push(v)` then `pop` returns `v` and restores the stack (LIFO); `top` after
      `push(v)` is `v`; the length grows by one. */
  lemma PushPop<T>(s: seq<T>, v: T)
    ensures PopOf(s + [v]) == (Some(v), s) && TopOf(s + [v]) == Some(v) && |s + [v]| == |s| + 1
  {
    assert (s + [v])[..|s|] == s;
  }

  /** `pop` removes exactly one element from a non-empty stack. */
  lemma PopShrinks<T>(s: seq<T>)
    requires s != []
    ensures |PopOf(s).1| == |s| - 1
  {
  }

  /** Iterating the stack yields its elements from the top down: the elements
      reversed, leaving the stack empty. */
  method Drain<T>(st: Stack<T>) returns (out: seq<T>)
    modifies st
    ensures out == Reverse(old(st.inner)) && st.inner == []
  {
    out := [];
    while true
      invariant Reverse(old(st.inner)) == out + Reverse(st.inner)
      decreases |st.inner|
    {
      var x := st.Next();
      if x.None? {
        assert out + Reverse(st.inner) == out;
        return;
      }
      ReverseSnoc(st.inner, x.value);
      out := out + [x.value];
    }
  }
}

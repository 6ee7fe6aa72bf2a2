/**
 * priority_queue: a queue that hands out a highest-priority element first, kept
 * as a max-heap. The priority of an element is its integer key.
 */
module PriorityQueue {
  import opened Wrappers
  import Heap

  class PriorityQueue<T> {
    const heap: Heap.Heap<T>

    ghost predicate Valid()
      reads this, heap
    {
      heap.Valid()
    }

    /** The queued elements. */
    ghost function Elements(): multiset<T>
      reads this, heap
    {
      multiset(heap.inner)
    }

    /** `new`: an empty queue. */
    constructor (key: T -> int)
      ensures Valid() && Elements() == multiset{} && heap.inner == [] && heap.key == key && fresh(heap)
    {
      heap := new Heap.Heap(key);
    }

    /** `is_empty`. */
    method IsEmpty() returns (b: bool)
      requires Valid()
      ensures b <==> Elements() == multiset{}
    {
      b := heap.IsEmpty();
      assert |Elements()| == |heap.inner|;
    }

    /** `count`: the number of queued elements. */
    method Count() returns (n: nat)
      requires Valid()
      ensures n == |Elements()|
    {
      n := heap.Count();
    }

    /** `enqueue`: adds `value`, so the count grows by one. */
    method Enqueue(value: T)
      requires Valid()
      modifies heap
      ensures heap.inner == Heap.SiftUp(old(heap.inner) + [value], |old(heap.inner)|, heap.key)
      ensures Valid() && Elements() == old(Elements()) + multiset{value}
      ensures |Elements()| == |old(Elements())| + 1
    {
      heap.Insert(value);
    }

    /** `dequeue`: `None` when empty; otherwise an element of highest priority,
        which leaves the queue, so the count drops by one. */
    method Dequeue() returns (r: Option<T>)
      requires Valid()
      modifies heap
      ensures Valid()
      ensures r.None? <==> old(Elements()) == multiset{}
      ensures r.None? ==> Elements() == old(Elements())
      ensures r.Some? ==> r.value == old(heap.inner)[0] && r.value in old(Elements())
      ensures r.Some? ==> Elements() + multiset{r.value} == old(Elements()) && |Elements()| == |old(Elements())| - 1
      ensures r.Some? ==> forall x | x in old(Elements()) :: heap.key(x) <= heap.key(r.value)
      ensures r.Some? ==> heap.inner == Heap.SiftDown(Heap.Popped(old(heap.inner)), 0, |old(heap.inner)| - 1, heap.key)
    {
      assert |Elements()| == |heap.inner|;
      r := heap.Remove();
      if r.Some? {
        assert old(heap.inner)[0] in old(Elements());
      }
    }

    /** `peek`: the element `dequeue` would return, or `None`; nothing changes. */
    method Peek() returns (r: Option<T>)
      requires Valid()
      ensures r.None? <==> Elements() == multiset{}
      ensures r.Some? ==> r.value == heap.inner[0] && r.value in Elements()
      ensures r.Some? ==> forall x | x in Elements() :: heap.key(x) <= heap.key(r.value)
    {
      assert |Elements()| == |heap.inner|;
      r := heap.Peek();
    }
  }

  /** Dequeuing until `None` hands out every element, with priorities that never
      increase. */
  method DequeueAll<T>(q: PriorityQueue<T>) returns (out: seq<T>)
    requires q.Valid()
    modifies q.heap
    ensures q.Valid() && q.Elements() == multiset{}
    ensures multiset(out) == old(q.Elements()) && Heap.NonIncreasing(out, q.heap.key)
  {
    out := [];
    while true
      invariant q.Valid() && multiset(out) + q.Elements() == old(q.Elements())
      invariant Heap.NonIncreasing(out, q.heap.key)
      invariant out != [] ==> forall x | x in q.Elements() :: q.heap.key(x) <= q.heap.key(out[|out| - 1])
      decreases |q.Elements()|
    {
      ghost var before := q.Elements();
      var x := q.Dequeue();
      if x.None? {
        return;
      }
      DequeueStep(out, x.value, before, q.Elements(), q.heap.key);
      out := out + [x.value];
    }
  }

  /** One round of `DequeueAll`: appending the dequeued `x`, which no remaining
      element outranks, keeps the output non-increasing and every element
      accounted for. */
  lemma DequeueStep<T>(out: seq<T>, x: T, before: multiset<T>, after: multiset<T>, key: T -> int)
    requires after + multiset{x} == before && Heap.NonIncreasing(out, key)
    requires out != [] ==> forall y | y in before :: key(y) <= key(out[|out| - 1])
    requires forall y | y in before :: key(y) <= key(x)
    ensures Heap.NonIncreasing(out + [x], key) && multiset(out + [x]) + after == multiset(out) + before
    ensures forall y | y in after :: key(y) <= key(x)
  {
    Heap.NonIncreasingSnoc(out, x, key);
  }

  /** The priorities of `s`, in order. */
  function Priorities<T>(s: seq<T>, key: T -> int): seq<int>
  {
    seq(|s|, i requires 0 <= i < |s| => key(s[i]))
  }

  /** `s` without position `j`. */
  function Without<T>(s: seq<T>, j: nat): (t: seq<T>)
    requires j < |s|
    ensures |t| == |s| - 1 && multiset(t) == multiset(s) - multiset{s[j]}
  {
    assert s == s[..j] + [s[j]] + s[j + 1..];
    s[..j] + s[j + 1..]
  }

  /** An element of a non-increasing sequence has a key at most the first. */
  lemma FirstIsTop<T>(s: seq<T>, x: T, key: T -> int)
    requires Heap.NonIncreasing(s, key) && x in multiset(s)
    ensures key(x) <= key(s[0])
  {
    var i :| 0 <= i < |s| && s[i] == x;
    if i > 0 { assert key(s[0]) >= key(s[i]); }
  }

  /** Taking out one position keeps a sequence non-increasing. */
  lemma WithoutNonIncreasing<T>(s: seq<T>, j: nat, key: T -> int)
    requires j < |s| && Heap.NonIncreasing(s, key)
    ensures Heap.NonIncreasing(Without(s, j), key)
  {
    var t := Without(s, j);
    forall a, b | 0 <= a < b < |t| ensures key(t[a]) >= key(t[b]) {
      var a', b' := if a < j then a else a + 1, if b < j then b else b + 1;
      assert t[a] == s[a'] && t[b] == s[b'];
    }
  }

  /** When `s[j]` has the first key of a non-increasing `s`, the priorities of
      `s` are that key followed by the priorities of `s` without `j`. */
  lemma WithoutTopPriorities<T>(s: seq<T>, j: nat, key: T -> int)
    requires j < |s| && Heap.NonIncreasing(s, key) && key(s[j]) == key(s[0])
    ensures Priorities(s, key) == [key(s[0])] + Priorities(Without(s, j), key)
  {
    var t := Without(s, j);
    var p, q := Priorities(s, key), [key(s[0])] + Priorities(t, key);
    assert |p| == |q|;
    forall k | 0 <= k < |p| ensures p[k] == q[k] {
      if 0 < k <= j {
        assert q[k] == key(t[k - 1]) && t[k - 1] == s[k - 1];
        assert key(s[0]) >= key(s[k - 1]) >= key(s[j]);
        assert key(s[0]) >= key(s[k]) >= key(s[j]);
      } else if k > j {
        assert q[k] == key(t[k - 1]) && t[k - 1] == s[k];
      }
    }
  }

  /** The priorities handed out are independent of insertion order: any two
      non-increasing arrangements of the same elements have the same sequence of
      priorities. */
  lemma {:induction false} PrioritiesDetermined<T>(a: seq<T>, b: seq<T>, key: T -> int)
    requires Heap.NonIncreasing(a, key) && Heap.NonIncreasing(b, key) && multiset(a) == multiset(b)
    ensures Priorities(a, key) == Priorities(b, key)
    decreases |a|
  {
    if a != [] {
      assert |b| > 0 by { assert |multiset(b)| == |multiset(a)| > 0; }
      assert a[0] in multiset(b) && b[0] in multiset(a) by {
        assert a[0] in multiset(a) && b[0] in multiset(b);
      }
      FirstIsTop(b, a[0], key);
      FirstIsTop(a, b[0], key);
      var j :| 0 <= j < |b| && b[j] == a[0];
      assert key(b[j]) == key(b[0]);
      WithoutNonIncreasing(a, 0, key);
      WithoutNonIncreasing(b, j, key);
      WithoutTopPriorities(a, 0, key);
      WithoutTopPriorities(b, j, key);
      PrioritiesDetermined(Without(a, 0), Without(b, j), key);
    } else {
      assert b == [] by { assert |multiset(b)| == 0; }
    }
  }
}

/**
 * queue: a FIFO queue over a vector of slots and a head index. `dequeue` takes the
 * head slot (leaving `None` behind) and moves the head on; once the vector holds
 * more than 50 slots and more than a quarter of them lie before the head, the
 * consumed prefix is drained and the head reset to 0.
 */
module Queue {
  import opened Wrappers

  /** The values of the slots `s[h..]`, all of which hold one. */
  function Values<T>(s: seq<Option<T>>, h: nat): (r: seq<T>)
    requires h <= |s| && forall i | h <= i < |s| :: s[i].Some?
    ensures |r| == |s| - h && forall i | 0 <= i < |r| :: r[i] == s[h + i].value
    decreases |s| - h
  {
    if h == |s| then [] else [s[h].value] + Values(s, h + 1)
  }

  /** Compaction: `head as f64 / len as f64 > 0.25` as the exact rational test
      `4 * head > len`. The two agree while `len` stays well below 2^50, where the
      rounded quotient cannot cross 0.25 the wrong way. */
  predicate Compacts(len: nat, head: nat)
  {
    len > 50 && 4 * head > len
  }

  class Queue<T> {
    var inner: seq<Option<T>>
    var head: nat

    ghost predicate Valid()
      reads this
    {
      head <= |inner| && forall i | head <= i < |inner| :: inner[i].Some?
    }

    /** The logical contents, oldest first. */
    ghost function Contents(): seq<T>
      reads this
      requires Valid()
    {
      Values(inner, head)
    }

    /** `new`: an empty queue. */
    constructor ()
      ensures Valid() && Contents() == [] && head == 0 && inner == []
    {
      inner := [];
      head := 0;
    }

    /** `count`: the slots from the head on. */
    method Count() returns (n: nat)
      requires Valid()
      ensures n == |inner| - head && n == |Contents()|
    {
      n := |inner| - head;
    }

    /** `is_empty`. */
    method IsEmpty() returns (b: bool)
      requires Valid()
      ensures b <==> Contents() == []
    {
      b := |inner| - head == 0;
    }

    /** `enqueue`: `v` goes to the back. */
    method Enqueue(v: T)
      modifies this
      requires Valid()
      ensures Valid() && Contents() == old(Contents()) + [v]
      ensures head == old(head) && inner == old(inner) + [Some(v)]
    {
      inner := inner + [Some(v)];
      assert Values(inner, head) == old(Values(inner, head)) + [v];
    }

    /** `dequeue`: `None` and no change on an empty queue; otherwise the oldest value,
        with the head slot emptied, the head moved on and the vector compacted when
        `Compacts` holds. */
    method Dequeue() returns (r: Option<T>)
      modifies this
      requires Valid()
      ensures Valid()
      ensures old(Contents()) == [] ==> r.None? && inner == old(inner) && head == old(head)
      ensures old(Contents()) != [] ==> r == Some(old(Contents())[0]) && Contents() == old(Contents())[1..]
      ensures old(Contents()) != [] ==>
        if Compacts(old(|inner|), old(head) + 1) then head == 0 && inner == old(inner)[old(head) + 1..]
        else head == old(head) + 1 && inner == old(inner)[old(head) := None]
    {
      if |inner| - head == 0 {
        return None;
      }
      ghost var c := Contents();
      r := inner[head];
      inner := inner[head := None];
      head := head + 1;
      assert Values(inner, head) == c[1..];
      if |inner| > 50 && 4 * head > |inner| {
        DropPrefix(inner, head);
        inner := inner[head..];
        head := 0;
      }
    }

    /** `front`: the oldest value, without removing it. */
    method Front() returns (r: Option<T>)
      requires Valid()
      ensures r == if Contents() == [] then None else Some(Contents()[0])
    {
      if |inner| - head == 0 {
        return None;
      }
      r := inner[head];
    }
  }

  /** Draining the consumed prefix keeps the logical contents. */
  lemma DropPrefix<T>(s: seq<Option<T>>, h: nat)
    requires h <= |s| && forall i | h <= i < |s| :: s[i].Some?
    ensures Values(s[h..], 0) == Values(s, h)
  {
  }

  /** Dequeuing until `None` yields the contents in the order they were enqueued
      (FIFO), compactions included, and leaves the queue empty. */
  method DequeueAll<T>(q: Queue<T>) returns (out: seq<T>)
    modifies q
    requires q.Valid()
    ensures q.Valid() && out == old(q.Contents()) && q.Contents() == []
  {
    out := [];
    while true
      invariant q.Valid() && out + q.Contents() == old(q.Contents())
      decreases |q.Contents()|
    {
      var x := q.Dequeue();
      if x.None? {
        return;
      }
      out := out + [x.value];
    }
  }
}

/**
 * cnt_occurrences: the number of occurrences of a key in a sorted slice, as the
 * distance between an upper-bound and a lower-bound binary search.
 */
module CntOccurrences {
  import opened Seqs

  /** The probe `low + (high - low) / 2` of both loops. */
  function Middle(low: nat, high: nat): (m: nat)
    requires low < high
    ensures low <= m < high
  {
    low + (high - low) / 2
  }

  /** Where the lower-bound loop ends when started on `[low, high)`: it keeps the
      half right of the middle while the middle element is below `key`. */
  function LowFrom(a: seq<int>, key: int, low: nat, high: nat): (r: nat)
    requires low <= high <= |a|
    ensures low <= r <= high
    decreases high - low
  {
    if low >= high then low
    else
      var middle := Middle(low, high);
      if a[middle] < key then LowFrom(a, key, middle + 1, high) else LowFrom(a, key, low, middle)
  }

  /** Where the upper-bound loop ends when started on `[low, high)`: it keeps the
      half left of the middle while the middle element is above `key`. */
  function HighFrom(a: seq<int>, key: int, low: nat, high: nat): (r: nat)
    requires low <= high <= |a|
    ensures low <= r <= high
    decreases high - low
  {
    if low >= high then low
    else
      var middle := Middle(low, high);
      if a[middle] > key then HighFrom(a, key, low, middle) else HighFrom(a, key, middle + 1, high)
  }

  /** The lower-bound loop keeps "the element just before `low` is below `key`" and
      "the element at `high` is at least `key`", so it ends at an index with both
      properties. No sortedness is needed for this. */
  lemma {:induction false} LowFromBounds(a: seq<int>, key: int, low: nat, high: nat)
    requires low <= high <= |a|
    requires low == 0 || a[low - 1] < key
    requires high == |a| || key <= a[high]
    ensures var r := LowFrom(a, key, low, high);
      (r == 0 || a[r - 1] < key) && (r == |a| || key <= a[r])
    decreases high - low
  {
    if low < high {
      var middle := Middle(low, high);
      if a[middle] < key {
        LowFromBounds(a, key, middle + 1, high);
      } else {
        LowFromBounds(a, key, low, middle);
      }
    }
  }

  /** The same for the upper-bound loop, with "at most `key`" before and "above `key`"
      at the end. */
  lemma {:induction false} HighFromBounds(a: seq<int>, key: int, low: nat, high: nat)
    requires low <= high <= |a|
    requires low == 0 || a[low - 1] <= key
    requires high == |a| || key < a[high]
    ensures var r := HighFrom(a, key, low, high);
      (r == 0 || a[r - 1] <= key) && (r == |a| || key < a[r])
    decreases high - low
  {
    if low < high {
      var middle := Middle(low, high);
      if a[middle] > key {
        HighFromBounds(a, key, low, middle);
      } else {
        HighFromBounds(a, key, middle + 1, high);
      }
    }
  }

  /** On a sorted slice, the neighbours of a cut decide every element on each side. */
  lemma SortedCut(a: seq<int>, r: nat)
    requires Sorted(a) && r <= |a|
    ensures forall i | 0 <= i < r :: a[i] <= a[r - 1]
    ensures forall i | r <= i < |a| :: a[r] <= a[i]
  {
  }

  /** On any slice, sorted or not, the upper-bound loop ends no earlier than the
      lower-bound loop: both take the same halves until a middle element equals
      `key`, after which one stays at or left of it and the other right of it. So the
      subtraction `high_idx() - low_idx()` never underflows. */
  lemma {:induction false} LowBeforeHigh(a: seq<int>, key: int, low: nat, high: nat)
    requires low <= high <= |a|
    ensures LowFrom(a, key, low, high) <= HighFrom(a, key, low, high)
    decreases high - low
  {
    if low < high {
      var middle := Middle(low, high);
      if a[middle] < key {
        LowBeforeHigh(a, key, middle + 1, high);
      } else if a[middle] > key {
        LowBeforeHigh(a, key, low, middle);
      }
    }
  }

  /** The `low_idx` closure: the first index whose element is at least `key` on a
      sorted slice. */
  method LowIdx(a: seq<int>, key: int) returns (low: nat)
    ensures low == LowFrom(a, key, 0, |a|)
    ensures Sorted(a) ==> (forall i | 0 <= i < low :: a[i] < key) && (forall i | low <= i < |a| :: key <= a[i])
  {
    var high: nat;
    low, high := 0, |a|;
    while low < high
      invariant low <= high <= |a|
      invariant LowFrom(a, key, low, high) == LowFrom(a, key, 0, |a|)
      decreases high - low
    {
      var middle := Middle(low, high);
      if a[middle] < key {
        low := middle + 1;
      } else {
        high := middle;
      }
    }
    if Sorted(a) { LowFromSorted(a, key); }
  }

  /** The `high_idx` closure: the first index whose element is above `key` on a
      sorted slice. */
  method HighIdx(a: seq<int>, key: int) returns (low: nat)
    ensures low == HighFrom(a, key, 0, |a|)
    ensures Sorted(a) ==> (forall i | 0 <= i < low :: a[i] <= key) && (forall i | low <= i < |a| :: key < a[i])
  {
    var high: nat;
    low, high := 0, |a|;
    while low < high
      invariant low <= high <= |a|
      invariant HighFrom(a, key, low, high) == HighFrom(a, key, 0, |a|)
      decreases high - low
    {
      var middle := Middle(low, high);
      if a[middle] > key {
        high := middle;
      } else {
        low := middle + 1;
      }
    }
    if Sorted(a) { HighFromSorted(a, key); }
  }

  /** Cutting a slice at `i <= j` into three pieces adds up the counts. */
  lemma CountSplit(a: seq<int>, key: int, i: nat, j: nat)
    requires i <= j <= |a|
    ensures multiset(a)[key] == multiset(a[..i])[key] + multiset(a[i..j])[key] + multiset(a[j..])[key]
  {
    assert a == a[..i] + a[i..j] + a[j..];
  }

  /** A slice none of whose elements is `key` holds it zero times. */
  lemma {:induction false} CountNone(s: seq<int>, key: int)
    requires forall i | 0 <= i < |s| :: s[i] != key
    ensures multiset(s)[key] == 0
  {
    if s != [] {
      CountNone(s[1..], key);
      assert s == [s[0]] + s[1..];
    }
  }

  /** A slice every element of which is `key` holds it as many times as it is long. */
  lemma {:induction false} CountAll(s: seq<int>, key: int)
    requires forall i | 0 <= i < |s| :: s[i] == key
    ensures multiset(s)[key] == |s|
  {
    if s != [] {
      CountAll(s[1..], key);
      assert s == [s[0]] + s[1..];
    }
  }

  /** On a sorted slice the lower-bound loop ends at the first index whose element
      is at least `key`. */
  lemma LowFromSorted(a: seq<int>, key: int)
    requires Sorted(a)
    ensures var low := LowFrom(a, key, 0, |a|);
      (forall i | 0 <= i < low :: a[i] < key) && (forall i | low <= i < |a| :: key <= a[i])
  {
    LowFromBounds(a, key, 0, |a|);
    SortedCut(a, LowFrom(a, key, 0, |a|));
  }

  /** On a sorted slice the upper-bound loop ends at the first index whose element
      is above `key`. */
  lemma HighFromSorted(a: seq<int>, key: int)
    requires Sorted(a)
    ensures var high := HighFrom(a, key, 0, |a|);
      (forall i | 0 <= i < high :: a[i] <= key) && (forall i | high <= i < |a| :: key < a[i])
  {
    HighFromBounds(a, key, 0, |a|);
    SortedCut(a, HighFrom(a, key, 0, |a|));
  }

  /** When everything before `low` is below `key`, everything from `high` on above
      it and everything between equal to it, `key` occurs `high - low` times. */
  lemma CountBetween(a: seq<int>, key: int, low: nat, high: nat)
    requires low <= high <= |a|
    requires forall i | 0 <= i < low :: a[i] < key
    requires forall i | low <= i < high :: a[i] == key
    requires forall i | high <= i < |a| :: key < a[i]
    ensures multiset(a)[key] == high - low
  {
    CountSplit(a, key, low, high);
    var before, equal, after := a[..low], a[low..high], a[high..];
    assert forall i | 0 <= i < |before| :: before[i] == a[i];
    assert forall i | 0 <= i < |equal| :: equal[i] == a[low + i];
    assert forall i | 0 <= i < |after| :: after[i] == a[high + i];
    CountNone(before, key);
    CountAll(equal, key);
    CountNone(after, key);
  }

  /** On a sorted slice the upper bound minus the lower bound is the number of
      occurrences of `key`: zero when it is absent. */
  lemma OccurrencesCounted(a: seq<int>, key: int)
    requires Sorted(a)
    ensures HighFrom(a, key, 0, |a|) - LowFrom(a, key, 0, |a|) == multiset(a)[key]
  {
    var low, high := LowFrom(a, key, 0, |a|), HighFrom(a, key, 0, |a|);
    LowFromSorted(a, key);
    HighFromSorted(a, key);
    LowBeforeHigh(a, key, 0, |a|);
    CountBetween(a, key, low, high);
  }

  /** `cnt_occurrences(a, key)`: the upper bound minus the lower bound, which never
      underflows. */
  method CntOccurrences(a: seq<int>, key: int) returns (n: nat)
    ensures n == HighFrom(a, key, 0, |a|) - LowFrom(a, key, 0, |a|)
    ensures Sorted(a) ==> n == multiset(a)[key]
  {
    LowBeforeHigh(a, key, 0, |a|);
    var high := HighIdx(a, key);
    var low := LowIdx(a, key);
    n := high - low;
    if Sorted(a) { OccurrencesCounted(a, key); }
  }
}

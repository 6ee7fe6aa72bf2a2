/**
 * bitset: a fixed-size set of bit positions `0..size-1`, packed into 64-bit words
 * (position `idx` is bit `idx % 64` of word `idx / 64`). `set`, `clear` and `flip`
 * rewrite one word, `cardinality` counts the set bits word by word, `set_all` and
 * `!` keep the unused high bits of the last word clear, and `&`, `|`, `^` combine
 * two sets word by word into a new one.
 *
 * A `u64` word is a natural number below 2^64, and the bitwise operators are
 * defined bit by bit, from the lowest bit up.
 */
module BitSet {
  import opened Wrappers

  /** `N`: bits per word. */
  const N: nat := 64

  /** A `u64`. */
  type Word = x: nat | x < 0x1_0000_0000_0000_0000

  /** `ALLONE`, `!0u64`. */
  const AllOne: Word := 0xFFFF_FFFF_FFFF_FFFF

  // ---------------------------------------------------------------------------
  // Bits of a number
  // ---------------------------------------------------------------------------

  function Pow2(k: nat): (p: nat)
    ensures p > 0
  {
    if k == 0 then 1 else 2 * Pow2(k - 1)
  }

  /** Bit `k` of `x` (bit 0 is the least significant). */
  predicate Bit(x: nat, k: nat)
  {
    if k == 0 then x % 2 == 1 else Bit(x / 2, k - 1)
  }

  lemma {:induction false} Pow2Add(j: nat, k: nat)
    ensures Pow2(j + k) == Pow2(j) * Pow2(k)
  {
    if j > 0 {
      Pow2Add(j - 1, k);
    }
  }

  lemma Pow2Value64()
    ensures Pow2(64) == 0x1_0000_0000_0000_0000
  {
    assert Pow2(4) == 16;
    assert Pow2(8) == 16 * Pow2(4) by { Pow2Add(4, 4); }
    assert Pow2(16) == 256 * Pow2(8) by { Pow2Add(8, 8); }
    assert Pow2(32) == 0x1_0000 * Pow2(16) by { Pow2Add(16, 16); }
    assert Pow2(64) == Pow2(32) * Pow2(32) by { Pow2Add(32, 32); }
  }

  lemma {:induction false} Pow2Less(j: nat, k: nat)
    requires j < k
    ensures Pow2(j) < Pow2(k)
  {
    if j + 1 < k {
      Pow2Less(j, k - 1);
    }
  }

  lemma Pow2Word(k: nat)
    requires k < 64
    ensures Pow2(k) < 0x1_0000_0000_0000_0000
  {
    Pow2Less(k, 64);
    Pow2Value64();
  }

  lemma {:induction false} BitZero(k: nat)
    ensures !Bit(0, k)
  {
    if k > 0 {
      BitZero(k - 1);
    }
  }

  /** A number below `2^n` has no bit at or above `n`. */
  lemma {:induction false} BitHigh(x: nat, n: nat, k: nat)
    requires x < Pow2(n) && n <= k
    ensures !Bit(x, k)
  {
    if n > 0 {
      BitHigh(x / 2, n - 1, k - 1);
    } else {
      BitZero(k);
    }
  }

  /** Two numbers below `2^n` with the same `n` low bits are equal. */
  lemma {:induction false} BitsEqual(x: nat, y: nat, n: nat)
    requires x < Pow2(n) && y < Pow2(n)
    requires forall k :: 0 <= k < n ==> Bit(x, k) == Bit(y, k)
    ensures x == y
  {
    if n > 0 {
      forall k | 0 <= k < n - 1
        ensures Bit(x / 2, k) == Bit(y / 2, k)
      {
        assert Bit(x, k + 1) == Bit(y, k + 1);
      }
      assert Bit(x, 0) == Bit(y, 0);
      BitsEqual(x / 2, y / 2, n - 1);
    }
  }

  /** Zero is the only number below `2^n` with no set bit below `n`. */
  lemma ZeroBits(x: nat, n: nat)
    requires x < Pow2(n)
    ensures x == 0 ==> forall k :: 0 <= k < n ==> !Bit(x, k)
    ensures x != 0 ==> 0 <= Low(x) < n && Bit(x, Low(x))
  {
    if x == 0 {
      forall k | 0 <= k < n
        ensures !Bit(x, k)
      {
        BitZero(k);
      }
    } else {
      LowBound(x, n);
    }
  }

  /** `1 << j` has exactly bit `j`. */
  lemma {:induction false} BitPow2(j: nat, k: nat)
    ensures Bit(Pow2(j), k) == (j == k)
  {
    if j > 0 && k > 0 {
      BitPow2(j - 1, k - 1);
    } else if j > 0 {
      assert Pow2(j) % 2 == 0;
    } else if k > 0 {
      BitZero(k - 1);
    }
  }

  /** `(1 << j) - 1` has exactly the bits below `j`. */
  lemma {:induction false} BitBelow(j: nat, k: nat)
    ensures Bit(Pow2(j) - 1, k) == (k < j)
  {
    if j > 0 && k > 0 {
      assert (Pow2(j) - 1) / 2 == Pow2(j - 1) - 1;
      BitBelow(j - 1, k - 1);
    } else if k > 0 {
      BitZero(k - 1);
    }
  }

  // ---------------------------------------------------------------------------
  // Bitwise operators on n-bit numbers
  // ---------------------------------------------------------------------------

  datatype BinOp = AndOp | OrOp | XorOp

  function Apply(op: BinOp, a: bool, b: bool): bool
  {
    match op
    case AndOp => a && b
    case OrOp => a || b
    case XorOp => a != b
  }

  /** `op` applied bit by bit to the `n` low bits of `x` and `y`. */
  function Combine(op: BinOp, x: nat, y: nat, n: nat): (r: nat)
    ensures r < Pow2(n)
  {
    if n == 0 then 0
    else 2 * Combine(op, x / 2, y / 2, n - 1) + (if Apply(op, x % 2 == 1, y % 2 == 1) then 1 else 0)
  }

  /** The `n` low bits of `x`, each flipped. */
  function Complement(x: nat, n: nat): (r: nat)
    ensures r < Pow2(n)
  {
    if n == 0 then 0 else 2 * Complement(x / 2, n - 1) + (if x % 2 == 1 then 0 else 1)
  }

  lemma {:induction false} BitCombine(op: BinOp, x: nat, y: nat, n: nat, k: nat)
    requires k < n
    ensures Bit(Combine(op, x, y, n), k) == Apply(op, Bit(x, k), Bit(y, k))
  {
    if k > 0 {
      BitCombine(op, x / 2, y / 2, n - 1, k - 1);
    }
  }

  lemma {:induction false} BitComplement(x: nat, n: nat, k: nat)
    requires k < n
    ensures Bit(Complement(x, n), k) == !Bit(x, k)
  {
    if k > 0 {
      BitComplement(x / 2, n - 1, k - 1);
    }
  }

  /** `x & y` on `u64`. */
  function AndW(x: Word, y: Word): Word
  {
    Pow2Value64();
    Combine(AndOp, x, y, 64)
  }

  /** `x | y` on `u64`. */
  function OrW(x: Word, y: Word): Word
  {
    Pow2Value64();
    Combine(OrOp, x, y, 64)
  }

  /** `x ^ y` on `u64`. */
  function XorW(x: Word, y: Word): Word
  {
    Pow2Value64();
    Combine(XorOp, x, y, 64)
  }

  /** `!x` on `u64`. */
  function NotW(x: Word): Word
  {
    Pow2Value64();
    Complement(x, 64)
  }

  /** `1u64 << k`. */
  function Mask(k: nat): Word
    requires k < 64
  {
    Pow2Word(k);
    Pow2(k)
  }

  lemma BitOfAnd(x: Word, y: Word, k: nat)
    requires k < 64
    ensures Bit(AndW(x, y), k) == (Bit(x, k) && Bit(y, k))
  {
    BitCombine(AndOp, x, y, 64, k);
  }

  lemma BitOfOr(x: Word, y: Word, k: nat)
    requires k < 64
    ensures Bit(OrW(x, y), k) == (Bit(x, k) || Bit(y, k))
  {
    BitCombine(OrOp, x, y, 64, k);
  }

  lemma BitOfXor(x: Word, y: Word, k: nat)
    requires k < 64
    ensures Bit(XorW(x, y), k) == (Bit(x, k) != Bit(y, k))
  {
    BitCombine(XorOp, x, y, 64, k);
  }

  lemma BitOfNot(x: Word, k: nat)
    requires k < 64
    ensures Bit(NotW(x), k) == !Bit(x, k)
  {
    BitComplement(x, 64, k);
  }

  /** A word has no bit at or above 64. */
  lemma BitWordHigh(x: Word, k: nat)
    requires 64 <= k
    ensures !Bit(x, k)
  {
    Pow2Value64();
    BitHigh(x, 64, k);
  }

  /** Two words with the same 64 bits are equal. */
  lemma WordsEqual(x: Word, y: Word)
    requires forall k :: 0 <= k < 64 ==> Bit(x, k) == Bit(y, k)
    ensures x == y
  {
    Pow2Value64();
    BitsEqual(x, y, 64);
  }

  /** `ALLONE` has every bit of a word set. */
  lemma BitAllOne(k: nat)
    requires k < 64
    ensures Bit(AllOne, k)
  {
    Pow2Value64();
    BitBelow(64, k);
  }

  /** `w & mask != 0`, as `test` computes it, is bit `k` of `w`. */
  lemma AndMask(w: Word, k: nat)
    requires k < 64
    ensures AndW(w, Mask(k)) != 0 <==> Bit(w, k)
  {
    forall i | 0 <= i < 64
      ensures Bit(AndW(w, Mask(k)), i) == (Bit(w, k) && i == k)
    {
      BitOfAnd(w, Mask(k), i);
      BitPow2(k, i);
    }
    Pow2Value64();
    ZeroBits(AndW(w, Mask(k)), 64);
    if AndW(w, Mask(k)) == 0 {
      assert !Bit(AndW(w, Mask(k)), k);
    }
  }

  // ---------------------------------------------------------------------------
  // The lowest set bit, as `cur & !(cur - 1)` isolates it
  // ---------------------------------------------------------------------------

  /** The position of the lowest set bit of a non-zero number. */
  function Low(x: nat): (j: nat)
    requires x > 0
    ensures Bit(x, j)
  {
    if x % 2 == 1 then 0 else Low(x / 2) + 1
  }

  /** No bit below the lowest set bit is set. */
  lemma {:induction false} BelowLow(x: nat, k: nat)
    requires x > 0 && k < Low(x)
    ensures !Bit(x, k)
  {
    if k > 0 {
      BelowLow(x / 2, k - 1);
    }
  }

  /** The lowest set bit of a number below `2^n` is below `n`. */
  lemma {:induction false} LowBound(x: nat, n: nat)
    requires 0 < x < Pow2(n)
    ensures Low(x) < n
  {
    if x % 2 == 0 {
      LowBound(x / 2, n - 1);
    }
  }

  /** The lowest set bit of a word is one of its 64. */
  lemma LowWord(x: Word)
    requires x > 0
    ensures Low(x) < 64
  {
    Pow2Value64();
    LowBound(x, 64);
  }

  /** Subtracting one clears the lowest set bit and sets every bit below it. */
  lemma {:induction false} BitPred(x: nat, k: nat)
    requires x > 0
    ensures Bit(x - 1, k) == (k < Low(x) || (k > Low(x) && Bit(x, k)))
  {
    if k > 0 {
      if x % 2 == 1 {
        assert (x - 1) / 2 == x / 2;
      } else {
        assert (x - 1) / 2 == x / 2 - 1;
        BitPred(x / 2, k - 1);
      }
    }
  }

  /** `x & !(x - 1)` has exactly the lowest set bit of `x`. */
  lemma BitLowest(x: Word, k: nat)
    requires x > 0 && k < 64
    ensures Bit(AndW(x, NotW(x - 1)), k) == (k == Low(x))
  {
    BitOfAnd(x, NotW(x - 1), k);
    BitOfNot(x - 1, k);
    BitPred(x, k);
    if k < Low(x) {
      BelowLow(x, k);
    }
  }

  // ---------------------------------------------------------------------------
  // Counting set bits
  // ---------------------------------------------------------------------------

  /** The number of set bits of `x` below position `n`. */
  function CountBits(x: nat, n: nat): (c: nat)
    ensures c <= n
  {
    if n == 0 then 0 else (if x % 2 == 1 then 1 else 0) + CountBits(x / 2, n - 1)
  }

  /** The number of set bits of a word. */
  function Pop(w: Word): nat
  {
    CountBits(w, 64)
  }

  /** Numbers with the same low bits have the same count. */
  lemma {:induction false} CountSame(x: nat, y: nat, n: nat)
    requires forall k :: 0 <= k < n ==> Bit(x, k) == Bit(y, k)
    ensures CountBits(x, n) == CountBits(y, n)
  {
    if n > 0 {
      forall k | 0 <= k < n - 1
        ensures Bit(x / 2, k) == Bit(y / 2, k)
      {
        assert Bit(x, k + 1) == Bit(y, k + 1);
      }
      assert Bit(x, 0) == Bit(y, 0);
      CountSame(x / 2, y / 2, n - 1);
    }
  }

  /** Numbers whose low bits agree except at `j` have counts that differ by bit `j`. */
  lemma {:induction false} CountExcept(x: nat, y: nat, j: nat, n: nat)
    requires j < n
    requires forall k :: 0 <= k < n && k != j ==> Bit(x, k) == Bit(y, k)
    ensures CountBits(x, n) + (if Bit(y, j) then 1 else 0) == CountBits(y, n) + (if Bit(x, j) then 1 else 0)
  {
    forall k | 0 <= k < n - 1 && k + 1 != j
      ensures Bit(x / 2, k) == Bit(y / 2, k)
    {
      assert Bit(x, k + 1) == Bit(y, k + 1);
    }
    if j == 0 {
      CountSame(x / 2, y / 2, n - 1);
    } else {
      assert Bit(x, 0) == Bit(y, 0);
      assert Bit(x, j) == Bit(x / 2, j - 1) && Bit(y, j) == Bit(y / 2, j - 1);
      CountExcept(x / 2, y / 2, j - 1, n - 1);
    }
  }

  /** A number whose low `n` bits are exactly those below `j` has `j` of them. */
  lemma {:induction false} CountPrefix(x: nat, j: nat, n: nat)
    requires j <= n
    requires forall k :: 0 <= k < n ==> Bit(x, k) == (k < j)
    ensures CountBits(x, n) == j
  {
    if n > 0 {
      forall k | 0 <= k < n - 1
        ensures Bit(x / 2, k) == (k < j - 1)
      {
        assert Bit(x, k + 1) == (k + 1 < j);
      }
      assert Bit(x, 0) == (0 < j);
      CountPrefix(x / 2, if j == 0 then 0 else j - 1, n - 1);
    }
  }

  /** A number with a set bit below `n` has a positive count. */
  lemma {:induction false} CountSome(x: nat, j: nat, n: nat)
    requires j < n && Bit(x, j)
    ensures CountBits(x, n) > 0
  {
    if j > 0 {
      CountSome(x / 2, j - 1, n - 1);
    }
  }

  /** Zero, and only zero, has no set bits. */
  lemma PopZero(w: Word)
    ensures Pop(w) == 0 <==> w == 0
  {
    if w != 0 {
      LowWord(w);
      CountSome(w, Low(w), 64);
    } else {
      forall k | 0 <= k < 64
        ensures !Bit(0, k)
      {
        BitZero(k);
      }
      CountPrefix(0, 0, 64);
    }
  }

  /** Changing one bit of a word changes its count by one, or not at all. */
  lemma PopChange(x: Word, y: Word, j: nat)
    requires j < 64
    requires forall k :: 0 <= k < 64 && k != j ==> Bit(x, k) == Bit(y, k)
    ensures Pop(y) == Pop(x) - (if Bit(x, j) then 1 else 0) + (if Bit(y, j) then 1 else 0)
  {
    CountExcept(x, y, j, 64);
  }

  /** One step of `cardinality`'s inner loop removes exactly one set bit. */
  lemma PopLowest(x: Word)
    requires x != 0
    ensures Pop(XorW(x, AndW(x, NotW(x - 1)))) == Pop(x) - 1
  {
    LowWord(x);
    var y := XorW(x, AndW(x, NotW(x - 1)));
    forall k | 0 <= k < 64
      ensures Bit(y, k) == (Bit(x, k) && k != Low(x))
    {
      BitOfXor(x, AndW(x, NotW(x - 1)), k);
      BitLowest(x, k);
    }
    PopChange(x, y, Low(x));
  }

  // ---------------------------------------------------------------------------
  // A set as a sequence of words
  // ---------------------------------------------------------------------------

  /** `(size + N - 1) / N`, the number of words `new(size)` allocates. */
  function WordCount(size: nat): nat
  {
    (size + N - 1) / N
  }

  lemma WordCountMono(s: nat, t: nat)
    ensures s <= t ==> WordCount(s) <= WordCount(t)
  {
  }

  /** Position `idx` is in the set the words describe. */
  predicate Has(ws: seq<Word>, idx: nat)
  {
    idx / N < |ws| && Bit(ws[idx / N], idx % N)
  }

  /** Position `N * i + k` is bit `k` of word `i`. */
  lemma HasAt(ws: seq<Word>, i: nat, k: nat)
    requires i < |ws| && k < N
    ensures Has(ws, N * i + k) == Bit(ws[i], k)
  {
    assert (N * i + k) / N == i && (N * i + k) % N == k;
  }

  /** Word sequences of one length holding the same positions are equal. */
  lemma SameHas(ws: seq<Word>, vs: seq<Word>)
    requires |ws| == |vs|
    requires forall idx: nat :: Has(ws, idx) == Has(vs, idx)
    ensures ws == vs
  {
    forall i | 0 <= i < |ws|
      ensures ws[i] == vs[i]
    {
      forall k | 0 <= k < N
        ensures Bit(ws[i], k) == Bit(vs[i], k)
      {
        HasAt(ws, i, k);
        HasAt(vs, i, k);
      }
      WordsEqual(ws[i], vs[i]);
    }
  }

  /** `index_tuple`: the word holding position `idx`, and the mask of its bit there. */
  function IndexTuple(idx: nat): (r: (nat, Word))
    ensures r.0 == idx / N
    ensures forall k :: 0 <= k < N ==> Bit(r.1, k) == (k == idx % N)
  {
    var i := idx / N;
    var mask := Mask(idx - i * N);
    assert forall k :: 0 <= k < N ==> Bit(mask, k) == (k == idx % N) by {
      forall k | 0 <= k < N
        ensures Bit(mask, k) == (k == idx % N)
      {
        BitPow2(idx - i * N, k);
      }
    }
    (i, mask)
  }

  /** `words[i] |= mask`. */
  function SetWords(ws: seq<Word>, idx: nat): (vs: seq<Word>)
    requires idx / N < |ws|
    ensures |vs| == |ws|
  {
    var (i, mask) := IndexTuple(idx);
    ws[i := OrW(ws[i], mask)]
  }

  /** `words[i] &= !mask`. */
  function ClearWords(ws: seq<Word>, idx: nat): (vs: seq<Word>)
    requires idx / N < |ws|
    ensures |vs| == |ws|
  {
    var (i, mask) := IndexTuple(idx);
    ws[i := AndW(ws[i], NotW(mask))]
  }

  /** `words[i] ^= mask`. */
  function FlipWords(ws: seq<Word>, idx: nat): (vs: seq<Word>)
    requires idx / N < |ws|
    ensures |vs| == |ws|
  {
    var (i, mask) := IndexTuple(idx);
    ws[i := XorW(ws[i], mask)]
  }

  /** Positions in the same word as `idx` differ from it exactly in their bit. */
  lemma SameWord(idx: nat, j: nat)
    requires j / N == idx / N
    ensures j == idx <==> j % N == idx % N
  {
  }

  /** `set` adds `idx` and keeps every other position. */
  lemma HasSet(ws: seq<Word>, idx: nat, j: nat)
    requires idx / N < |ws|
    ensures Has(SetWords(ws, idx), j) == (j == idx || Has(ws, j))
  {
    var (i, mask) := IndexTuple(idx);
    if j / N == i {
      BitOfOr(ws[i], mask, j % N);
      SameWord(idx, j);
    }
  }

  /** `clear` removes `idx` and keeps every other position. */
  lemma HasClear(ws: seq<Word>, idx: nat, j: nat)
    requires idx / N < |ws|
    ensures Has(ClearWords(ws, idx), j) == (j != idx && Has(ws, j))
  {
    var (i, mask) := IndexTuple(idx);
    if j / N == i {
      BitOfAnd(ws[i], NotW(mask), j % N);
      BitOfNot(mask, j % N);
      SameWord(idx, j);
    }
  }

  /** `flip` toggles `idx` and keeps every other position. */
  lemma HasFlip(ws: seq<Word>, idx: nat, j: nat)
    requires idx / N < |ws|
    ensures Has(FlipWords(ws, idx), j) == (if j == idx then !Has(ws, j) else Has(ws, j))
  {
    var (i, mask) := IndexTuple(idx);
    if j / N == i {
      BitOfXor(ws[i], mask, j % N);
      SameWord(idx, j);
    }
  }

  /** `test`'s `words[i] & mask != 0` is membership of `idx`. */
  lemma TestHas(ws: seq<Word>, idx: nat)
    requires idx / N < |ws|
    ensures (AndW(ws[IndexTuple(idx).0], IndexTuple(idx).1) != 0) == Has(ws, idx)
  {
    var (i, mask) := IndexTuple(idx);
    assert mask == Mask(idx % N) by {
      forall k | 0 <= k < N
        ensures Bit(mask, k) == Bit(Mask(idx % N), k)
      {
        BitPow2(idx % N, k);
      }
      WordsEqual(mask, Mask(idx % N));
    }
    AndMask(ws[i], idx % N);
  }

  // ---------------------------------------------------------------------------
  // Cardinality
  // ---------------------------------------------------------------------------

  /** The number of set bits over all words, summed from the first word on. */
  function Card(ws: seq<Word>): nat
  {
    if |ws| == 0 then 0 else Card(ws[..|ws| - 1]) + Pop(ws[|ws| - 1])
  }

  /** Replacing one word changes the total by the difference of their counts. */
  lemma {:induction false} CardUpdate(ws: seq<Word>, i: nat, x: Word)
    requires i < |ws|
    ensures Card(ws[i := x]) == Card(ws) - Pop(ws[i]) + Pop(x)
  {
    var n := |ws|;
    if i == n - 1 {
      assert ws[i := x][..n - 1] == ws[..n - 1];
    } else {
      assert ws[i := x][..n - 1] == ws[..n - 1][i := x];
      CardUpdate(ws[..n - 1], i, x);
    }
  }

  /** One changed bit changes the total by one, or not at all. */
  lemma CardChange(ws: seq<Word>, idx: nat, x: Word)
    requires idx / N < |ws|
    requires forall k :: 0 <= k < N && k != idx % N ==> Bit(x, k) == Bit(ws[idx / N], k)
    ensures Card(ws[idx / N := x]) ==
            Card(ws) - (if Has(ws, idx) then 1 else 0) + (if Bit(x, idx % N) then 1 else 0)
  {
    CardUpdate(ws, idx / N, x);
    PopChange(ws[idx / N], x, idx % N);
  }

  lemma CardSet(ws: seq<Word>, idx: nat)
    requires idx / N < |ws|
    ensures Card(SetWords(ws, idx)) == Card(ws) + (if Has(ws, idx) then 0 else 1)
  {
    var (i, mask) := IndexTuple(idx);
    forall k | 0 <= k < N
      ensures Bit(OrW(ws[i], mask), k) == (Bit(ws[i], k) || k == idx % N)
    {
      BitOfOr(ws[i], mask, k);
    }
    CardChange(ws, idx, OrW(ws[i], mask));
  }

  lemma CardClear(ws: seq<Word>, idx: nat)
    requires idx / N < |ws|
    ensures Card(ClearWords(ws, idx)) == Card(ws) - (if Has(ws, idx) then 1 else 0)
  {
    var (i, mask) := IndexTuple(idx);
    forall k | 0 <= k < N
      ensures Bit(AndW(ws[i], NotW(mask)), k) == (Bit(ws[i], k) && k != idx % N)
    {
      BitOfAnd(ws[i], NotW(mask), k);
      BitOfNot(mask, k);
    }
    CardChange(ws, idx, AndW(ws[i], NotW(mask)));
  }

  lemma CardFlip(ws: seq<Word>, idx: nat)
    requires idx / N < |ws|
    ensures Card(FlipWords(ws, idx)) == if Has(ws, idx) then Card(ws) - 1 else Card(ws) + 1
  {
    var (i, mask) := IndexTuple(idx);
    forall k | 0 <= k < N
      ensures Bit(XorW(ws[i], mask), k) == (Bit(ws[i], k) != (k == idx % N))
    {
      BitOfXor(ws[i], mask, k);
    }
    CardChange(ws, idx, XorW(ws[i], mask));
  }

  // ---------------------------------------------------------------------------
  // The empty and the full set
  // ---------------------------------------------------------------------------

  /** `n` zero words. */
  function Zeros(n: nat): (ws: seq<Word>)
    ensures |ws| == n
  {
    seq(n, _ => 0)
  }

  lemma HasZeros(n: nat, idx: nat)
    ensures !Has(Zeros(n), idx)
  {
    BitZero(idx % N);
  }

  lemma {:induction false} CardZeros(n: nat)
    ensures Card(Zeros(n)) == 0
  {
    if n > 0 {
      assert Zeros(n)[..n - 1] == Zeros(n - 1);
      CardZeros(n - 1);
      PopZero(0);
    }
  }

  /** `last_mask`: the bits of the last word that lie below `size`. */
  function LastMask(size: nat, len: nat): Word
    requires 0 < size && len == WordCount(size)
  {
    var diff := len * N - size;
    var mask := Mask(N - 1 - diff);
    OrW(mask, mask - 1)
  }

  lemma BitLastMask(size: nat, len: nat, k: nat)
    requires 0 < size && len == WordCount(size) && k < N
    ensures Bit(LastMask(size, len), k) == (N * (len - 1) + k < size)
  {
    var diff := len * N - size;
    var mask := Mask(N - 1 - diff);
    BitOfOr(mask, mask - 1, k);
    BitPow2(N - 1 - diff, k);
    BitBelow(N - 1 - diff, k);
  }

  /** The words of `size` positions, all of them set: what `set_all` leaves. */
  function Full(size: nat): (ws: seq<Word>)
    requires 0 < size
    ensures |ws| == WordCount(size)
  {
    var len := WordCount(size);
    seq(len, i requires 0 <= i < len => FullWord(size, len, i))
  }

  function FullWord(size: nat, len: nat, i: nat): Word
    requires 0 < size && len == WordCount(size)
  {
    if i == len - 1 then LastMask(size, len) else AllOne
  }

  lemma FullHas(size: nat, idx: nat)
    requires 0 < size
    ensures Has(Full(size), idx) == (idx < size)
  {
    var len := WordCount(size);
    if idx / N < len - 1 {
      BitAllOne(idx % N);
    } else if idx / N == len - 1 {
      BitLastMask(size, len, idx % N);
    }
  }

  /** A set of `size` positions equals `Full(size)` exactly when it holds all of them. */
  lemma FullExactly(ws: seq<Word>, size: nat)
    requires 0 < size && |ws| == WordCount(size)
    ensures ws == Full(size) <==> forall idx: nat :: Has(ws, idx) == (idx < size)
  {
    forall idx: nat
      ensures Has(Full(size), idx) == (idx < size)
    {
      FullHas(size, idx);
    }
    if forall idx: nat :: Has(ws, idx) == (idx < size) {
      SameHas(ws, Full(size));
    }
  }

  lemma {:induction false} CardAllOne(ws: seq<Word>)
    requires forall i :: 0 <= i < |ws| ==> ws[i] == AllOne
    ensures Card(ws) == N * |ws|
  {
    if |ws| > 0 {
      CardAllOne(ws[..|ws| - 1]);
      forall k | 0 <= k < N
        ensures Bit(AllOne, k) == (k < N)
      {
        BitAllOne(k);
      }
      CountPrefix(AllOne, N, N);
    }
  }

  /** `set_all` leaves `size` positions set. */
  lemma CardFull(size: nat)
    requires 0 < size
    ensures Card(Full(size)) == size
  {
    var len := WordCount(size);
    var ws := Full(size);
    CardAllOne(ws[..len - 1]);
    forall k | 0 <= k < N
      ensures Bit(LastMask(size, len), k) == (k < size - N * (len - 1))
    {
      BitLastMask(size, len, k);
    }
    CountPrefix(LastMask(size, len), size - N * (len - 1), N);
  }

  // ---------------------------------------------------------------------------
  // `clear_unused`, `!`, `&`, `|`, `^` on word sequences
  // ---------------------------------------------------------------------------

  /** `clear_unused`: the last word keeps only its bits below `size`. */
  function ClearUnusedWords(ws: seq<Word>, size: nat): (vs: seq<Word>)
    requires 0 < size && |ws| == WordCount(size)
    ensures |vs| == |ws|
  {
    var len := |ws|;
    ws[len - 1 := AndW(ws[len - 1], LastMask(size, len))]
  }

  lemma HasClearUnused(ws: seq<Word>, size: nat, idx: nat)
    requires 0 < size && |ws| == WordCount(size)
    ensures Has(ClearUnusedWords(ws, size), idx) == (idx < size && Has(ws, idx))
  {
    var len := |ws|;
    if idx / N == len - 1 {
      BitOfAnd(ws[len - 1], LastMask(size, len), idx % N);
      BitLastMask(size, len, idx % N);
    }
  }

  /** Every word complemented. */
  function NotAll(ws: seq<Word>): (vs: seq<Word>)
    ensures |vs| == |ws|
  {
    seq(|ws|, i requires 0 <= i < |ws| => NotW(ws[i]))
  }

  /** `impl Not`: every word complemented, then the unused bits cleared. */
  function NotWords(ws: seq<Word>, size: nat): (vs: seq<Word>)
    requires 0 < size && |ws| == WordCount(size)
    ensures |vs| == |ws|
  {
    ClearUnusedWords(NotAll(ws), size)
  }

  /** The complement holds exactly the positions below `size` that the set lacks. */
  lemma HasNot(ws: seq<Word>, size: nat, idx: nat)
    requires 0 < size && |ws| == WordCount(size)
    ensures Has(NotWords(ws, size), idx) == (idx < size && !Has(ws, idx))
  {
    HasClearUnused(NotAll(ws), size, idx);
    if idx / N < |ws| {
      BitOfNot(ws[idx / N], idx % N);
    }
  }

  /** If `x` holds exactly the positions below `r` that `y` lacks, and `y` holds none
      at or above `r`, their counts add up to `r`. */
  lemma {:induction false} CountComplement(x: nat, y: nat, r: nat, n: nat)
    requires r <= n
    requires forall k :: 0 <= k < n ==> Bit(x, k) == (k < r && !Bit(y, k))
    requires forall k :: 0 <= k < n && Bit(y, k) ==> k < r
    ensures CountBits(x, n) + CountBits(y, n) == r
  {
    if n > 0 {
      forall k | 0 <= k < n - 1
        ensures Bit(x / 2, k) == (k < r - 1 && !Bit(y / 2, k))
        ensures Bit(y / 2, k) ==> k < r - 1
      {
        assert Bit(x, k + 1) == (k + 1 < r && !Bit(y, k + 1));
        assert Bit(y, k + 1) ==> k + 1 < r;
      }
      assert Bit(x, 0) == (0 < r && !Bit(y, 0));
      assert Bit(y, 0) ==> 0 < r;
      CountComplement(x / 2, y / 2, if r == 0 then 0 else r - 1, n - 1);
    }
  }

  /** The set holds no position at or above `size`, as `set_all`, `!` and `new` leave
      it. */
  ghost predicate Clean(ws: seq<Word>, size: nat)
  {
    forall idx: nat :: Has(ws, idx) ==> idx < size
  }

  lemma {:induction false} CardNotAll(ws: seq<Word>)
    ensures Card(NotAll(ws)) + Card(ws) == N * |ws|
  {
    var n := |ws|;
    if n > 0 {
      var w := ws[n - 1];
      var v := NotW(w);
      assert NotAll(ws)[..n - 1] == NotAll(ws[..n - 1]);
      assert NotAll(ws)[n - 1] == v;
      CardNotAll(ws[..n - 1]);
      forall k | 0 <= k < N
        ensures Bit(v, k) == !Bit(w, k)
      {
        BitOfNot(w, k);
      }
      CountComplement(v, w, N, N);
    }
  }

  /** The last word of `!` is the complemented last word, masked. */
  lemma NotWordsLast(ws: seq<Word>, size: nat)
    requires 0 < size && |ws| == WordCount(size)
    ensures |ws| > 0
    ensures NotWords(ws, size)[|ws| - 1] == AndW(NotW(ws[|ws| - 1]), LastMask(size, |ws|))
  {
    var len := |ws|;
    assert NotAll(ws)[len - 1] == NotW(ws[len - 1]);
  }

  /** The last word of `!`: the positions below `size` the last word lacks. */
  lemma LastNotBit(ws: seq<Word>, size: nat, k: nat)
    requires 0 < size && |ws| == WordCount(size) && Clean(ws, size) && k < N
    ensures Bit(NotWords(ws, size)[|ws| - 1], k)
            == (N * (|ws| - 1) + k < size && !Bit(ws[|ws| - 1], k))
    ensures Bit(ws[|ws| - 1], k) ==> N * (|ws| - 1) + k < size
  {
    var len := |ws|;
    var last := ws[len - 1];
    NotWordsLast(ws, size);
    BitOfAnd(NotW(last), LastMask(size, len), k);
    BitOfNot(last, k);
    BitLastMask(size, len, k);
    HasAt(ws, len - 1, k);
  }

  /** On a set with no position at or above `size`, `!` leaves `size - cardinality`
      positions. */
  lemma CardNot(ws: seq<Word>, size: nat)
    requires 0 < size && |ws| == WordCount(size) && Clean(ws, size)
    ensures Card(NotWords(ws, size)) == size - Card(ws)
  {
    var len := |ws|;
    var nots := NotWords(ws, size);
    LastNotCount(ws, size);
    assert nots[..len - 1] == NotAll(ws[..len - 1]);
    CardNotAll(ws[..len - 1]);
  }

  lemma LastNotCount(ws: seq<Word>, size: nat)
    requires 0 < size && |ws| == WordCount(size) && Clean(ws, size)
    ensures Pop(NotWords(ws, size)[|ws| - 1]) + Pop(ws[|ws| - 1]) == size - N * (|ws| - 1)
  {
    var len := |ws|;
    var r: nat := size - N * (len - 1);
    var last := ws[len - 1];
    var x := NotWords(ws, size)[len - 1];
    forall k | 0 <= k < N
      ensures Bit(x, k) == (k < r && !Bit(last, k))
      ensures Bit(last, k) ==> k < r
    {
      LastNotBit(ws, size, k);
    }
    CountComplement(x, last, r, N);
  }

  /** `copy_larger`: the operand whose `size` is larger, the right one on a tie. */
  function Larger(a: seq<Word>, asz: nat, b: seq<Word>, bsz: nat): seq<Word>
  {
    if asz > bsz then a else b
  }

  /** `impl BitOr`: a copy of the larger operand with the common words or-ed. */
  function OrWords(a: seq<Word>, asz: nat, b: seq<Word>, bsz: nat): (vs: seq<Word>)
    ensures |vs| == |Larger(a, asz, b, bsz)|
  {
    var base := Larger(a, asz, b, bsz);
    seq(|base|, i requires 0 <= i < |base| => if i < |a| && i < |b| then OrW(a[i], b[i]) else base[i])
  }

  /** `impl BitXor`: a copy of the larger operand with the common words xor-ed. */
  function XorWords(a: seq<Word>, asz: nat, b: seq<Word>, bsz: nat): (vs: seq<Word>)
    ensures |vs| == |Larger(a, asz, b, bsz)|
  {
    var base := Larger(a, asz, b, bsz);
    seq(|base|, i requires 0 <= i < |base| => if i < |a| && i < |b| then XorW(a[i], b[i]) else base[i])
  }

  /** `impl BitAnd` as intended: a new set of the larger size with the common words
      and-ed. */
  function AndWords(a: seq<Word>, asz: nat, b: seq<Word>, bsz: nat): (vs: seq<Word>)
    ensures |vs| == WordCount(if asz > bsz then asz else bsz)
  {
    var cnt := WordCount(if asz > bsz then asz else bsz);
    seq(cnt, i requires 0 <= i < cnt => if i < |a| && i < |b| then AndW(a[i], b[i]) else 0)
  }

  /** `impl BitAnd` as written: the loop runs to `min(self.words.len(), self.words.len())`,
      so a left operand with more words than the right one indexes past the right
      one's end and panics (`None`). */
  function AndAsWritten(a: seq<Word>, asz: nat, b: seq<Word>, bsz: nat): (r: Option<seq<Word>>)
    requires |a| == WordCount(asz)
  {
    var cnt := if |a| < |a| then |a| else |a|;
    var len := WordCount(if asz > bsz then asz else bsz);
    if |b| < cnt then None
    else
      WordCountMono(asz, if asz > bsz then asz else bsz);
      Some(seq(len, i requires 0 <= i < len => if i < cnt then AndW(a[i], b[i]) else 0))
  }

  /** The union holds exactly the positions of either operand. */
  lemma HasOr(a: seq<Word>, asz: nat, b: seq<Word>, bsz: nat, idx: nat)
    requires |a| == WordCount(asz) && |b| == WordCount(bsz)
    ensures Has(OrWords(a, asz, b, bsz), idx) == (Has(a, idx) || Has(b, idx))
  {
    WordCountMono(asz, bsz);
    WordCountMono(bsz, asz);
    var i := idx / N;
    if i < |a| && i < |b| {
      BitOfOr(a[i], b[i], idx % N);
    }
  }

  /** The symmetric difference holds exactly the positions of one operand only. */
  lemma HasXor(a: seq<Word>, asz: nat, b: seq<Word>, bsz: nat, idx: nat)
    requires |a| == WordCount(asz) && |b| == WordCount(bsz)
    ensures Has(XorWords(a, asz, b, bsz), idx) == (Has(a, idx) != Has(b, idx))
  {
    WordCountMono(asz, bsz);
    WordCountMono(bsz, asz);
    var i := idx / N;
    if i < |a| && i < |b| {
      BitOfXor(a[i], b[i], idx % N);
    }
  }

  /** The intersection holds exactly the positions of both operands. */
  lemma HasAnd(a: seq<Word>, asz: nat, b: seq<Word>, bsz: nat, idx: nat)
    requires |a| == WordCount(asz) && |b| == WordCount(bsz)
    ensures Has(AndWords(a, asz, b, bsz), idx) == (Has(a, idx) && Has(b, idx))
  {
    WordCountMono(asz, if asz > bsz then asz else bsz);
    WordCountMono(bsz, if asz > bsz then asz else bsz);
    var i := idx / N;
    if i < |a| && i < |b| {
      BitOfAnd(a[i], b[i], idx % N);
    } else if i < WordCount(if asz > bsz then asz else bsz) {
      BitZero(idx % N);
    }
  }

  /** As written, `&` agrees with the intended one whenever the left operand has no
      more words than the right one. */
  lemma AndAsWrittenAgrees(a: seq<Word>, asz: nat, b: seq<Word>, bsz: nat)
    requires |a| == WordCount(asz) && |b| == WordCount(bsz) && |a| <= |b|
    ensures AndAsWritten(a, asz, b, bsz) == Some(AndWords(a, asz, b, bsz))
  {
    WordCountMono(asz, if asz > bsz then asz else bsz);
    var len := WordCount(if asz > bsz then asz else bsz);
    var r := AndAsWritten(a, asz, b, bsz);
    assert r.Some? && |r.value| == len;
    forall i | 0 <= i < len
      ensures r.value[i] == AndWords(a, asz, b, bsz)[i]
    {
    }
    assert r.value == AndWords(a, asz, b, bsz);
  }

  /** As written, `BitSet::new(128) & BitSet::new(64)` reads `rhs.words[1]`, past the
      end of the right operand's single word. */
  lemma AndAsWrittenPanics()
    ensures WordCount(128) == 2 && WordCount(64) == 1
    ensures AndAsWritten(Zeros(2), 128, Zeros(1), 64) == None
    ensures forall idx: nat :: !Has(AndWords(Zeros(2), 128, Zeros(1), 64), idx)
  {
    forall idx: nat
      ensures !Has(AndWords(Zeros(2), 128, Zeros(1), 64), idx)
    {
      HasAnd(Zeros(2), 128, Zeros(1), 64, idx);
      HasZeros(2, idx);
    }
  }

  // ---------------------------------------------------------------------------
  // The `BitSet` struct
  // ---------------------------------------------------------------------------

  class BitSet {
    var size: nat
    var words: seq<Word>

    /** `new` allocates one word per 64 positions, and no operation changes that. */
    ghost predicate Valid()
      reads this
    {
      |words| == WordCount(size)
    }

    /** `BitSet::new`: `size` positions, none of them set. */
    constructor (size: nat)
      ensures Valid() && this.size == size && words == Zeros(WordCount(size))
    {
      this.size := size;
      words := Zeros(WordCount(size));
    }

    /** `clone`. */
    constructor Clone(other: BitSet)
      ensures size == other.size && words == other.words
    {
      size := other.size;
      words := other.words;
    }

    /** `clear_all`: every word becomes zero. */
    method ClearAll()
      modifies this
      ensures size == old(size) && words == Zeros(|old(words)|)
    {
      var i := 0;
      while i < |words|
        invariant 0 <= i <= |words| == |old(words)| && size == old(size)
        invariant forall j :: 0 <= j < i ==> words[j] == 0
      {
        words := words[i := 0];
        i := i + 1;
      }
      assert words == Zeros(|words|);
    }

    /** `set_all`: every word becomes `ALLONE`, then the unused bits are cleared. The
        source's `len - 1` underflows on a set of size 0. */
    method SetAll()
      requires Valid() && size > 0
      modifies this
      ensures Valid() && size == old(size) && words == Full(size)
    {
      var i := 0;
      while i < |words|
        invariant 0 <= i <= |words| == WordCount(size) && size == old(size)
        invariant forall j :: 0 <= j < i ==> words[j] == AllOne
      {
        words := words[i := AllOne];
        i := i + 1;
      }
      ClearUnused();
      var len := |words|;
      forall k | 0 <= k < N
        ensures Bit(AndW(AllOne, LastMask(size, len)), k) == Bit(LastMask(size, len), k)
      {
        BitOfAnd(AllOne, LastMask(size, len), k);
        BitAllOne(k);
      }
      WordsEqual(AndW(AllOne, LastMask(size, len)), LastMask(size, len));
      assert words == Full(size);
    }

    /** `set`: the word holding `idx` gets its bit or-ed in. */
    method Set(idx: nat)
      requires idx / N < |words|
      modifies this
      ensures size == old(size) && words == SetWords(old(words), idx)
      ensures forall j: nat :: Has(words, j) == (j == idx || Has(old(words), j))
    {
      var (i, mask) := IndexTuple(idx);
      words := words[i := OrW(words[i], mask)];
      forall j: nat
        ensures Has(words, j) == (j == idx || Has(old(words), j))
      {
        HasSet(old(words), idx, j);
      }
    }

    /** `clear`: the word holding `idx` gets its bit masked out. */
    method Clear(idx: nat)
      requires idx / N < |words|
      modifies this
      ensures size == old(size) && words == ClearWords(old(words), idx)
      ensures forall j: nat :: Has(words, j) == (j != idx && Has(old(words), j))
    {
      var (i, mask) := IndexTuple(idx);
      words := words[i := AndW(words[i], NotW(mask))];
      forall j: nat
        ensures Has(words, j) == (j != idx && Has(old(words), j))
      {
        HasClear(old(words), idx, j);
      }
    }

    /** `flip`: the bit of `idx` is toggled, and its new value returned. */
    method Flip(idx: nat) returns (b: bool)
      requires idx / N < |words|
      modifies this
      ensures size == old(size) && words == FlipWords(old(words), idx)
      ensures b == Has(words, idx) && b == !Has(old(words), idx)
      ensures forall j: nat :: j != idx ==> Has(words, j) == Has(old(words), j)
    {
      var (i, mask) := IndexTuple(idx);
      words := words[i := XorW(words[i], mask)];
      forall j: nat
        ensures Has(words, j) == (if j == idx then !Has(old(words), j) else Has(old(words), j))
      {
        HasFlip(old(words), idx, j);
      }
      b := AndW(words[i], mask) != 0;
      TestHas(words, idx);
    }

    /** `test` (and `Index`): whether `idx` is in the set. */
    function Test(idx: nat): (b: bool)
      reads this
      requires idx / N < |words|
      ensures b == Has(words, idx)
    {
      var (i, mask) := IndexTuple(idx);
      TestHas(words, idx);
      AndW(words[i], mask) != 0
    }

    /** `cardinality`: for every word, the lowest set bit is removed until none is left,
        counting the steps. */
    method Cardinality() returns (cnt: nat)
      ensures cnt == Card(words)
    {
      cnt := 0;
      var i := 0;
      while i < |words|
        invariant 0 <= i <= |words|
        invariant cnt == Card(words[..i])
      {
        var cur := words[i];
        while cur != 0
          invariant cnt + Pop(cur) == Card(words[..i]) + Pop(words[i])
          decreases Pop(cur)
        {
          var y := AndW(cur, NotW(cur - 1));
          PopLowest(cur);
          cur := XorW(cur, y);
          cnt := cnt + 1;
        }
        PopZero(cur);
        assert words[..i + 1][..i] == words[..i];
        i := i + 1;
      }
      assert words[..i] == words;
    }

    /** `all1`: every word but the last is `ALLONE` and the last is `last_mask()`. The
        source's `len - 1` underflows on a set of size 0. */
    method All1() returns (b: bool)
      requires Valid() && size > 0
      ensures b <==> words == Full(size)
    {
      var len := |words|;
      var i := 0;
      while i < len - 1
        invariant 0 <= i <= len - 1
        invariant forall j :: 0 <= j < i ==> words[j] == AllOne
      {
        if words[i] != AllOne {
          assert Full(size)[i] == AllOne;
          return false;
        }
        i := i + 1;
      }
      b := words[len - 1] == LastMask(size, len);
      if b {
        assert forall j :: 0 <= j < len ==> words[j] == Full(size)[j];
      } else {
        assert Full(size)[len - 1] == LastMask(size, len);
      }
    }

    /** `all0`: every word is zero, that is, no position is set. */
    method All0() returns (b: bool)
      ensures b <==> forall idx: nat :: !Has(words, idx)
    {
      var i := 0;
      while i < |words|
        invariant 0 <= i <= |words|
        invariant forall j :: 0 <= j < i ==> words[j] == 0
      {
        if words[i] != 0 {
          NonZeroHas(words, i);
          return false;
        }
        i := i + 1;
      }
      forall idx: nat
        ensures !Has(words, idx)
      {
        BitZero(idx % N);
      }
      return true;
    }

    /** `any1`: some word is non-zero, that is, some position is set. */
    method Any1() returns (b: bool)
      ensures b <==> exists idx: nat :: Has(words, idx)
    {
      var i := 0;
      while i < |words|
        invariant 0 <= i <= |words|
        invariant forall j :: 0 <= j < i ==> words[j] == 0
      {
        if words[i] != 0 {
          NonZeroHas(words, i);
          return true;
        }
        i := i + 1;
      }
      forall idx: nat
        ensures !Has(words, idx)
      {
        BitZero(idx % N);
      }
      return false;
    }

    /** `clear_unused`: the last word is masked with `last_mask()`. */
    method ClearUnused()
      requires Valid() && size > 0
      modifies this
      ensures Valid() && size == old(size) && words == ClearUnusedWords(old(words), size)
    {
      var len := |words|;
      words := words[len - 1 := AndW(words[len - 1], LastMask(size, len))];
    }

    /** `impl Not`: a clone with every word complemented and the unused bits cleared.
        The source's `clear_unused` underflows on a set of size 0. */
    method Not() returns (r: BitSet)
      requires Valid() && size > 0
      ensures fresh(r) && r.Valid() && r.size == size && r.words == NotWords(words, size)
    {
      r := new BitSet.Clone(this);
      var i := 0;
      while i < |words|
        invariant 0 <= i <= |words| == |r.words|
        invariant r.size == size
        invariant forall j :: 0 <= j < i ==> r.words[j] == NotW(words[j])
      {
        r.words := r.words[i := NotW(words[i])];
        i := i + 1;
      }
      assert r.words == NotAll(words);
      r.ClearUnused();
    }

    /** `impl BitAnd`, with the loop bound taken from both operands: a new set of the
        larger size holding the and of the common words. */
    method BitAnd(rhs: BitSet) returns (r: BitSet)
      requires Valid() && rhs.Valid()
      ensures fresh(r) && r.Valid() && r.size == (if size > rhs.size then size else rhs.size)
      ensures r.words == AndWords(words, size, rhs.words, rhs.size)
    {
      var sz := if size > rhs.size then size else rhs.size;
      var cnt := if |words| < |rhs.words| then |words| else |rhs.words|;
      r := new BitSet(sz);
      WordCountMono(size, sz);
      var i := 0;
      while i < cnt
        invariant 0 <= i <= cnt && |r.words| == WordCount(sz) && r.size == sz
        invariant forall j :: 0 <= j < i ==> r.words[j] == AndW(words[j], rhs.words[j])
        invariant forall j :: i <= j < |r.words| ==> r.words[j] == 0
      {
        r.words := r.words[i := AndW(words[i], rhs.words[i])];
        i := i + 1;
      }
      assert r.words == AndWords(words, size, rhs.words, rhs.size);
    }

    /** `copy_larger`: a clone of the operand with the larger size, the right one on a
        tie. */
    static method CopyLarger(lhs: BitSet, rhs: BitSet) returns (r: BitSet)
      ensures fresh(r)
      ensures r.size == (if lhs.size > rhs.size then lhs.size else rhs.size)
      ensures r.words == Larger(lhs.words, lhs.size, rhs.words, rhs.size)
    {
      if lhs.size > rhs.size {
        r := new BitSet.Clone(lhs);
      } else {
        r := new BitSet.Clone(rhs);
      }
    }

    /** `impl BitOr`: a copy of the larger operand with the common words or-ed. */
    method BitOr(rhs: BitSet) returns (r: BitSet)
      requires Valid() && rhs.Valid()
      ensures fresh(r) && r.Valid() && r.size == (if size > rhs.size then size else rhs.size)
      ensures r.words == OrWords(words, size, rhs.words, rhs.size)
    {
      r := CopyLarger(this, rhs);
      WordCountMono(size, rhs.size);
      WordCountMono(rhs.size, size);
      var base := r.words;
      var cnt := if |words| < |rhs.words| then |words| else |rhs.words|;
      var i := 0;
      while i < cnt
        invariant 0 <= i <= cnt && |r.words| == |base|
        invariant r.size == (if size > rhs.size then size else rhs.size)
        invariant forall j :: 0 <= j < i ==> r.words[j] == OrW(words[j], rhs.words[j])
        invariant forall j :: i <= j < |r.words| ==> r.words[j] == base[j]
      {
        r.words := r.words[i := OrW(words[i], rhs.words[i])];
        i := i + 1;
      }
      assert r.words == OrWords(words, size, rhs.words, rhs.size);
    }

    /** `impl BitXor`: a copy of the larger operand with the common words xor-ed. */
    method BitXor(rhs: BitSet) returns (r: BitSet)
      requires Valid() && rhs.Valid()
      ensures fresh(r) && r.Valid() && r.size == (if size > rhs.size then size else rhs.size)
      ensures r.words == XorWords(words, size, rhs.words, rhs.size)
    {
      r := CopyLarger(this, rhs);
      WordCountMono(size, rhs.size);
      WordCountMono(rhs.size, size);
      var base := r.words;
      var cnt := if |words| < |rhs.words| then |words| else |rhs.words|;
      var i := 0;
      while i < cnt
        invariant 0 <= i <= cnt && |r.words| == |base|
        invariant r.size == (if size > rhs.size then size else rhs.size)
        invariant forall j :: 0 <= j < i ==> r.words[j] == XorW(words[j], rhs.words[j])
        invariant forall j :: i <= j < |r.words| ==> r.words[j] == base[j]
      {
        r.words := r.words[i := XorW(words[i], rhs.words[i])];
        i := i + 1;
      }
      assert r.words == XorWords(words, size, rhs.words, rhs.size);
    }

    /** `impl BitAndAssign`: `*self = self.clone() & rhs`. */
    method BitAndAssign(rhs: BitSet)
      requires Valid() && rhs.Valid()
      modifies this
      ensures Valid() && size == (if old(size) > old(rhs.size) then old(size) else old(rhs.size))
      ensures words == AndWords(old(words), old(size), old(rhs.words), old(rhs.size))
    {
      var r := BitAnd(rhs);
      size, words := r.size, r.words;
    }

    /** `impl BitOrAssign`: `*self = self.clone() | rhs`. */
    method BitOrAssign(rhs: BitSet)
      requires Valid() && rhs.Valid()
      modifies this
      ensures Valid() && size == (if old(size) > old(rhs.size) then old(size) else old(rhs.size))
      ensures words == OrWords(old(words), old(size), old(rhs.words), old(rhs.size))
    {
      var r := BitOr(rhs);
      size, words := r.size, r.words;
    }

    /** `impl BitXorAssign`: `*self = self.clone() ^ rhs`. */
    method BitXorAssign(rhs: BitSet)
      requires Valid() && rhs.Valid()
      modifies this
      ensures Valid() && size == (if old(size) > old(rhs.size) then old(size) else old(rhs.size))
      ensures words == XorWords(old(words), old(size), old(rhs.words), old(rhs.size))
    {
      var r := BitXor(rhs);
      size, words := r.size, r.words;
    }
  }

  /** A non-zero word puts some position of its range in the set. */
  lemma NonZeroHas(ws: seq<Word>, i: nat)
    requires i < |ws| && ws[i] != 0
    ensures Has(ws, N * i + Low(ws[i]))
  {
    LowWord(ws[i]);
    HasAt(ws, i, Low(ws[i]));
  }

  // ---------------------------------------------------------------------------
  // The unit tests, on the word sequences the operations produce
  // ---------------------------------------------------------------------------

  /** `test_create`: a fresh set of 66 positions has two zero words; it is empty, not
      full, and its cardinality is 0. */
  lemma TestCreate()
    ensures WordCount(66) == 2
    ensures forall idx: nat :: !Has(Zeros(2), idx)
    ensures Zeros(2) != Full(66)
    ensures Card(Zeros(2)) == 0
  {
    forall idx: nat
      ensures !Has(Zeros(2), idx)
    {
      HasZeros(2, idx);
    }
    FullHas(66, 0);
    CardZeros(2);
  }

  /** `test_ops`, after `clear(0)` and `clear(99)` on a full set of 100. */
  function Cleared(): seq<Word>
  {
    var full := Full(100);
    assert |full| == 2;
    var once := ClearWords(full, 0);
    ClearWords(once, 99)
  }

  /** `test_ops`: `set_all` on 100 positions gives cardinality 100 with every position
      set. */
  lemma TestOpsSetAll()
    ensures WordCount(100) == 2
    ensures Card(Full(100)) == 100 && forall i: nat :: i < 100 ==> Has(Full(100), i)
  {
    CardFull(100);
    forall i: nat | i < 100
      ensures Has(Full(100), i)
    {
      FullHas(100, i);
    }
  }

  /** `test_ops`: clearing 0 and 99 leaves 98 positions with 1 still set, so the set is
      neither empty nor full. */
  lemma TestOpsClear()
    ensures !Has(Cleared(), 0) && !Has(Cleared(), 99) && Has(Cleared(), 1)
    ensures Card(Cleared()) == 98 && Cleared() != Full(100)
  {
    var full := Full(100);
    CardFull(100);
    FullHas(100, 0);
    FullHas(100, 1);
    FullHas(100, 99);
    var once := ClearWords(full, 0);
    HasClear(full, 0, 0);
    HasClear(full, 0, 99);
    HasClear(full, 0, 1);
    CardClear(full, 0);
    HasClear(once, 99, 0);
    HasClear(once, 99, 99);
    HasClear(once, 99, 1);
    CardClear(once, 99);
  }

  /** `test_ops`: flipping 1 returns false and leaves 97; `clear_all` then empties the
      set, which is not full. */
  lemma TestOpsFlip()
    ensures !Has(FlipWords(Cleared(), 1), 1) && Card(FlipWords(Cleared(), 1)) == 97
    ensures Card(Zeros(2)) == 0 && Zeros(2) != Full(100)
  {
    TestOpsClear();
    HasFlip(Cleared(), 1, 1);
    CardFlip(Cleared(), 1);
    CardZeros(2);
    HasZeros(2, 0);
    FullHas(100, 0);
  }

  /** `bita` of `test_operations`: positions 0, 2 and 3 of 4. */
  function TestA(): seq<Word>
  {
    SetWords(SetWords(SetWords(Zeros(1), 0), 2), 3)
  }

  /** `bitb` of `test_operations`: position 1 of 8. */
  function TestB(): seq<Word>
  {
    SetWords(Zeros(1), 1)
  }

  lemma TestMembers(i: nat)
    ensures |TestA()| == WordCount(4) && |TestB()| == WordCount(8)
    ensures Has(TestA(), i) == (i == 0 || i == 2 || i == 3)
    ensures Has(TestB(), i) == (i == 1)
  {
    HasZeros(1, i);
    HasSet(Zeros(1), 0, i);
    HasSet(SetWords(Zeros(1), 0), 2, i);
    HasSet(SetWords(SetWords(Zeros(1), 0), 2), 3, i);
    HasSet(Zeros(1), 1, i);
  }

  /** `test_operations`: `bita | bitb` holds 0..4 and has cardinality 4. */
  lemma TestOr()
    ensures OrWords(TestA(), 4, TestB(), 8) == Full(4) && Card(Full(4)) == 4
    ensures forall i: nat :: i < 4 ==> Has(OrWords(TestA(), 4, TestB(), 8), i)
  {
    var a, b := TestA(), TestB();
    TestMembers(0);
    forall i: nat
      ensures Has(OrWords(a, 4, b, 8), i) == (i < 4)
    {
      TestMembers(i);
      HasOr(a, 4, b, 8, i);
    }
    FullExactly(OrWords(a, 4, b, 8), 4);
    CardFull(4);
  }

  /** `test_operations`: `bita & bitb` is empty, with cardinality 0. */
  lemma TestAnd()
    ensures AndWords(TestA(), 4, TestB(), 8) == Zeros(1) && Card(Zeros(1)) == 0
  {
    var a, b := TestA(), TestB();
    TestMembers(0);
    forall i: nat
      ensures Has(AndWords(a, 4, b, 8), i) == Has(Zeros(1), i)
    {
      TestMembers(i);
      HasAnd(a, 4, b, 8, i);
      HasZeros(1, i);
    }
    SameHas(AndWords(a, 4, b, 8), Zeros(1));
    CardZeros(1);
  }

  /** `test_operations`: `bita ^ bitb` equals `bita | bitb`; both take `bitb`'s size. */
  lemma TestXor()
    ensures XorWords(TestA(), 4, TestB(), 8) == OrWords(TestA(), 4, TestB(), 8)
  {
    var a, b := TestA(), TestB();
    TestMembers(0);
    forall i: nat
      ensures Has(XorWords(a, 4, b, 8), i) == Has(OrWords(a, 4, b, 8), i)
    {
      TestMembers(i);
      HasOr(a, 4, b, 8, i);
      HasXor(a, 4, b, 8, i);
    }
    SameHas(XorWords(a, 4, b, 8), OrWords(a, 4, b, 8));
  }

  /** `test_operations`: `!bita` holds just position 1, with cardinality 1. */
  lemma TestNot()
    ensures NotWords(TestA(), 4) == TestB() && Card(TestB()) == 1 && Has(TestB(), 1)
  {
    var a, b := TestA(), TestB();
    TestMembers(0);
    forall i: nat
      ensures Has(NotWords(a, 4), i) == Has(b, i)
    {
      TestMembers(i);
      HasNot(a, 4, i);
    }
    SameHas(NotWords(a, 4), b);
    CardSet(Zeros(1), 1);
    CardZeros(1);
    HasZeros(1, 1);
    TestMembers(1);
  }
}

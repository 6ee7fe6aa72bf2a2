/**
 * huffman_bits: the bit writer and bit reader behind Huffman coding. Both work
 * most significant bit first: the writer shifts each bit into `outByte` and
 * pushes a byte to `buf` only once a ninth bit arrives; the reader loads a byte
 * every eight reads and hands out its top bit each time.
 *
 * The bits a byte sequence stands for are `BytesBits`; the writer's contents are
 * its pushed bytes' bits followed by its pending bits, and the reader's position
 * is the number of bits it has handed out.
 */
module HuffmanBits {
  /** The mask of bit `k`, counting from the most significant bit. */
  function Mask(k: nat): bv8
    requires k < 8
  {
    match k
    case 0 => 0x80 case 1 => 0x40 case 2 => 0x20 case 3 => 0x10
    case 4 => 0x08 case 5 => 0x04 case 6 => 0x02 case 7 => 0x01
  }

  /** Bit `k` of `x`, counting from the most significant bit. */
  function BitAt(x: bv8, k: nat): bool
    requires k < 8
  {
    x & Mask(k) != 0
  }

  /** Bit `k` of a partial byte of `c` bits shifted to the top. */
  lemma ShiftBitAt(x: bv8, c: nat, k: nat)
    requires 0 < c <= 8 && x >> c == 0 && k < 8
    ensures BitAt(x << (8 - c), k) == if k < c then BitAt(x, 8 - c + k) else false
  {
  }

  /** Bit `k` of the low `c + 1` bits after shifting `v` in below `c` bits. */
  lemma PushBitAt(x: bv8, c: nat, v: bv8, k: nat)
    requires c < 8 && x >> c == 0 && v <= 1 && k <= c
    ensures BitAt((x << 1) | v, 8 - (c + 1) + k) == if k < c then BitAt(x, 8 - c + k) else v == 1
  {
  }

  /** Shifting a bit in below `c` bits leaves `c + 1` bits. */
  lemma PushHigh(x: bv8, c: nat, v: bv8)
    requires c < 8 && x >> c == 0 && v <= 1
    ensures ((x << 1) | v) >> (c + 1) == 0
  {
  }

  /** After shifting out `c` bits, the top bit is bit `c`, and one more shift
      shifts out `c + 1`. */
  lemma TopBit(x: bv8, c: nat)
    requires c < 8
    ensures BitAt(x, c) == ((x << c) & 0x80 != 0)
    ensures (x << c) << 1 == x << (c + 1)
  {
  }

  /** The eight bits of `x`, most significant first. */
  function ByteBits(x: bv8): (bits: seq<bool>)
    ensures |bits| == 8
  {
    seq(8, k requires 0 <= k < 8 => BitAt(x, k))
  }

  /** The bits of a byte sequence, byte after byte. */
  function BytesBits(bs: seq<bv8>): (bits: seq<bool>)
    ensures |bits| == 8 * |bs|
  {
    if bs == [] then [] else ByteBits(bs[0]) + BytesBits(bs[1..])
  }

  /** `flush` on `c` pending bits `x` appends them and `8 - c` zeros (none when
      nothing is pending). */
  lemma FlushSound(buf: seq<bv8>, x: bv8, c: nat)
    requires c <= 8 && x >> c == 0
    ensures BytesBits(buf + if c > 0 then [Padded(x, c)] else [])
            == BytesBits(buf) + LowBits(x, c) + Zeros(if c == 0 then 0 else 8 - c)
  {
    if c > 0 {
      FlushBits(x, c);
      BytesBitsSnoc(buf, Padded(x, c));
    } else {
      assert buf + [] == buf;
    }
  }

  /** Appending a byte appends its eight bits. */
  lemma {:induction false} BytesBitsSnoc(bs: seq<bv8>, x: bv8)
    ensures BytesBits(bs + [x]) == BytesBits(bs) + ByteBits(x)
  {
    if bs != [] {
      assert (bs + [x])[1..] == bs[1..] + [x];
      BytesBitsSnoc(bs[1..], x);
    } else {
      assert BytesBits([x]) == ByteBits(x) + BytesBits([]);
    }
  }

  /** Bit `8 * i + k` of a byte sequence is bit `k` of byte `i`. */
  lemma {:induction false} BytesBitsAt(bs: seq<bv8>, i: nat, k: nat)
    requires i < |bs| && k < 8
    ensures BytesBits(bs)[8 * i + k] == BitAt(bs[i], k)
  {
    if i > 0 {
      BytesBitsAt(bs[1..], i - 1, k);
    }
  }

  /** `n` zero bits. */
  function Zeros(n: nat): (z: seq<bool>)
    ensures |z| == n && forall k | 0 <= k < n :: !z[k]
  {
    seq(n, k => false)
  }

  /** The low `c` bits of `x`, most significant first. */
  function LowBits(x: bv8, c: nat): (bits: seq<bool>)
    requires c <= 8
    ensures |bits| == c
  {
    seq(c, k requires 0 <= k < c => BitAt(x, 8 - c + k))
  }

  /** What `flush` pushes for `c` pending bits: a partial byte is shifted left by
      `8 - c`, a full one is kept. */
  function Padded(x: bv8, c: nat): bv8
    requires c <= 8
  {
    if c < 8 then x << (8 - c) else x
  }

  /** A padded byte holds the `c` pending bits on top and zeros below. */
  lemma FlushBits(x: bv8, c: nat)
    requires 0 < c <= 8 && x >> c == 0
    ensures ByteBits(Padded(x, c)) == LowBits(x, c) + Zeros(8 - c)
  {
    var l, r := ByteBits(Padded(x, c)), LowBits(x, c) + Zeros(8 - c);
    forall k | 0 <= k < 8 ensures l[k] == r[k] {
      ShiftBitAt(x, c, k);
    }
  }

  /** Shifting a bit in below `c` pending bits appends it to them. */
  lemma PushBit(x: bv8, c: nat, bit: bool)
    requires c < 8 && x >> c == 0
    ensures ((x << 1) | (if bit then 1 else 0)) >> (c + 1) == 0
    ensures LowBits((x << 1) | (if bit then 1 else 0), c + 1) == LowBits(x, c) + [bit]
  {
    var v: bv8 := if bit then 1 else 0;
    var l, r := LowBits((x << 1) | v, c + 1), LowBits(x, c) + [bit];
    PushHigh(x, c, v);
    forall k | 0 <= k < c + 1 ensures l[k] == r[k] {
      PushBitAt(x, c, v, k);
    }
  }

  /** A full byte's low eight bits are all its bits. */
  lemma FullLowBits(x: bv8)
    ensures LowBits(x, 8) == ByteBits(x)
  {
  }

  /** The writer's `buf` after `write_bit`: a full pending byte is pushed. */
  function PushFull(buf: seq<bv8>, x: bv8, c: nat): seq<bv8>
  {
    if c == 8 then buf + [x] else buf
  }

  /** The writer's `outByte` after `write_bit(bit)`. */
  function ShiftIn(x: bv8, c: nat, bit: bool): bv8
  {
    ((if c == 8 then 0 else x) << 1) | (if bit then 1 else 0)
  }

  /** The writer's `outCount` after `write_bit`. */
  function CountIn(c: nat): nat
  {
    (if c == 8 then 0 else c) + 1
  }

  /** `write_bit(bit)` keeps at most eight pending bits and appends `bit` to the
      bits written. */
  lemma WriteBitSound(buf: seq<bv8>, x: bv8, c: nat, bit: bool)
    requires c <= 8 && x >> c == 0
    ensures CountIn(c) <= 8 && ShiftIn(x, c, bit) >> CountIn(c) == 0
    ensures BytesBits(PushFull(buf, x, c)) + LowBits(ShiftIn(x, c, bit), CountIn(c))
            == BytesBits(buf) + LowBits(x, c) + [bit]
  {
    if c == 8 {
      BytesBitsSnoc(buf, x);
      FullLowBits(x);
      PushBit(0, 0, bit);
      assert LowBits(0, 0) == [];
    } else {
      PushBit(x, c, bit);
    }
  }

  class BitWriter {
    var buf: seq<bv8>
    var outByte: bv8
    var outCount: nat

    /** At most eight bits are pending, in the low bits of `outByte`. */
    ghost predicate Valid()
      reads this
    {
      outCount <= 8 && outByte >> outCount == 0
    }

    /** The bits written so far: those of the pushed bytes, then the pending ones. */
    ghost function Bits(): seq<bool>
      reads this
      requires Valid()
    {
      BytesBits(buf) + LowBits(outByte, outCount)
    }

    /** `new`: nothing written. */
    constructor ()
      ensures buf == [] && outByte == 0 && outCount == 0
      ensures Valid() && Bits() == []
    {
      buf := [];
      outByte := 0;
      outCount := 0;
    }

    /** `write_bit(bit)`: a full pending byte is pushed first, then `bit` is
        shifted in. The written bits grow by exactly `bit`. */
    method WriteBit(bit: bool)
      requires Valid()
      modifies this
      ensures buf == PushFull(old(buf), old(outByte), old(outCount))
      ensures outByte == ShiftIn(old(outByte), old(outCount), bit) && outCount == CountIn(old(outCount))
      ensures Valid() && Bits() == old(Bits()) + [bit]
    {
      WriteBitSound(buf, outByte, outCount, bit);
      if outCount == 8 {
        buf := buf + [outByte];
        outByte := 0;
        outCount := 0;
      }
      outByte := (outByte << 1) | (if bit then 1 else 0);
      outCount := outCount + 1;
    }

    /** `flush`: a partial byte is padded with zeros on the right and pushed; with
        nothing pending nothing is pushed. The pushed bytes then hold every written
        bit followed by fewer than eight zeros. (`outCount` is not reset.) */
    method Flush()
      requires Valid()
      modifies this
      ensures buf == old(buf) + if old(outCount) > 0 then [Padded(old(outByte), old(outCount))] else []
      ensures outByte == (if old(outCount) > 0 then Padded(old(outByte), old(outCount)) else old(outByte))
      ensures outCount == old(outCount)
      ensures BytesBits(buf) == old(Bits()) + Zeros(if old(outCount) == 0 then 0 else 8 - old(outCount))
    {
      FlushSound(buf, outByte, outCount);
      if outCount > 0 {
        outByte := Padded(outByte, outCount);
        buf := buf + [outByte];
      }
    }

    /** `data`: hands out the pushed bytes and empties `buf`. */
    method Data() returns (d: seq<bv8>)
      modifies this
      ensures d == old(buf) && buf == [] && outByte == old(outByte) && outCount == old(outCount)
    {
      d := buf;
      buf := [];
    }
  }

  class BitReader {
    const buf: seq<bv8>
    var inByte: bv8
    var ptr: nat
    var inCount: nat

    /** Before the first read nothing is loaded; afterwards `inByte` is the last
        loaded byte shifted past the `inCount` bits already handed out. */
    ghost predicate Valid()
      reads this
    {
      && 1 <= inCount <= 8 && ptr <= |buf|
      && (ptr == 0 ==> inCount == 8)
      && (ptr > 0 ==> inByte == buf[ptr - 1] << inCount)
    }

    /** The number of bits handed out. */
    ghost function Pos(): nat
      reads this
      requires Valid()
    {
      8 * ptr + inCount - 8
    }

    /** The bits not handed out yet. */
    ghost function Unread(): seq<bool>
      reads this
      requires Valid()
    {
      BytesBits(buf)[Pos()..]
    }

    /** `new(buf)`. */
    constructor (buf: seq<bv8>)
      ensures this.buf == buf && inByte == 0 && inCount == 8 && ptr == 0
      ensures Valid() && Pos() == 0
    {
      this.buf := buf;
      inByte := 0;
      inCount := 8;
      ptr := 0;
    }

    /** `read_bit`: the next bit, loading the next byte after every eight reads.
        Reading past the end of `buf` panics, so the caller must leave a bit. */
    method ReadBit() returns (b: bool)
      requires Valid() && Pos() < |BytesBits(buf)|
      modifies this
      ensures ptr == if old(inCount) == 8 then old(ptr) + 1 else old(ptr)
      ensures inCount == (if old(inCount) == 8 then 0 else old(inCount)) + 1
      ensures inByte == (if old(inCount) == 8 then buf[old(ptr)] else old(inByte)) << 1
      ensures Valid() && Pos() == old(Pos()) + 1
      ensures b == BytesBits(buf)[old(Pos())]
      ensures Unread() == old(Unread())[1..] && b == old(Unread())[0]
    {
      if inCount == 8 {
        inByte := buf[ptr];
        ptr := ptr + 1;
        inCount := 0;
      }
      BytesBitsAt(buf, ptr - 1, inCount);
      TopBit(buf[ptr - 1], inCount);
      inCount := inCount + 1;
      b := !((inByte & 0x80) == 0);
      inByte := inByte << 1;
    }
  }

  /** The writer test: after `0000 1111 0000 11`, `flush` leaves fourteen bits
      and two zeros of padding, which are the bytes 15 and 12 and no others. */
  lemma WriteExample(d: seq<bv8>)
    requires BytesBits(d) == [false, false, false, false, true, true, true, true, false, false, false, false, true, true] + Zeros(2)
    ensures d == [15, 12]
  {
    assert BytesBits([15, 12]) == ByteBits(15) + (ByteBits(12) + BytesBits([]));
    assert BytesBits(d) == BytesBits([15, 12]);
    BytesBitsInjective(d, [15, 12]);
  }

  /** The reader test: the byte 12 reads as `0000 1100`. */
  method ReadExample() returns (bits: seq<bool>)
    ensures bits == [false, false, false, false, true, true, false, false]
  {
    var r := new BitReader([12]);
    bits := [];
    while |bits| < 8
      invariant r.Valid() && r.buf == [12] && |bits| == r.Pos() <= 8
      invariant bits == BytesBits(r.buf)[..|bits|]
    {
      var b := r.ReadBit();
      bits := bits + [b];
    }
    assert BytesBits([12]) == ByteBits(12) + BytesBits([]);
  }

  /** Byte sequences with the same bits are equal. */
  lemma {:induction false} BytesBitsInjective(a: seq<bv8>, b: seq<bv8>)
    requires BytesBits(a) == BytesBits(b)
    ensures a == b
  {
    if a != [] {
      assert |b| == |a|;
      assert BytesBits(a)[..8] == ByteBits(a[0]) && BytesBits(b)[..8] == ByteBits(b[0]);
      ByteBitsInjective(a[0], b[0]);
      assert BytesBits(a)[8..] == BytesBits(a[1..]) && BytesBits(b)[8..] == BytesBits(b[1..]);
      BytesBitsInjective(a[1..], b[1..]);
    }
  }

  /** Bytes with the same bits are equal. */
  lemma ByteBitsInjective(x: bv8, y: bv8)
    requires ByteBits(x) == ByteBits(y)
    ensures x == y
  {
    assert forall k | 0 <= k < 8 :: BitAt(x, k) == BitAt(y, k) by {
      forall k | 0 <= k < 8 ensures BitAt(x, k) == BitAt(y, k) {
        assert ByteBits(x)[k] == ByteBits(y)[k];
      }
    }
    assert BitAt(x, 0) == BitAt(y, 0) && BitAt(x, 1) == BitAt(y, 1) && BitAt(x, 2) == BitAt(y, 2)
      && BitAt(x, 3) == BitAt(y, 3) && BitAt(x, 4) == BitAt(y, 4) && BitAt(x, 5) == BitAt(y, 5)
      && BitAt(x, 6) == BitAt(y, 6) && BitAt(x, 7) == BitAt(y, 7);
  }
}

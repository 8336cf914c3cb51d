/**
 * A cursor-based bit writer and bit reader over byte buffers, most
 * significant bit first, and Go's big-endian 16-bit conversions.
 *
 * The writer collects the fields it is given in a cache and writes the
 * cache out to its buffer, big-endian, when flushed; the reader walks a bit
 * position over its buffer and reads one bit at a time.
 */
module BitIO {
  import opened Bits

  /** Number of whole bytes needed to hold `bits` bits. */
  function BytesFor(bits: nat): (r: nat)
    ensures 8 * r >= bits && 8 * r < bits + 8
  {
    (bits + 7) / 8
  }

  class BitWriter {
    const dst: array<Byte>
    /** The bits written so far, the latest in the least significant position. */
    var cache: nat
    /** How many bits have been written. */
    var count: nat
    /** The widths and values of the fields written so far, in order. */
    ghost var Widths: seq<nat>
    ghost var Values: seq<nat>
    /** Whether the writer has been flushed; a flushed writer takes no more fields. */
    ghost var Flushed: bool

    ghost predicate Valid()
      reads this
    {
      |Widths| == |Values| && cache == Pack(Widths, Values) && count == Sum(Widths)
    }

    constructor (dst: array<Byte>)
      ensures Valid() && this.dst == dst
      ensures Widths == [] && Values == [] && !Flushed
    {
      this.dst := dst;
      cache, count := 0, 0;
      Widths, Values := [], [];
      Flushed := false;
    }

    /** Appends the low `n` bits of `v`. */
    method PutUint16(n: nat, v: U16)
      requires Valid() && !Flushed && n <= 16
      modifies this
      ensures Valid() && !Flushed
      ensures Widths == old(Widths) + [n] && Values == old(Values) + [v]
    {
      ghost var ws, vs := Widths + [n], Values + [v];
      assert ws[..|ws| - 1] == Widths && vs[..|vs| - 1] == Values;
      cache := Shl(cache, n) + Low(v, n);
      count := count + n;
      Widths, Values := ws, vs;
    }

    /**
     * Writes every bit written so far to the front of `dst`, big-endian,
     * the last byte padded with zero bits at the bottom; the rest of `dst`
     * is left as it was.
     */
    method Flush()
      requires Valid() && !Flushed && count <= 8 * dst.Length
      modifies this, dst
      ensures Flushed && cache == old(cache) && count == old(count)
      ensures var n := BytesFor(count);
        && dst[..n] == ToBigEndian(Shl(cache, 8 * n - count), n)
        && FromBigEndian(dst[..n]) == Shl(cache, 8 * n - count)
        && dst[n..] == old(dst[n..])
    {
      var n := BytesFor(count);
      var padded := Shl(cache, 8 * n - count);
      assert cache < Pow2(count);
      BigEndianOfPadded(cache, count, n);
      PutBigEndian(dst, padded, n);
      Flushed := true;
    }
  }

  /** Stores the `n` low bytes of `x` big-endian in the first `n` bytes of `dst`, last byte first. */
  method PutBigEndian(dst: array<Byte>, x: nat, n: nat)
    requires n <= dst.Length
    modifies dst
    ensures dst[..n] == ToBigEndian(x, n)
    ensures dst[n..] == old(dst[n..])
  {
    Pow2Table();
    var y: nat, j: nat := x, n;
    while j > 0
      invariant j <= n
      invariant ToBigEndian(x, n) == ToBigEndian(y, j) + dst[j..n]
      invariant dst[n..] == old(dst[n..])
    {
      ghost var tail := dst[j..n];
      var b: Byte := Low(y, 8);
      assert ToBigEndian(y, j) == ToBigEndian(Shr(y, 8), j - 1) + [b];
      dst[j - 1] := b;
      assert dst[j - 1..n] == [b] + tail;
      y, j := Shr(y, 8), j - 1;
    }
    assert dst[..n] == dst[j..n];
  }

  /**
   * The cache shifted up to whole bytes fits in those bytes, so its
   * big-endian bytes read back as the shifted cache.
   */
  lemma BigEndianOfPadded(cache: nat, count: nat, n: nat)
    requires cache < Pow2(count) && count <= 8 * n
    ensures FromBigEndian(ToBigEndian(Shl(cache, 8 * n - count), n)) == Shl(cache, 8 * n - count)
  {
    var padded := Shl(cache, 8 * n - count);
    ShlOr(cache, 8 * n - count, 0, count);
    assert count + (8 * n - count) == 8 * n;
    FromToBigEndian(padded, n);
    LowOfSmall(padded, 8 * n);
  }

  class BitReader {
    const src: array<Byte>
    /** Position of the next bit to read, counted from the most significant bit of `src[0]`. */
    var pos: nat

    /** The whole buffer read as one big-endian number. */
    ghost function Word(): nat
      reads src
    {
      FromBigEndian(src[..])
    }

    constructor (src: array<Byte>)
      ensures this.src == src && pos == 0
    {
      this.src := src;
      pos := 0;
    }

    /** Reads the next `n` bits, most significant first. */
    method Read(n: nat) returns (v: nat)
      requires pos + n <= 8 * src.Length
      modifies this
      ensures pos == old(pos) + n
      ensures v == FieldAt(Word(), 8 * src.Length, old(pos), n)
    {
      var start := pos;
      v := 0;
      var k := 0;
      while k < n
        invariant k <= n
        invariant v == FieldAt(Word(), 8 * src.Length, start, k)
      {
        var i := start + k;
        var bit := Low(Shr(src[i / 8], 7 - i % 8), 1);
        BitOfBytes(src[..], i);
        FieldGrows(Word(), 8 * src.Length, start, k);
        v := 2 * v + bit;
        k := k + 1;
      }
      pos := start + n;
    }

    method Uint8(n: nat) returns (v: nat)
      requires n <= 8 && pos + n <= 8 * src.Length
      modifies this
      ensures pos == old(pos) + n
      ensures v == FieldAt(Word(), 8 * src.Length, old(pos), n) && v < 256
    {
      v := Read(n);
      Pow2Grows(n, 8);
    }

    method Uint16(n: nat) returns (v: nat)
      requires n <= 16 && pos + n <= 8 * src.Length
      modifies this
      ensures pos == old(pos) + n
      ensures v == FieldAt(Word(), 8 * src.Length, old(pos), n) && v < 65536
    {
      v := Read(n);
      Pow2Grows(n, 16);
      Pow2Table();
    }

    method Skip(n: nat)
      requires pos + n <= 8 * src.Length
      modifies this
      ensures pos == old(pos) + n
    {
      pos := pos + n;
    }
  }

  lemma {:induction false} Pow2Grows(a: nat, b: nat)
    requires a <= b
    ensures Pow2(a) <= Pow2(b)
    decreases b
  {
    if a < b {
      Pow2Grows(a, b - 1);
    }
  }

  /** A field one bit longer is the shorter field followed by the next bit. */
  lemma FieldGrows(word: nat, w: nat, pos: nat, k: nat)
    requires pos + k + 1 <= w
    ensures FieldAt(word, w, pos, k + 1) == 2 * FieldAt(word, w, pos, k) + FieldAt(word, w, pos + k, 1)
  {
    var y := Shr(word, w - pos - k - 1);
    LowSplit(y, 1, k);
    ShrShr(word, w - pos - k - 1, 1);
  }

  /** Bit `i` of a big-endian buffer is bit `7 - i % 8` of byte `i / 8`. */
  lemma {:induction false} BitOfBytes(bs: seq<Byte>, i: nat)
    requires i < 8 * |bs|
    ensures FieldAt(FromBigEndian(bs), 8 * |bs|, i, 1) == Low(Shr(bs[i / 8], 7 - i % 8), 1)
  {
    var k := |bs| - 1;
    var p := FromBigEndian(bs[..k]);
    assert FromBigEndian(bs) == Shl(p, 8) + bs[k];
    if i < 8 * k {
      BitOfHigherBytes(p, bs[k], k, i);
      BitOfBytes(bs[..k], i);
      assert bs[..k][i / 8] == bs[i / 8];
    } else {
      BitOfLastByte(p, bs[k], k, i);
    }
  }

  /** Appending a byte leaves the bits of the bytes before it where they were. */
  lemma BitOfHigherBytes(p: nat, last: Byte, k: nat, i: nat)
    requires i < 8 * k
    ensures FieldAt(Shl(p, 8) + last, 8 * k + 8, i, 1) == FieldAt(p, 8 * k, i, 1)
  {
    var e := 8 * k - i - 1;
    Pow2Table();
    ShlOr(p, 8, last, 0);
    ShrShr(Shl(p, 8) + last, 8, e);
  }

  /** The last eight bits of a word are the bits of its last byte. */
  lemma BitOfLastByte(p: nat, last: Byte, k: nat, i: nat)
    requires 8 * k <= i < 8 * k + 8
    ensures FieldAt(Shl(p, 8) + last, 8 * k + 8, i, 1) == Low(Shr(last, 7 - i % 8), 1)
  {
    Pow2Table();
    assert 7 - i % 8 == 8 * k + 8 - i - 1;
    LowBitOfOr(p, 8, last, 7 - i % 8);
  }

  /** Below bit `n`, a word shifted left by `n` with `low` filled in has the bits of `low`. */
  lemma {:induction false} LowBitOfOr(p: nat, n: nat, low: nat, e: nat)
    requires low < Pow2(n) && e < n
    ensures Low(Shr(Shl(p, n) + low, e), 1) == Low(Shr(low, e), 1)
  {
    if e > 0 {
      assert (Shl(p, n) + low) / 2 == Shl(p, n - 1) + low / 2;
      LowBitOfOr(p, n - 1, low / 2, e - 1);
    }
  }

  /** Go's `binary.BigEndian.Uint16`: the first two bytes of `b` as a big-endian word. */
  function Uint16BigEndian(b: seq<Byte>): (r: U16)
    requires |b| >= 2
    ensures r == FromBigEndian(b[..2])
  {
    assert b[..2][..1] == [b[0]] && [b[0]][..0] == [];
    ShlOr(b[0], 8, b[1], 8);
    Shl(b[0], 8) + b[1]
  }

  /** Go's `binary.BigEndian.PutUint16`: stores `v` in the first two bytes of `b`. */
  method PutUint16BigEndian(b: array<Byte>, v: U16)
    requires b.Length >= 2
    modifies b
    ensures b[..2] == ToBigEndian(v, 2) && Uint16BigEndian(b[..]) == v
    ensures b[2..] == old(b[2..])
  {
    b[0] := Low(Shr(v, 8), 8);
    b[1] := Low(v, 8);
    ShrShr(v, 8, 8);
    assert ToBigEndian(v, 2) == [Low(Shr(v, 8), 8), Low(v, 8)];
    assert b[..2] == [b[0], b[1]];
    FromToBigEndian(v, 2);
    LowOfSmall(v, 16);
  }
}

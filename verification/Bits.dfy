/**
 * Fixed-width unsigned bit fields, most significant bit first, and
 * big-endian byte order.
 *
 * A word of `w` bits is a natural number below 2^w.  Its bits are numbered
 * from the top: bit 0 is the most significant one.  Packing a list of
 * values with their widths puts the first value in the most significant
 * bits and keeps only the low `width` bits of each value; unpacking reads
 * the fields back in the same order.
 *
 * Shifts and masks are defined bit by bit (`Shr`, `Shl`, `Low`), so the
 * proofs about them need only linear arithmetic; `ShrLowDivMod` ties them
 * to integer division and remainder once.
 */
module Bits {

  /** An unsigned 8-bit byte. */
  type Byte = x: nat | x < 256

  /** An unsigned 16-bit word. */
  type U16 = x: nat | x < 65536

  function Pow2(n: nat): (r: nat)
    ensures r >= 1
  {
    if n == 0 then 1 else 2 * Pow2(n - 1)
  }

  lemma {:induction false} Pow2Add(a: nat, b: nat)
    ensures Pow2(a + b) == Pow2(a) * Pow2(b)
  {
    if a > 0 {
      Pow2Add(a - 1, b);
    }
  }

  /** The powers of two the 16-bit layouts use. */
  lemma Pow2Table()
    ensures Pow2(2) == 4 && Pow2(4) == 16 && Pow2(8) == 256
    ensures Pow2(10) == 1024 && Pow2(14) == 16384 && Pow2(16) == 65536
  {
  }

  /**
   * Conversion of a two's complement integer to an unsigned 16-bit value:
   * the low 16 bits are kept.  Dafny's `%` is Euclidean, so for a negative
   * `x` this is the same residue the two's complement bit pattern gives.
   */
  function ToU16(x: int): (r: U16)
    ensures (x - r) % 65536 == 0
  {
    x % 65536
  }

  // ---------------------------------------------------------------------
  // Shifts and masks

  /** `x >> n` */
  function Shr(x: nat, n: nat): nat
  {
    if n == 0 then x else Shr(x / 2, n - 1)
  }

  /** `x << n` */
  function Shl(x: nat, n: nat): nat
  {
    if n == 0 then x else 2 * Shl(x, n - 1)
  }

  /** `x & (2^n - 1)`: the low `n` bits of `x`. */
  function Low(x: nat, n: nat): (r: nat)
    ensures r < Pow2(n)
  {
    if n == 0 then 0 else 2 * Low(x / 2, n - 1) + x % 2
  }

  /** A value that already fits in `n` bits is its own low `n` bits. */
  lemma {:induction false} LowOfSmall(x: nat, n: nat)
    requires x < Pow2(n)
    ensures Low(x, n) == x
  {
    if n > 0 {
      LowOfSmall(x / 2, n - 1);
    }
  }

  /** Shifting right by `a` then by `b` is shifting right by `a + b`. */
  lemma {:induction false} ShrShr(x: nat, a: nat, b: nat)
    ensures Shr(Shr(x, a), b) == Shr(x, a + b)
  {
    if a > 0 {
      ShrShr(x / 2, a - 1, b);
    }
  }

  /**
   * Shifting `p` left by `n` and filling the low `n` bits with `low`:
   * the high part and the low part come back unchanged, and the result
   * fits in `w + n` bits when `p` fits in `w`.
   */
  lemma {:induction false} ShlOr(p: nat, n: nat, low: nat, w: nat)
    requires low < Pow2(n)
    ensures Shr(Shl(p, n) + low, n) == p
    ensures Low(Shl(p, n) + low, n) == low
    ensures p < Pow2(w) ==> Shl(p, n) + low < Pow2(w + n)
  {
    if n > 0 {
      ShlOr(p, n - 1, low / 2, w);
      assert (Shl(p, n) + low) / 2 == Shl(p, n - 1) + low / 2;
    }
  }

  /** The low `n + m` bits are the low `m` bits of `x >> n` above the low `n` bits of `x`. */
  lemma {:induction false} LowSplit(x: nat, n: nat, m: nat)
    ensures Low(x, n + m) == Shl(Low(Shr(x, n), m), n) + Low(x, n)
  {
    if n > 0 {
      LowSplit(x / 2, n - 1, m);
    }
  }

  /** Shifts and masks are division and remainder by a power of two. */
  lemma ShrLowDivMod(x: nat, n: nat)
    ensures x == Shr(x, n) * Pow2(n) + Low(x, n)
    ensures Shr(x, n) == x / Pow2(n) && Low(x, n) == x % Pow2(n)
  {
    ShrLowSplit(x, n);
    DivModUnique(x, Pow2(n), Shr(x, n), Low(x, n));
  }

  lemma {:induction false} ShrLowSplit(x: nat, n: nat)
    ensures x == Shr(x, n) * Pow2(n) + Low(x, n)
  {
    if n > 0 {
      ShrLowSplit(x / 2, n - 1);
      var s, p := Shr(x / 2, n - 1), Pow2(n - 1);
      MulTwice(s, p);
    }
  }

  lemma MulTwice(s: int, p: int)
    ensures s * (2 * p) == 2 * (s * p)
  {
  }

  /** Quotient and remainder are the unique pair with `x == q * d + r`. */
  lemma DivModUnique(x: int, d: int, q: int, r: int)
    requires d > 0 && 0 <= r < d && x == q * d + r
    ensures x / d == q && x % d == r
  {
    var q0, r0 := x / d, x % d;
    assert x == q0 * d + r0;
    if q0 > q {
      MulLeft(q + 1, q0, d);
      assert false;
    } else if q0 < q {
      MulLeft(q0 + 1, q, d);
      assert false;
    }
  }

  /** Keeping the low bits of a residue modulo a multiple: `(x % (a * b)) % a == x % a`. */
  lemma ModModMul(x: int, a: int, b: int)
    requires a > 0 && b > 0
    ensures (x % (a * b)) % a == x % a
  {
    var ab := a * b;
    assert ab > 0 by {
      MulLeft(1, b, a);
    }
    var q, r := x / ab, x % ab;
    var u, v := r / a, r % a;
    assert x == q * ab + r;
    assert r == u * a + v;
    MulRegroup(q, a, b, u);
    DivModUnique(x, a, q * b + u, v);
  }

  /** `q * (a * b) + u * a == (q * b + u) * a` */
  lemma MulRegroup(q: int, a: int, b: int, u: int)
    ensures q * (a * b) + u * a == (q * b + u) * a
  {
  }

  /** The low `n` bits of a value converted to 16 bits are the low `n` bits of the value. */
  lemma ToU16Low(x: int, n: nat)
    requires n <= 16
    ensures Low(ToU16(x), n) == x % Pow2(n)
  {
    ShrLowDivMod(ToU16(x), n);
    Pow2Add(n, 16 - n);
    Pow2Table();
    ModModMul(x, Pow2(n), Pow2(16 - n));
  }

  lemma MulLeft(a: int, b: int, c: nat)
    requires a <= b
    ensures a * c <= b * c
  {
  }

  // ---------------------------------------------------------------------
  // Fields of a word

  function Sum(ws: seq<nat>): nat
  {
    if ws == [] then 0 else Sum(ws[..|ws| - 1]) + ws[|ws| - 1]
  }

  /**
   * The `n`-bit field of a `w`-bit word whose most significant bit is bit
   * `pos` counted from the top: what a reader positioned at bit `pos`
   * returns when it reads `n` bits.
   */
  function FieldAt(word: nat, w: nat, pos: nat, n: nat): (r: nat)
    requires pos + n <= w
    ensures r < Pow2(n)
  {
    Low(Shr(word, w - pos - n), n)
  }

  /** A field is the word divided by a power of two, modulo another. */
  lemma FieldAtDivMod(word: nat, w: nat, pos: nat, n: nat)
    requires pos + n <= w
    ensures FieldAt(word, w, pos, n) == (word / Pow2(w - pos - n)) % Pow2(n)
  {
    ShrLowDivMod(word, w - pos - n);
    ShrLowDivMod(Shr(word, w - pos - n), n);
  }

  /** Each value cut to its width. */
  function Truncate(ws: seq<nat>, vs: seq<nat>): (r: seq<nat>)
    requires |ws| == |vs|
    ensures |r| == |vs|
    ensures forall i :: 0 <= i < |r| ==> r[i] < Pow2(ws[i])
  {
    seq(|vs|, i requires 0 <= i < |vs| => Low(vs[i], ws[i]))
  }

  /**
   * Packs the values `vs` into one word, the first value in the most
   * significant bits, each value cut to the width `ws[i]` given for it.
   */
  function Pack(ws: seq<nat>, vs: seq<nat>): (r: nat)
    requires |ws| == |vs|
    ensures r < Pow2(Sum(ws))
  {
    if ws == [] then 0
    else
      var k := |ws| - 1;
      var p := Pack(ws[..k], vs[..k]);
      ShlOr(p, ws[k], Low(vs[k], ws[k]), Sum(ws[..k]));
      Shl(p, ws[k]) + Low(vs[k], ws[k])
  }

  /**
   * Splits a word into fields of the widths `ws`, the first field taken
   * from the most significant bits.
   */
  function Unpack(word: nat, ws: seq<nat>): (r: seq<nat>)
    ensures |r| == |ws|
    decreases ws
  {
    if ws == [] then []
    else
      var k := |ws| - 1;
      Unpack(Shr(word, ws[k]), ws[..k]) + [Low(word, ws[k])]
  }

  /** Unpacking a packed word gives back every value cut to its width. */
  lemma {:induction false} UnpackPack(ws: seq<nat>, vs: seq<nat>)
    requires |ws| == |vs|
    ensures Unpack(Pack(ws, vs), ws) == Truncate(ws, vs)
  {
    if ws != [] {
      var k := |ws| - 1;
      ShlOr(Pack(ws[..k], vs[..k]), ws[k], Low(vs[k], ws[k]), 0);
      UnpackPack(ws[..k], vs[..k]);
      assert Truncate(ws, vs) == Truncate(ws[..k], vs[..k]) + [Low(vs[k], ws[k])];
    }
  }

  /** Packing the fields of a word gives back the word cut to the total width. */
  lemma {:induction false} PackUnpack(word: nat, ws: seq<nat>)
    ensures Pack(ws, Unpack(word, ws)) == Low(word, Sum(ws))
    decreases ws
  {
    if ws != [] {
      var k := |ws| - 1;
      var fs := Unpack(word, ws);
      assert fs[..k] == Unpack(Shr(word, ws[k]), ws[..k]);
      PackUnpack(Shr(word, ws[k]), ws[..k]);
      LowOfSmall(Low(word, ws[k]), ws[k]);
      LowSplit(word, ws[k], Sum(ws[..k]));
    }
  }

  /** The cursor reading field `i` of a word sees the same value as unpacking it. */
  lemma {:induction false} FieldAtUnpack(word: nat, ws: seq<nat>, i: nat)
    requires i < |ws|
    ensures Sum(ws[..i]) + ws[i] <= Sum(ws)
    ensures FieldAt(word, Sum(ws), Sum(ws[..i]), ws[i]) == Unpack(word, ws)[i]
    decreases ws
  {
    var k := |ws| - 1;
    if i == k {
      assert ws[..i] == ws[..k];
    } else {
      var init := ws[..k];
      assert init[..i] == ws[..i] && init[i] == ws[i];
      FieldAtUnpack(Shr(word, ws[k]), init, i);
      ShrShr(word, ws[k], Sum(init) - Sum(ws[..i]) - ws[i]);
    }
  }

  /** Reading field `i` of a packed word gives back value `i` cut to its width. */
  lemma FieldOfPack(ws: seq<nat>, vs: seq<nat>, i: nat)
    requires |ws| == |vs| && i < |ws|
    ensures Sum(ws[..i]) + ws[i] <= Sum(ws)
    ensures FieldAt(Pack(ws, vs), Sum(ws), Sum(ws[..i]), ws[i]) == Low(vs[i], ws[i])
  {
    FieldAtUnpack(Pack(ws, vs), ws, i);
    UnpackPack(ws, vs);
  }

  /** Packing depends on each value only through its low `width` bits. */
  lemma PackTruncates(ws: seq<nat>, vs: seq<nat>, us: seq<nat>)
    requires |ws| == |vs| == |us|
    requires Truncate(ws, vs) == Truncate(ws, us)
    ensures Pack(ws, vs) == Pack(ws, us)
  {
    UnpackPack(ws, vs);
    UnpackPack(ws, us);
    PackUnpack(Pack(ws, vs), ws);
    PackUnpack(Pack(ws, us), ws);
    LowOfSmall(Pack(ws, vs), Sum(ws));
    LowOfSmall(Pack(ws, us), Sum(ws));
  }

  /** Appending a field multiplies the packed word by 2^width and adds the new value cut to its width. */
  lemma PackSnoc(ws: seq<nat>, vs: seq<nat>, w: nat, v: nat)
    requires |ws| == |vs|
    ensures Pack(ws + [w], vs + [v]) == Pack(ws, vs) * Pow2(w) + Low(v, w)
  {
    var ws', vs' := ws + [w], vs + [v];
    assert ws'[..|ws|] == ws && vs'[..|vs|] == vs;
    var p := Pack(ws, vs);
    ShlOr(p, w, Low(v, w), 0);
    ShrLowDivMod(Shl(p, w) + Low(v, w), w);
  }

  // ---------------------------------------------------------------------
  // Big-endian byte order

  /** The `n` low bytes of `x`, most significant byte first. */
  function ToBigEndian(x: nat, n: nat): (r: seq<Byte>)
    ensures |r| == n
    decreases n
  {
    if n == 0 then [] else ToBigEndian(Shr(x, 8), n - 1) + [Low(x, 8)]
  }

  /** The number whose big-endian bytes are `bs`. */
  function FromBigEndian(bs: seq<Byte>): (r: nat)
    ensures r < Pow2(8 * |bs|)
  {
    if bs == [] then 0
    else
      var k := |bs| - 1;
      var p := FromBigEndian(bs[..k]);
      ShlOr(p, 8, bs[k], 8 * k);
      Shl(p, 8) + bs[k]
  }

  lemma {:induction false} FromToBigEndian(x: nat, n: nat)
    ensures FromBigEndian(ToBigEndian(x, n)) == Low(x, 8 * n)
    decreases n
  {
    if n > 0 {
      var bs := ToBigEndian(x, n);
      assert bs[..n - 1] == ToBigEndian(Shr(x, 8), n - 1);
      FromToBigEndian(Shr(x, 8), n - 1);
      LowSplit(x, 8, 8 * (n - 1));
    }
  }

  lemma {:induction false} ToFromBigEndian(bs: seq<Byte>)
    ensures ToBigEndian(FromBigEndian(bs), |bs|) == bs
  {
    if bs != [] {
      var k := |bs| - 1;
      ShlOr(FromBigEndian(bs[..k]), 8, bs[k], 0);
      ToFromBigEndian(bs[..k]);
      assert bs == bs[..k] + [bs[k]];
    }
  }
}

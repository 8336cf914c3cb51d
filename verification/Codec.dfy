/**
 * The community codec of the battleships side channel.
 *
 * A peer announces its last move as two BGP communities tagged with a
 * marker AS both peers agree on.  The data half of each community is a
 * 16-bit word that starts with a 2-bit type tag:
 *
 *   type 1, the move counter:   T T Z Z Z Z Z Z Z Z Z Z Z Z Z Z
 *   type 2, the attack position: T T X X X X - - Y Y Y Y S S - -
 *
 * (Z: counter, X and Y: coordinates, S: hit or miss on the last move,
 * -: zero padding; the leftmost letter is the most significant bit.)
 *
 * This module holds the encoders and, as functions, the specification of
 * the decoding scan: the peer reading a route walks over its communities,
 * keeps those of the marker AS, and collects one counter fragment and one
 * position fragment.
 */
module Codec {
  import opened Bits

  /** A community as carried on a route: the AS half and the data half. */
  datatype Community = Community(asn: U16, data: U16)

  /** The values one peer announces: move counter, coordinates, outcome of the last move. */
  datatype Move = Move(counter: nat, x: nat, y: nat, outcome: nat)

  const NoMove := Move(0, 0, 0, 0)

  /** Every value fits the width of the field that carries it. */
  predicate InRange(m: Move)
  {
    m.counter < 16384 && m.x < 16 && m.y < 16 && m.outcome < 4
  }

  /**
   * The three ways a read can fail: a fragment is missing after the whole
   * scan, a marker-AS community carries a type tag other than 1 and 2, or
   * the same fragment type was seen twice.
   */
  datatype DecodeError = NotEnoughData | InvalidType | DupeType

  datatype Option<T> = None | Some(value: T)

  /** The outcome of a read: the four values, all zero when `err` is set, and the error. */
  datatype Reading = Reading(move: Move, err: Option<DecodeError>)

  // ---------------------------------------------------------------------
  // Layouts

  const CounterTag: nat := 1
  const PositionTag: nat := 2

  /** Widths of the fields of a type 1 community: tag, counter. */
  const CounterWidths: seq<nat> := [2, 14]

  /** Widths of the fields of a type 2 community: tag, x, pad, y, outcome, pad. */
  const PositionWidths: seq<nat> := [2, 4, 2, 4, 2, 2]

  /** The type tag: the two most significant bits. */
  function Tag(d: U16): (r: nat)
    ensures r < 4
  {
    Pow2Table();
    FieldAt(d, 16, 0, 2)
  }

  /** The counter of a type 1 community: the 14 bits after the tag. */
  function CounterOf(d: U16): (r: nat)
    ensures r < 16384
  {
    Pow2Table();
    FieldAt(d, 16, 2, 14)
  }

  /**
   * The fields of a type 2 community after the tag, at offsets counted
   * from the most significant bit as in `Bits`; the two bits at offsets
   * 6-7 and the two at offsets 14-15 are padding.
   */
  function XOf(d: U16): (r: nat)
    ensures r < 16
  {
    Pow2Table();
    FieldAt(d, 16, 2, 4)
  }

  function YOf(d: U16): (r: nat)
    ensures r < 16
  {
    Pow2Table();
    FieldAt(d, 16, 8, 4)
  }

  function OutcomeOf(d: U16): (r: nat)
    ensures r < 4
  {
    Pow2Table();
    FieldAt(d, 16, 12, 2)
  }

  /** The decoder's field readers, as division and remainder. */
  lemma FieldsAsArithmetic(d: U16)
    ensures Tag(d) == d / 16384 && CounterOf(d) == d % 16384
    ensures XOf(d) == (d / 1024) % 16 && YOf(d) == (d / 16) % 16 && OutcomeOf(d) == (d / 4) % 4
  {
    assert Tag(d) == d / 16384 by {
      FieldAtDivMod(d, 16, 0, 2);
      Pow2Table();
      assert Pow2(0) == 1;
      DivModUnique(d / 16384, 4, 0, d / 16384);
    }
    assert CounterOf(d) == d % 16384 by {
      FieldAtDivMod(d, 16, 2, 14);
      assert Pow2(0) == 1;
      DivModUnique(d, 1, d, 0);
      Pow2Table();
    }
    assert XOf(d) == (d / 1024) % 16 by {
      FieldAtDivMod(d, 16, 2, 4);
      Pow2Table();
    }
    assert YOf(d) == (d / 16) % 16 by {
      FieldAtDivMod(d, 16, 8, 4);
      Pow2Table();
    }
    assert OutcomeOf(d) == (d / 4) % 4 by {
      FieldAtDivMod(d, 16, 12, 2);
      Pow2Table();
    }
  }

  // ---------------------------------------------------------------------
  // Encoding

  /**
   * The type 1 community: tag 1 over the counter, after the conversion to
   * an unsigned 16-bit value.  The decoder reads its tag as a counter tag.
   */
  function CounterCommunity(gameIncrementor: int): (r: U16)
    ensures Tag(r) == CounterTag
  {
    var vs := [CounterTag, ToU16(gameIncrementor)];
    CounterOffsets();
    Pow2Table();
    FieldOfPack(CounterWidths, vs, 0);
    LowOfSmall(CounterTag, 2);
    Pack(CounterWidths, vs)
  }

  /** The counter community as a number: 2^14 plus the counter modulo 2^14. */
  lemma CounterFormula(g: int)
    ensures CounterCommunity(g) == 16384 + g % 16384
  {
    var ws, vs := CounterWidths, [CounterTag, ToU16(g)];
    assert ws[..0] == [] && ws[..1] == [] + [2] && ws == [2] + [14];
    assert vs[..0] == [] && vs[..1] == [] + [CounterTag] && vs == [CounterTag] + [ToU16(g)];
    PackSnoc([], [], 2, CounterTag);
    PackSnoc([2], [CounterTag], 14, ToU16(g));
    Pow2Table();
    LowOfSmall(CounterTag, 2);
    ToU16Low(g, 14);
  }

  /**
   * The counter community has 1 in its top two bits and the counter cut
   * to 14 bits below them, so a counter of 16384 is sent as 0.
   */
  lemma CounterLayout(g: int)
    ensures CounterCommunity(g) / 16384 == 1
    ensures CounterCommunity(g) % 16384 == g % 16384
  {
    CounterFormula(g);
    DivModUnique(CounterCommunity(g), 16384, 1, g % 16384);
  }

  /**
   * The type 2 community: tag 2, x, two zero bits, y, the outcome, two
   * zero bits, each value converted to an unsigned 16-bit value first.
   * The decoder reads its tag as a position tag.
   */
  function PositionCommunity(x: int, y: int, hitOrMissOnLast: int): (r: U16)
    ensures Tag(r) == PositionTag
  {
    var vs := [PositionTag, ToU16(x), 0, ToU16(y), ToU16(hitOrMissOnLast), 0];
    PositionOffsets();
    Pow2Table();
    FieldOfPack(PositionWidths, vs, 0);
    LowOfSmall(PositionTag, 2);
    Pack(PositionWidths, vs)
  }

  /**
   * The position community as a number.  Here bits are counted from the
   * least significant one, bit 0 at the bottom (offsets 14-15 from the top
   * are bits 1-0): 2 in bits 15-14, x cut to 4 bits in bits 13-10, zero in
   * bits 9-8, y cut to 4 bits in bits 7-4, the outcome cut to 2 bits in
   * bits 3-2 and zero in bits 1-0.
   */
  lemma PositionLayout(x: int, y: int, s: int)
    ensures var c := PositionCommunity(x, y, s);
      && c / 16384 == 2 && (c / 1024) % 16 == x % 16 && (c / 256) % 4 == 0
      && (c / 16) % 16 == y % 16 && (c / 4) % 4 == s % 4 && c % 4 == 0
  {
    var ws, vs := PositionWidths, [PositionTag, ToU16(x), 0, ToU16(y), ToU16(s), 0];
    var c := Pack(ws, vs);
    PositionFields(x, y, s);
    FieldsAsArithmetic(c);
    assert (c / 256) % 4 == 0 && c % 4 == 0 by {
      PositionOffsets();
      Pow2Table();
      FieldOfPack(ws, vs, 2);
      FieldOfPack(ws, vs, 5);
      LowOfSmall(0, 2);
      FieldAtDivMod(c, 16, 6, 2);
      FieldAtDivMod(c, 16, 14, 2);
      assert Pow2(0) == 1;
    }
  }

  /** The decoder's field readers give back what the counter encoder wrote. */
  lemma CounterFields(g: int)
    ensures Tag(CounterCommunity(g)) == CounterTag
    ensures CounterOf(CounterCommunity(g)) == g % 16384
  {
    var ws, vs := CounterWidths, [CounterTag, ToU16(g)];
    CounterOffsets();
    Pow2Table();
    FieldOfPack(ws, vs, 0);
    FieldOfPack(ws, vs, 1);
    LowOfSmall(CounterTag, 2);
    ToU16Low(g, 14);
  }

  /** The decoder's field readers give back what the position encoder wrote. */
  lemma PositionFields(x: int, y: int, s: int)
    ensures var c := PositionCommunity(x, y, s);
      && Tag(c) == PositionTag && XOf(c) == x % 16 && YOf(c) == y % 16 && OutcomeOf(c) == s % 4
  {
    var ws, vs := PositionWidths, [PositionTag, ToU16(x), 0, ToU16(y), ToU16(s), 0];
    PositionOffsets();
    Pow2Table();
    FieldOfPack(ws, vs, 0);
    FieldOfPack(ws, vs, 1);
    FieldOfPack(ws, vs, 3);
    FieldOfPack(ws, vs, 4);
    LowOfSmall(PositionTag, 2);
    ToU16Low(x, 4);
    ToU16Low(y, 4);
    ToU16Low(s, 2);
  }

  /** Where each field of a type 1 community starts. */
  lemma CounterOffsets()
    ensures var ws := CounterWidths;
      Sum(ws[..0]) == 0 && Sum(ws[..1]) == 2 && Sum(ws) == 16
  {
  }

  /** Where each field of a type 2 community starts. */
  lemma PositionOffsets()
    ensures var ws := PositionWidths;
      && Sum(ws[..0]) == 0 && Sum(ws[..1]) == 2 && Sum(ws[..2]) == 6 && Sum(ws[..3]) == 8
      && Sum(ws[..4]) == 12 && Sum(ws[..5]) == 14 && Sum(ws) == 16
  {
    var ws := PositionWidths;
    assert ws[..1][..0] == [];
    assert ws[..2][..1] == ws[..1];
    assert ws[..3][..2] == ws[..2];
    assert ws[..4][..3] == ws[..3];
    assert ws[..5][..4] == ws[..4];
    assert ws[..5] == ws[..|ws| - 1];
  }

  // ---------------------------------------------------------------------
  // Decoding, as a specification

  /** What the scan has collected so far. */
  datatype Scan = Scan(readCounter: bool, readPosition: bool, move: Move)

  const Start := Scan(false, false, NoMove)

  /** Either the scan goes on from a new state, or it stops with an error. */
  datatype Step = Next(scan: Scan) | Stop(err: DecodeError)

  /** One community of the scan. */
  function StepOn(st: Scan, c: Community, marker: U16): (r: Step)
    ensures r.Stop? ==> r.err != NotEnoughData
    ensures r.Next? ==> (st.readCounter ==> r.scan.readCounter) && (st.readPosition ==> r.scan.readPosition)
    ensures InRange(st.move) && r.Next? ==> InRange(r.scan.move)
  {
    if c.asn != marker then Next(st)
    else if Tag(c.data) == CounterTag then
      if st.readCounter then Stop(DupeType)
      else Next(Scan(true, st.readPosition, st.move.(counter := CounterOf(c.data))))
    else if Tag(c.data) == PositionTag then
      if st.readPosition then Stop(DupeType)
      else Next(Scan(st.readCounter, true,
                     st.move.(x := XOf(c.data), y := YOf(c.data), outcome := OutcomeOf(c.data))))
    else Stop(InvalidType)
  }

  /**
   * The scan over `cs` in order from `st`.  It stops at the first
   * duplicate or unknown fragment, and the values it collects always fit
   * their fields.
   */
  function ScanFrom(cs: seq<Community>, marker: U16, st: Scan): (r: Step)
    ensures r.Stop? ==> r.err != NotEnoughData
    ensures InRange(st.move) && r.Next? ==> InRange(r.scan.move)
  {
    if cs == [] then Next(st)
    else
      match StepOn(st, cs[0], marker)
      case Stop(e) => Stop(e)
      case Next(st') =>
        FieldsAsArithmetic(cs[0].data);
        ScanFrom(cs[1..], marker, st')
  }

  /**
   * Reads a move from the communities of a route: the scan must finish
   * with both fragments seen; otherwise the values are all zero and the
   * error says why.
   */
  function Decode(cs: seq<Community>, marker: U16): (r: Reading)
    ensures InRange(r.move)
    ensures r.err.Some? ==> r.move == NoMove
  {
    match ScanFrom(cs, marker, Start)
    case Stop(e) => Reading(NoMove, Some(e))
    case Next(st) =>
      if st.readCounter && st.readPosition then Reading(st.move, None)
      else Reading(NoMove, Some(NotEnoughData))
  }

  /** The communities of `cs` that carry the marker AS, in their order. */
  function Filter(cs: seq<Community>, marker: U16): (r: seq<Community>)
    ensures |r| <= |cs|
    ensures forall i :: 0 <= i < |r| ==> r[i].asn == marker
    ensures forall c :: c in r <==> c in cs && c.asn == marker
  {
    if cs == [] then []
    else (if cs[0].asn == marker then [cs[0]] else []) + Filter(cs[1..], marker)
  }

  /**
   * `Filter` keeps every marker-AS community as often as it occurs, so a
   * repeated fragment stays repeated, and drops every other community.
   */
  lemma {:induction false} FilterCounts(cs: seq<Community>, marker: U16)
    ensures forall c :: multiset(Filter(cs, marker))[c] == if c.asn == marker then multiset(cs)[c] else 0
  {
    if cs != [] {
      assert cs == [cs[0]] + cs[1..];
      FilterCounts(cs[1..], marker);
    }
  }
}

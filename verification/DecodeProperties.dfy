/**
 * What the decoding scan guarantees, stated over whole community lists:
 * communities of other ASes are ignored, the scan succeeds exactly when
 * each fragment type occurs once and no unknown tag occurs, the first bad
 * fragment decides the error, and decoding the two communities of an
 * encoded move gives the move back whatever their order.
 */
module DecodeProperties {
  import opened Bits
  import opened Codec

  // ---------------------------------------------------------------------
  // Communities of other ASes

  lemma {:induction false} FilterAppend(a: seq<Community>, b: seq<Community>, m: U16)
    ensures Filter(a + b, m) == Filter(a, m) + Filter(b, m)
  {
    if a != [] {
      assert (a + b)[1..] == a[1..] + b;
      FilterAppend(a[1..], b, m);
    } else {
      assert a + b == b;
    }
  }

  /** The scan sees only the communities of the marker AS. */
  lemma {:induction false} ScanIgnoresForeign(cs: seq<Community>, m: U16, st: Scan)
    ensures ScanFrom(cs, m, st) == ScanFrom(Filter(cs, m), m, st)
  {
    if cs != [] {
      var c, rest := cs[0], cs[1..];
      var f := Filter(rest, m);
      if c.asn == m {
        assert Filter(cs, m) == [c] + f;
        assert ([c] + f)[0] == c && ([c] + f)[1..] == f;
        match StepOn(st, c, m)
        case Stop(_) =>
        case Next(st') => ScanIgnoresForeign(rest, m, st');
      } else {
        assert Filter(cs, m) == [] + f == f;
        ScanIgnoresForeign(rest, m, st);
      }
    }
  }

  /** Removing every community of another AS leaves the reading unchanged. */
  lemma DecodeIgnoresForeign(cs: seq<Community>, m: U16)
    ensures Decode(cs, m) == Decode(Filter(cs, m), m)
  {
    ScanIgnoresForeign(cs, m, Start);
    ScanIgnoresForeign(Filter(cs, m), m, Start);
    FilterIdempotent(cs, m);
  }

  lemma {:induction false} FilterIdempotent(cs: seq<Community>, m: U16)
    ensures Filter(Filter(cs, m), m) == Filter(cs, m)
  {
    if cs != [] {
      var c, rest := cs[0], cs[1..];
      var f := Filter(rest, m);
      FilterIdempotent(rest, m);
      if c.asn == m {
        assert Filter(cs, m) == [c] + f;
        assert ([c] + f)[0] == c && ([c] + f)[1..] == f;
      } else {
        assert Filter(cs, m) == [] + f == f;
      }
    }
  }

  /** A community of another AS inserted anywhere changes nothing. */
  lemma DecodeForeignInsert(a: seq<Community>, c: Community, b: seq<Community>, m: U16)
    requires c.asn != m
    ensures Decode(a + [c] + b, m) == Decode(a + b, m)
  {
    assert Filter([c], m) == [] by {
      assert [c][0] == c && [c][1..] == [];
    }
    FilterAppend(a, [c], m);
    assert Filter(a + [c], m) == Filter(a, m) + [] == Filter(a, m);
    FilterAppend(a + [c], b, m);
    FilterAppend(a, b, m);
    DecodeIgnoresForeign(a + [c] + b, m);
    DecodeIgnoresForeign(a + b, m);
  }

  // ---------------------------------------------------------------------
  // When the scan succeeds

  /** Scanning a concatenation: the second part continues from where the first stopped. */
  lemma {:induction false} ScanAppend(a: seq<Community>, b: seq<Community>, m: U16, st: Scan)
    ensures ScanFrom(a + b, m, st)
      == match ScanFrom(a, m, st)
         case Stop(e) => Stop(e)
         case Next(st') => ScanFrom(b, m, st')
  {
    if a == [] {
      assert a + b == b;
    } else {
      assert (a + b)[0] == a[0] && (a + b)[1..] == a[1..] + b;
      if StepOn(st, a[0], m).Next? {
        ScanAppend(a[1..], b, m, StepOn(st, a[0], m).scan);
      }
    }
  }

  /** How many communities of the marker AS carry tag `t`. */
  function CountTag(cs: seq<Community>, m: U16, t: nat): nat
  {
    if cs == [] then 0
    else (if cs[0].asn == m && Tag(cs[0].data) == t then 1 else 0) + CountTag(cs[1..], m, t)
  }

  /** Every community of the marker AS carries tag 1 or tag 2. */
  predicate KnownTags(cs: seq<Community>, m: U16)
  {
    forall i :: 0 <= i < |cs| && cs[i].asn == m ==> Tag(cs[i].data) == CounterTag || Tag(cs[i].data) == PositionTag
  }

  function Seen(b: bool): nat { if b then 1 else 0 }

  /**
   * From any state the scan runs to the end exactly when no unknown tag
   * occurs and no fragment type occurs again after it has been read; it
   * then has read a fragment type exactly when it had read it before or
   * the type occurs once.
   */
  lemma {:induction false} ScanCounts(cs: seq<Community>, m: U16, st: Scan)
    ensures ScanFrom(cs, m, st).Next?
      <==> KnownTags(cs, m)
           && Seen(st.readCounter) + CountTag(cs, m, CounterTag) <= 1
           && Seen(st.readPosition) + CountTag(cs, m, PositionTag) <= 1
    ensures ScanFrom(cs, m, st).Next? ==>
      && ScanFrom(cs, m, st).scan.readCounter == (st.readCounter || CountTag(cs, m, CounterTag) == 1)
      && ScanFrom(cs, m, st).scan.readPosition == (st.readPosition || CountTag(cs, m, PositionTag) == 1)
  {
    if cs != [] {
      var c, rest := cs[0], cs[1..];
      assert KnownTags(cs, m) <==>
        (c.asn == m ==> Tag(c.data) == CounterTag || Tag(c.data) == PositionTag) && KnownTags(rest, m)
      by {
        if KnownTags(cs, m) {
          forall i | 0 <= i < |rest| && rest[i].asn == m
            ensures Tag(rest[i].data) == CounterTag || Tag(rest[i].data) == PositionTag
          {
            assert rest[i] == cs[i + 1];
          }
        }
        if (c.asn == m ==> Tag(c.data) == CounterTag || Tag(c.data) == PositionTag) && KnownTags(rest, m) {
          forall i | 0 <= i < |cs| && cs[i].asn == m
            ensures Tag(cs[i].data) == CounterTag || Tag(cs[i].data) == PositionTag
          {
            if i > 0 {
              assert cs[i] == rest[i - 1];
            }
          }
        }
      }
      match StepOn(st, c, m)
      case Stop(_) =>
      case Next(st') =>
        ScanCounts(rest, m, st');
    }
  }

  /** A read succeeds exactly when each fragment type occurs once and no unknown tag occurs. */
  lemma DecodeSucceedsIff(cs: seq<Community>, m: U16)
    ensures Decode(cs, m).err == None
      <==> KnownTags(cs, m) && CountTag(cs, m, CounterTag) == 1 && CountTag(cs, m, PositionTag) == 1
  {
    ScanCounts(cs, m, Start);
  }

  /**
   * A read reports missing data exactly when the scan finds nothing wrong
   * but one fragment type does not occur.
   */
  lemma DecodeNotEnoughIff(cs: seq<Community>, m: U16)
    ensures Decode(cs, m).err == Some(NotEnoughData)
      <==> && KnownTags(cs, m)
           && CountTag(cs, m, CounterTag) <= 1 && CountTag(cs, m, PositionTag) <= 1
           && (CountTag(cs, m, CounterTag) == 0 || CountTag(cs, m, PositionTag) == 0)
  {
    ScanCounts(cs, m, Start);
  }

  /**
   * The first marker-AS community with an unknown tag ends the read with
   * `InvalidType`, whatever follows it.
   */
  lemma InvalidTypeStops(a: seq<Community>, c: Community, b: seq<Community>, m: U16)
    requires ScanFrom(a, m, Start).Next?
    requires c.asn == m && Tag(c.data) != CounterTag && Tag(c.data) != PositionTag
    ensures Decode(a + [c] + b, m) == Reading(NoMove, Some(InvalidType))
  {
    ScanAppend(a, [c] + b, m, Start);
    assert a + [c] + b == a + ([c] + b);
    assert ([c] + b)[0] == c;
  }

  /**
   * A marker-AS community of a type that already occurred in a prefix the
   * scan accepted ends the read with `DupeType`, whatever follows it.
   */
  lemma DupeTypeStops(a: seq<Community>, c: Community, b: seq<Community>, m: U16)
    requires ScanFrom(a, m, Start).Next?
    requires c.asn == m && (Tag(c.data) == CounterTag || Tag(c.data) == PositionTag)
    requires CountTag(a, m, Tag(c.data)) == 1
    ensures Decode(a + [c] + b, m) == Reading(NoMove, Some(DupeType))
  {
    ScanCounts(a, m, Start);
    ScanAppend(a, [c] + b, m, Start);
    assert a + [c] + b == a + ([c] + b);
    assert ([c] + b)[0] == c;
  }

  // ---------------------------------------------------------------------
  // Round trip

  /** The two communities of the marker AS that announce a move. */
  function Announce(m: U16, g: int, x: int, y: int, s: int): (r: seq<Community>)
    ensures |r| == 2 && r[0].asn == m && r[1].asn == m
  {
    [Community(m, CounterCommunity(g)), Community(m, PositionCommunity(x, y, s))]
  }

  /** The move a peer reads back: each value cut to the width of its field. */
  function Received(g: int, x: int, y: int, s: int): (r: Move)
    ensures InRange(r)
  {
    Move(g % 16384, x % 16, y % 16, s % 4)
  }

  /** The scan over a counter fragment and a position fragment, in either order. */
  lemma ScanPair(m: U16, cw: U16, pw: U16)
    requires Tag(cw) == CounterTag && Tag(pw) == PositionTag
    ensures var st := Scan(true, true, Move(CounterOf(cw), XOf(pw), YOf(pw), OutcomeOf(pw)));
      && ScanFrom([Community(m, cw), Community(m, pw)], m, Start) == Next(st)
      && ScanFrom([Community(m, pw), Community(m, cw)], m, Start) == Next(st)
  {
    var c, p := Community(m, cw), Community(m, pw);
    var st := Scan(true, true, Move(CounterOf(cw), XOf(pw), YOf(pw), OutcomeOf(pw)));
    assert [c, p][1..] == [p] && [p, c][1..] == [c];
    assert [p][1..] == [] && [c][1..] == [];
    var afterC := Scan(true, false, Move(CounterOf(cw), 0, 0, 0));
    assert ScanFrom([c, p], m, Start) == ScanFrom([p], m, afterC);
    assert ScanFrom([p], m, afterC) == ScanFrom([], m, st);
    var afterP := Scan(false, true, Move(0, XOf(pw), YOf(pw), OutcomeOf(pw)));
    assert ScanFrom([p, c], m, Start) == ScanFrom([c], m, afterP);
    assert ScanFrom([c], m, afterP) == ScanFrom([], m, st);
  }

  /**
   * A route whose marker-AS communities are the two announced ones, in
   * either order, reads back the announced values cut to their fields.
   */
  lemma RoundTrip(cs: seq<Community>, m: U16, g: int, x: int, y: int, s: int)
    requires var ann := Announce(m, g, x, y, s);
      Filter(cs, m) == ann || Filter(cs, m) == [ann[1], ann[0]]
    ensures Decode(cs, m) == Reading(Received(g, x, y, s), None)
  {
    CounterFields(g);
    PositionFields(x, y, s);
    ScanPair(m, CounterCommunity(g), PositionCommunity(x, y, s));
    DecodeIgnoresForeign(cs, m);
  }

  /** A move whose values fit their fields is read back exactly. */
  lemma RoundTripInRange(cs: seq<Community>, m: U16, mv: Move)
    requires InRange(mv)
    requires var ann := Announce(m, mv.counter, mv.x, mv.y, mv.outcome);
      Filter(cs, m) == ann || Filter(cs, m) == [ann[1], ann[0]]
    ensures Decode(cs, m) == Reading(mv, None)
  {
    RoundTrip(cs, m, mv.counter, mv.x, mv.y, mv.outcome);
    DivModUnique(mv.counter, 16384, 0, mv.counter);
    DivModUnique(mv.x, 16, 0, mv.x);
    DivModUnique(mv.y, 16, 0, mv.y);
    DivModUnique(mv.outcome, 4, 0, mv.outcome);
  }

  // ---------------------------------------------------------------------
  // Truncation

  /** Counters that differ by a multiple of 2^14 give the same community. */
  lemma CounterWraps(g: int, k: int)
    ensures CounterCommunity(g + 16384 * k) == CounterCommunity(g)
  {
    var ws := CounterWidths;
    var vs, us := [CounterTag, ToU16(g + 16384 * k)], [CounterTag, ToU16(g)];
    Pow2Table();
    ToU16Low(g + 16384 * k, 14);
    ToU16Low(g, 14);
    DivModUnique(g + 16384 * k, 16384, g / 16384 + k, g % 16384);
    assert Truncate(ws, vs) == Truncate(ws, us);
    PackTruncates(ws, vs, us);
  }

  /** Positions that differ by a multiple of 16 in x or y, or of 4 in the outcome, give the same community. */
  lemma PositionWraps(x: int, y: int, s: int, i: int, j: int, k: int)
    ensures PositionCommunity(x + 16 * i, y + 16 * j, s + 4 * k) == PositionCommunity(x, y, s)
  {
    var ws := PositionWidths;
    var vs := [PositionTag, ToU16(x + 16 * i), 0, ToU16(y + 16 * j), ToU16(s + 4 * k), 0];
    var us := [PositionTag, ToU16(x), 0, ToU16(y), ToU16(s), 0];
    Pow2Table();
    ToU16Low(x + 16 * i, 4);
    ToU16Low(x, 4);
    ToU16Low(y + 16 * j, 4);
    ToU16Low(y, 4);
    ToU16Low(s + 4 * k, 2);
    ToU16Low(s, 2);
    DivModUnique(x + 16 * i, 16, x / 16 + i, x % 16);
    DivModUnique(y + 16 * j, 16, y / 16 + j, y % 16);
    DivModUnique(s + 4 * k, 4, s / 4 + k, s % 4);
    assert Truncate(ws, vs) == Truncate(ws, us);
    PackTruncates(ws, vs, us);
  }

  // ---------------------------------------------------------------------
  // A worked example

  /** Counter 1 is sent as 16385 and position (3, 7) with a miss as 35952. */
  lemma ExampleWords(g: int, x: int, y: int, s: int)
    requires g == 1 && x == 3 && y == 7 && s == 0
    ensures CounterCommunity(g) == 16385 && PositionCommunity(x, y, s) == 35952
  {
    CounterFormula(g);
    DivModUnique(g, 16384, 0, 1);
    PositionLayout(x, y, s);
    DivModUnique(x, 16, 0, 3);
    DivModUnique(y, 16, 0, 7);
    DivModUnique(s, 4, 0, 0);
    WordFromFields(PositionCommunity(x, y, s));
  }

  /** The one 16-bit word whose fields are tag 2, x 3, y 7 and outcome 0. */
  lemma WordFromFields(c: int)
    requires 0 <= c < 65536 && c / 16384 == 2 && (c / 1024) % 16 == 3 && (c / 256) % 4 == 0
    requires (c / 16) % 16 == 7 && (c / 4) % 4 == 0 && c % 4 == 0
    ensures c == 35952
  {
  }

  /**
   * A route announced by AS 23456 with another AS's community first: the
   * position fragment before the counter fragment still reads back as
   * counter 1 at (3, 7) with a miss.
   */
  lemma ExampleRoute()
    ensures Decode([Community(65000, 0), Community(23456, 35952), Community(23456, 16385)], 23456)
      == Reading(Move(1, 3, 7, 0), None)
  {
    var cs := [Community(65000, 0), Community(23456, 35952), Community(23456, 16385)];
    ExampleWords(1, 3, 7, 0);
    FilterSkipsFirst(cs, 23456);
    RoundTripInRange(cs, 23456, Move(1, 3, 7, 0));
  }

  /** Of three communities, only the last two carry the marker AS. */
  lemma FilterSkipsFirst(cs: seq<Community>, m: U16)
    requires |cs| == 3 && cs[0].asn != m && cs[1].asn == m && cs[2].asn == m
    ensures Filter(cs, m) == [cs[1], cs[2]]
  {
  }
}

/**
 * The protocol side of the BIRD gateway: building the two communities a
 * peer announces, and reading the opponent's move back from the
 * communities seen on the monitored route.
 *
 * The communities come in as a parameter; fetching them from the routing
 * daemon and writing the daemon's configuration are not part of this
 * model.  The marker AS, a command-line flag in the program, is a
 * parameter too.
 */
module Birdc {
  import opened Bits
  import opened BitIO
  import opened Codec

  /** A reader positioned at the top of the big-endian bytes of `v`. */
  method NumberToBitReader(v: U16) returns (r: BitReader)
    ensures fresh(r) && fresh(r.src)
    ensures r.src.Length == 2 && r.pos == 0 && r.Word() == v
  {
    var bits2 := new Byte[2](_ => 0);
    PutUint16BigEndian(bits2, v);
    assert bits2[..] == bits2[..2];
    r := new BitReader(bits2);
  }

  /**
   * The two community data words that announce a move: the counter
   * community and the position community.  Every value is first converted
   * to an unsigned 16-bit value and then cut to the width of its field.
   */
  method GenCommunities(gameIncrementor: int, x: int, y: int, hitOrMissOnLast: int)
    returns (counterCommunity: U16, positionCommunity: U16)
    ensures counterCommunity == CounterCommunity(gameIncrementor)
    ensures positionCommunity == PositionCommunity(x, y, hitOrMissOnLast)
  {
    counterCommunity := GenCounterCommunity(gameIncrementor);
    positionCommunity := GenPositionCommunity(x, y, hitOrMissOnLast);
  }

  /** The first half of `GenCommunities`: tag 1 and the counter through a bit writer. */
  method GenCounterCommunity(gameIncrementor: int) returns (counterCommunity: U16)
    ensures counterCommunity == CounterCommunity(gameIncrementor)
  {
    var counterNumberBytes := new Byte[2](_ => 0);
    var counterNumberBits := new BitWriter(counterNumberBytes);
    counterNumberBits.PutUint16(2, 1);
    counterNumberBits.PutUint16(14, ToU16(gameIncrementor));
    assert counterNumberBits.Widths == CounterWidths;
    assert counterNumberBits.Values == [CounterTag, ToU16(gameIncrementor)];
    CounterOffsets();
    counterNumberBits.Flush();
    assert counterNumberBytes[..][..2] == counterNumberBytes[..2];
    counterCommunity := Uint16BigEndian(counterNumberBytes[..]);
  }

  /** The second half of `GenCommunities`: tag 2, x, pad, y, outcome, pad through a bit writer. */
  method GenPositionCommunity(x: int, y: int, hitOrMissOnLast: int) returns (positionCommunity: U16)
    ensures positionCommunity == PositionCommunity(x, y, hitOrMissOnLast)
  {
    var positionNumberBytes := new Byte[2](_ => 0);
    var positionNumberBits := new BitWriter(positionNumberBytes);
    positionNumberBits.PutUint16(2, 2);
    positionNumberBits.PutUint16(4, ToU16(x));
    positionNumberBits.PutUint16(2, 0);
    positionNumberBits.PutUint16(4, ToU16(y));
    positionNumberBits.PutUint16(2, ToU16(hitOrMissOnLast));
    positionNumberBits.PutUint16(2, 0);
    assert positionNumberBits.Widths == PositionWidths;
    assert positionNumberBits.Values == [PositionTag, ToU16(x), 0, ToU16(y), ToU16(hitOrMissOnLast), 0];
    PositionOffsets();
    positionNumberBits.Flush();
    assert positionNumberBytes[..][..2] == positionNumberBytes[..2];
    positionCommunity := Uint16BigEndian(positionNumberBytes[..]);
  }

  /**
   * Reads the opponent's move from the communities of the monitored route:
   * the scan of `Decode`, one community at a time, with an early return on
   * a duplicate or unknown fragment.
   */
  method ReadBGP(communities: seq<Community>, communityAS: int)
    returns (gameIncrementor: nat, x: nat, y: nat, hitOrMissOnLast: nat, err: Option<DecodeError>)
    ensures Reading(Move(gameIncrementor, x, y, hitOrMissOnLast), err) == Decode(communities, ToU16(communityAS))
  {
    var marker := ToU16(communityAS);
    var readCounter, readPosition := false, false;
    gameIncrementor, x, y, hitOrMissOnLast := 0, 0, 0, 0;

    for i := 0 to |communities|
      invariant ScanFrom(communities, marker, Start)
        == ScanFrom(communities[i..], marker,
                    Scan(readCounter, readPosition, Move(gameIncrementor, x, y, hitOrMissOnLast)))
    {
      var community := communities[i];
      assert communities[i..][1..] == communities[i + 1..];
      if community.asn == marker {
        var r := NumberToBitReader(community.data);
        var t := r.Uint8(2);
        assert t == Tag(community.data);

        if t == 1 {
          if readCounter {
            return 0, 0, 0, 0, Some(DupeType);
          }
          readCounter := true;
          var c := r.Uint16(14);
          assert c == CounterOf(community.data);
          gameIncrementor := c;

        } else if t == 2 {
          if readPosition {
            return 0, 0, 0, 0, Some(DupeType);
          }
          readPosition := true;
          var xp := r.Uint16(4);
          assert xp == XOf(community.data);
          x := xp;
          r.Skip(2);
          var yp := r.Uint16(4);
          assert yp == YOf(community.data);
          y := yp;
          var hs := r.Uint16(2);
          assert hs == OutcomeOf(community.data);
          hitOrMissOnLast := hs;

        } else {
          return 0, 0, 0, 0, Some(InvalidType);
        }
      }
    }

    if readCounter && readPosition {
      return gameIncrementor, x, y, hitOrMissOnLast, None;
    }
    return 0, 0, 0, 0, Some(NotEnoughData);
  }

  /** A complaint the self-test logs. */
  datatype LogLine = WrongType | LogicErrorX(got: int, sent: int) | LogicErrorY(got: int, sent: int)

  /**
   * The self-test: for every x and y below 10, encode a position and read
   * the tag, x and y back with a bit reader; it logs nothing.
   */
  method TestBGPCode() returns (log: seq<LogLine>)
    ensures log == []
  {
    log := [];
    for x := 0 to 10
      invariant log == []
    {
      for y := 0 to 10
        invariant log == []
      {
        var c1, c2 := GenCommunities(1, x, y, 0);
        PositionFields(x, y, 0);
        DivModUnique(x, 16, 0, x);
        DivModUnique(y, 16, 0, y);

        var r := NumberToBitReader(c2);
        var t := r.Uint8(2);
        assert t == Tag(c2);
        if t != 2 {
          log := log + [WrongType];
        }
        var xp := r.Uint16(4);
        assert xp == XOf(c2);
        r.Skip(2);
        var yp := r.Uint16(4);
        assert yp == YOf(c2);
        if xp != x {
          log := log + [LogicErrorX(xp, x)];
        }
        if yp != y {
          log := log + [LogicErrorY(yp, y)];
        }
      }
    }
  }
}

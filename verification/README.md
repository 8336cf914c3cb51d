# BGP battleships: the community codec

Two BIRD routers play battleships by announcing a route to each other. A peer announces its move as two BGP communities tagged with a marker AS that both peers agree on (23456 by default). The 16-bit data half of each community carries one fragment of the move. Every fragment starts with a 2-bit type tag:

- Type 1, the move counter: `T T Z Z Z Z Z Z Z Z Z Z Z Z Z Z`. The counter goes up on every move, so the other peer can tell that a new move has arrived.
- Type 2, the attack position: `T T X X X X - - Y Y Y Y S S - -`. X and Y are the coordinates, S is the hit-or-miss outcome of the last move, and `-` is zero padding.

This project models the codec in `birdc.go`. A community is the pair of 16-bit numbers of `bgpCommunity` (birdc.go:17-20), the datatype `Codec.Community`, with fields `asn` and `data`.

- **Encoder.** `genCommunities` writes the fields, most significant bit first, through a cursor-based bit writer into a 2-byte buffer. It then reads the buffer back as a big-endian 16-bit word. Every value is converted to `uint16` first and cut to the width of its field.
- **Decoder.** The scan in `readBGP` walks over the communities of the monitored route and keeps those of the marker AS. For each one it reads the tag with a bit reader over the big-endian bytes of the data (`numberToBitReader`). It collects at most one counter fragment and one position fragment. It stops at once on a duplicate fragment (`errDupeType`) or an unknown tag (`errInvalidType`). It fails with `errNotEnoughData` unless both fragments were seen. On every error all four values are zero.
- **Self-test.** `testBGPCode` encodes every position with x and y below 10 and reads the tag, x and y back.

Modules:

- `Bits` (Bits.dfy): fixed-width unsigned fields and big-endian byte order. Shifts and masks are defined bit by bit. `Pack` and `Unpack` put a list of fields into one word and take them out again. `ToU16` models Go's conversion of an `int` to `uint16`.
- `BitIO` (BitIO.dfy): the two cursor-based classes. `BitWriter` keeps the written bits in a cache and writes them out big-endian on `Flush`. `BitReader` moves a bit position over a byte array and reads one bit at a time. This module also holds Go's `binary.BigEndian.Uint16` and `PutUint16`.
- `Codec` (Codec.dfy): the data types, the two encoders as functions, and the decoding scan as functions (`StepOn`, `ScanFrom`, `Decode`). These functions are the specification the methods are proved against.
- `Birdc` (Birdc.dfy): the Go functions as methods. `ReadBGP` is proved equal to `Decode`. `GenCommunities` is proved equal to the two encoder functions. `TestBGPCode` is proved to log nothing.
- `DecodeProperties` (DecodeProperties.dfy): what the scan guarantees over whole community lists:
  - communities of other ASes are ignored;
  - exactly when a read succeeds, and exactly when it reports missing data;
  - the first bad fragment decides the error;
  - encoding then decoding gives the values back in either fragment order;
  - the encoders wrap around;
  - a worked example.

The error values are `errDupeType`, `errInvalidType` and `errNotEnoughData`. The model calls them `DupeType`, `InvalidType` and `NotEnoughData`.

The layout comment at `birdc.go:39-64` announces "three communities", but it describes two, and the code uses two. The model follows the code.

`genCommunities` has two blocks, one per community. Each block becomes a method of its own (`GenCounterCommunity`, `GenPositionCommunity`), and `GenCommunities` calls them in the source's order. The two blocks share no state.

## Model

| member | source | states |
|---|---|---|
| Bits.ToU16 | birdc.go:158 | Go's `uint16(x)` keeps x modulo 2^16: the result differs from x by a multiple of 65536 |
| Bits.UnpackPack | birdc.go:153-176 | reading the fields back from a word packed most-significant-first gives every value cut to its width |
| Bits.PackUnpack | birdc.go:153-176 | packing the fields read from a word gives the word cut to the total width, so no field is lost |
| Bits.FieldOfPack | birdc.go:166-174 | the field at the bit offset of field i of a packed word is value i cut to its width |
| Bits.PackTruncates | birdc.go:166-174 | a packed word depends on each value only through its low `width` bits |
| Bits.FromToBigEndian | birdc.go:159-161 | reading back the n big-endian bytes of x gives the low 8n bits of x |
| Bits.ToFromBigEndian | birdc.go:69-72 | writing back the number read from a byte sequence gives the same bytes |
| BitIO.BitWriter.constructor | birdc.go:155 | a new writer over the given buffer holds no fields and is not flushed |
| BitIO.BitWriter.PutUint16 | birdc.go:157-158 | appends one field of width n to a writer that has not been flushed; the cache stays the packing of all fields written so far |
| BitIO.BitWriter.Flush | birdc.go:159 | the first ceil(count/8) bytes hold the cache big-endian, padded with zero bits at the bottom, and read back as that padded word; later bytes are unchanged; the writer is then flushed and takes no more fields |
| BitIO.PutBigEndian | birdc.go:159 | the first n bytes become the big-endian bytes of x; the rest of the buffer is unchanged |
| BitIO.BitReader.constructor | birdc.go:72 | a new reader over the given buffer, with the cursor at its first bit |
| BitIO.BitReader.Read | birdc.go:88 | returns the n bits that follow the cursor, most significant first (the field of the big-endian buffer at that offset), and advances the cursor by n |
| BitIO.BitReader.Uint8 | birdc.go:88 | the same for at most 8 bits; the value is below 256 |
| BitIO.BitReader.Uint16 | birdc.go:97 | the same for at most 16 bits; the value is below 65536 |
| BitIO.BitReader.Skip | birdc.go:108 | advances the cursor by n bits |
| BitIO.BitOfBytes | birdc.go:66-73 | bit i of a big-endian buffer, counted from the top, is bit 7 - i mod 8 of byte i / 8 |
| BitIO.Uint16BigEndian | birdc.go:161 | the first two bytes read as a big-endian number |
| BitIO.PutUint16BigEndian | birdc.go:71 | the first two bytes become the big-endian bytes of v and read back as v; the rest is unchanged |
| Codec.Tag | birdc.go:88 | the 2-bit tag the decoder reads first is below 4 |
| Codec.CounterOf | birdc.go:97 | the 14-bit counter after the tag is below 16384 |
| Codec.XOf | birdc.go:106 | the 4-bit x after the tag is below 16 |
| Codec.YOf | birdc.go:109 | the 4-bit y, after x and 2 skipped bits, is below 16 |
| Codec.OutcomeOf | birdc.go:111 | the 2-bit outcome after y is below 4 |
| Codec.FieldsAsArithmetic | birdc.go:88-111 | the fields the reader takes at bit offsets 0, 2, 2, 8 and 12 are d/16384, d mod 16384, (d/1024) mod 16, (d/16) mod 16 and (d/4) mod 4 |
| Codec.CounterCommunity | birdc.go:154-161 | the counter community, built by packing tag 1 over the counter; the decoder reads its tag as the counter tag |
| Codec.PositionCommunity | birdc.go:163-174 | the position community, built by packing tag 2, x, pad, y, outcome, pad; the decoder reads its tag as the position tag |
| Codec.CounterFormula | birdc.go:157-161 | the counter community is 16384 plus the counter modulo 16384 |
| Codec.CounterLayout | birdc.go:157-161 | top two bits 1; low 14 bits the counter modulo 2^14, so 16384 is sent like 0 |
| Codec.PositionLayout | birdc.go:166-174 | counting bits from the least significant one: bits 15-14 are 2, bits 13-10 x mod 16, bits 9-8 zero, bits 7-4 y mod 16, bits 3-2 the outcome mod 4, bits 1-0 zero |
| Codec.CounterFields | birdc.go:88-97 | the decoder's tag and counter readers return 1 and the counter modulo 2^14 on an encoded counter community |
| Codec.PositionFields | birdc.go:100-111 | the decoder's tag, x, y and outcome readers return 2, x mod 16, y mod 16 and outcome mod 4 on an encoded position community |
| Codec.StepOn | birdc.go:85-117 | one pass of the loop body: it never stops with `NotEnoughData`, never clears a fragment flag, and keeps the collected values within their fields |
| Codec.ScanFrom | birdc.go:84-118 | the scan never stops with `NotEnoughData`, and from a state whose values fit their fields it continues only to such states |
| Codec.Decode | birdc.go:79-124 | the decoded values always fit their fields (counter < 16384, x < 16, y < 16, outcome < 4), and they are all zero whenever an error is returned |
| Codec.Filter | birdc.go:85 | keeps the same set of communities as the marker-AS ones of its input, and is no longer than its input |
| Codec.FilterCounts | birdc.go:85 | every marker-AS community is kept as many times as it occurs, and every other community is dropped |
| Birdc.NumberToBitReader | birdc.go:66-73 | a fresh reader at bit 0 over a fresh 2-byte buffer whose big-endian value is the data word |
| Birdc.GenCommunities | birdc.go:153-176 | returns exactly the counter and position communities the layouts describe |
| Birdc.GenCounterCommunity | birdc.go:154-161 | the bit writer, flush and big-endian read produce the counter community |
| Birdc.GenPositionCommunity | birdc.go:163-174 | the bit writer, flush and big-endian read produce the position community |
| Birdc.ReadBGP | birdc.go:79-124 | the loop with its early returns gives exactly the reading `Decode` specifies, under the marker AS converted to `uint16` |
| Birdc.TestBGPCode | birdc.go:126-151 | for every x and y below 10 the tag reads back as 2 and x and y read back unchanged, so nothing is logged |
| DecodeProperties.ScanIgnoresForeign | birdc.go:85 | from any state, the scan gives the same step whether or not the communities of other ASes are removed |
| DecodeProperties.DecodeIgnoresForeign | birdc.go:85 | a read gives the same result on the marker-AS communities alone |
| DecodeProperties.DecodeForeignInsert | birdc.go:85 | inserting a community of another AS anywhere, with any data, does not change the reading |
| DecodeProperties.ScanAppend | birdc.go:84-118 | the scan over a concatenation continues from where the first part stopped, or stops with the first part's error |
| DecodeProperties.ScanCounts | birdc.go:84-118 | the scan runs to the end exactly when every marker-AS tag is 1 or 2 and no fragment type is seen twice; it then has read exactly the types that occur |
| DecodeProperties.DecodeSucceedsIff | birdc.go:120-121 | no error exactly when every marker-AS tag is 1 or 2 and each type occurs exactly once |
| DecodeProperties.DecodeNotEnoughIff | birdc.go:122-123 | `NotEnoughData` exactly when every tag is 1 or 2, no type occurs twice, and some type does not occur |
| DecodeProperties.InvalidTypeStops | birdc.go:114-116 | after an accepted prefix, a marker-AS community with tag 0 or 3 gives `InvalidType` and zeros whatever follows it |
| DecodeProperties.DupeTypeStops | birdc.go:90-103 | after an accepted prefix holding one fragment of a type, another fragment of that type gives `DupeType` and zeros whatever follows it |
| DecodeProperties.ScanPair | birdc.go:84-111 | a counter fragment and a position fragment, in either order, are scanned to the same state with both types read |
| DecodeProperties.RoundTrip | birdc.go:126-151 | a route whose marker-AS communities are the two encoded ones, in either order, decodes without error to the counter mod 2^14, x mod 16, y mod 16 and outcome mod 4 |
| DecodeProperties.RoundTripInRange | birdc.go:126-151 | for values that fit their fields, the decoded move is exactly the encoded one |
| DecodeProperties.CounterWraps | birdc.go:158 | counters that differ by a multiple of 2^14 give the same counter community |
| DecodeProperties.PositionWraps | birdc.go:167-170 | x or y differing by a multiple of 16, or the outcome by a multiple of 4, give the same position community |
| DecodeProperties.ExampleWords | birdc.go:153-176 | counter 1 is sent as 16385; position (3, 7) with outcome 0 is sent as 35952 |
| DecodeProperties.ExampleRoute | birdc.go:79-124 | AS 23456 sends the position before the counter, after a community (65000, 0); the route decodes to counter 1 at (3, 7), outcome 0, with no error |

## Left out

- `readCommunities` (birdc.go:250-287) is not part of this model. It talks to the BIRD daemon over a Unix socket, extracts `(AS,Data)` pairs with a regular expression and converts them with `strconv.ParseInt`. The communities it would return are a parameter of `ReadBGP`, already as 16-bit pairs.
- `writeBGP` and `resetBird` (birdc.go:178-248) are not part of this model. They do file I/O, send `configure` to the daemon and substitute text in a template. Only their use of `genCommunities` is covered, by `GenCommunities`.
- The flag globals (birdc.go:24-37) are parameters. The marker AS is an integer that `ReadBGP` converts to `uint16` as the source does. The prefix and the file and socket paths take no part in the codec.
- The log output of `testBGPCode` is modelled as the list of lines it would print. Printing itself is left out.
- The `iobit` library is not shown. `BitWriter` and `BitReader` model the effect the layout comment describes: most-significant-first fields over big-endian bytes. Several iobit behaviours are not modelled, because `birdc.go` never triggers them. Instead, `requires` clauses keep the model within what birdc uses:
  - reading past the end of the buffer;
  - writing more bits than the buffer holds;
  - fields wider than the reader call allows;
  - reusing a writer after `Flush`: a writer is marked flushed, and `PutUint16` and `Flush` require that it is not.
- Go's `int` is 64 bits wide; the model's integers are unbounded. Every value the codec takes in goes through `uint16(...)`, which keeps the low 16 bits of any integer, so no encoded result depends on the width.
- The Go error values are `fmt.Errorf` values that callers compare by identity. They are modelled as the three constructors of `DecodeError`, and their message texts are left out.

# IlluminatIR packet codec in Dafny

A model of libilluminatir, a byte-level codec for setting the values of 256 lighting channels over
an infrared link, together with proofs about that model. A packet is laid out as follows:

- a header byte: 2 bits of version, 2 bits of payload type, and 4 bits holding the payload size
  minus 2;
- a payload of 2 to 17 bytes;
- a CRC-8 checksum.

The three payload types are OffsetArray, Channel:Value pairs and Config key/value. Packets can be
framed with Consistent Overhead Byte Stuffing (COBS). They can also be scrambled by XOR with the
stream of a small shift-register generator before framing.

The model has five modules, one per source file:

- `Protocol` (`include/illuminatir.h`) holds the constants, the header bit layout, the error
  enumeration and the two COBS size macros.
- `Packet` (`src/illuminatir.c`) holds the parser and the two builders.
  - `Parse` is a function. It returns the error code and the callbacks the C code would have
    invoked, as a trace of `SetChannel` and `SetConfig` events. A NULL callback is a flag in
    `Callbacks`.
  - The builders are methods that write the caller's `array` and return the new out-size.
- `Cobs` (`src/cobs.c`) holds the encoder and the decoder, as methods over the destination
  array that are proved against the functions `Encoded` and `Decoded`, and the parse and build
  wrappers.
- `Lfsr` (`src/lfsr.c`) models the static register `lfsr127` as the one `bv8` field of class
  `Lfsr127`; `Init` and `NextByte` update it.
- `Rand` (`src/rand.c`) holds the in-place XOR randomizer and its wrappers. They take the
  generator object as a parameter, since in C it is a global.

Main results:

- `Cobs.DecodeEncode` proves decode(encode(s)) == s for every non-empty s.
- `Cobs.EncodedHasNoZero` proves the encoding contains no zero byte.
- `Cobs.EncodedLength` and `Cobs.DecodedLength` prove the size bounds of the two size macros.
- `Rand.RandomizedInvolution` proves that randomizing twice restores the buffer.
- `Packet.ParseOffsetArrayPacket` proves that parsing a built OffsetArray packet gives back its
  channel values. `Packet.ParseConfigPacket` proves the same for a Config packet whose key
  contains no zero byte: for any other key, the parser stops the key at its first zero.
- `Cobs.CobsOffsetArrayRoundTrip`, `Cobs.CobsConfigRoundTrip`, `Rand.RandCobsOffsetArrayRoundTrip`
  and `Rand.RandCobsConfigRoundTrip` prove the same for the framed and the randomized-and-framed
  paths.
- The encoder, decoder, builders, generator and randomizer methods are proved against those
  functions by loop invariants.

Points where the model follows the code as written:

- **One packet per parse.** `illuminatir_parse` accepts exactly one packet: any length other
  than payload size + 2 is INVALID_SIZE (`src/illuminatir.c:68`). The tests that parse several
  concatenated packets expect something the code does not do. The model follows the code.
- **UNKNOWN is never returned by parse.** The UNKNOWN return at `src/illuminatir.c:126` cannot
  be reached, and the PACKET_TOO_LONG check is commented out. `Packet.Parse` states that neither
  code is returned.
- **The checksum is a parameter.** `illuminatir_crc8` is only declared, so the checksum is a
  parameter `crc: Crc8`, an arbitrary function of the bytes and the seed. Every property holds
  for every such function.
- **`ILLUMINATIR_PACKET_MAXSIZE` is taken as 19.** The wrappers use it, but the header does not
  define it. The model takes the value of `ILLUMINATIR_MAX_PACKET_SIZE`.
- **Different errors for an empty decode.** `illuminatir_rand_cobs_parse` reports a failed or
  empty decode as INVALID_SIZE, while `illuminatir_cobs_parse` reports UNKNOWN. Both are
  modelled as written.
- **The register is a full 8 bits.** The comment in `src/lfsr.c` describes a 7-bit register
  with polynomial x^7 + x^6 + 1, but the feedback is not masked to one bit. So bit 6 of the new
  register is old bit 7 ORed with (bit 0 XOR bit 1), and bit 7 is bit 1 XOR bit 2. The register
  uses all 8 bits: 0x02 steps to 0xC1 (`Lfsr.RegisterLeavesSevenBits`, `Lfsr.ShiftBits`).
  - This is not listed as a finding, because the randomizer's wire format depends on this
    stream.
  - A nonzero register never becomes zero (`Lfsr.ShiftNonZero`).
- **The stored size is truncated.** The wrappers store the encoder's `size_t` result through a
  `uint8_t *`. That truncation is written out as `Cobs.StoredSize`.
  `Cobs.EncodedPacketLength` shows it never changes a value, since a framed packet is at most
  20 bytes.

## Model

| member | source | states |
|---|---|---|
| Protocol.ErrorCode | include/illuminatir.h:121-132 | the enumerators have codes 0..9, and code 0 is exactly NONE |
| Protocol.ErrorCodeBijective | include/illuminatir.h:121-132 | distinct enumerators have distinct codes, so the 10 codes form a closed set |
| Protocol.Version | src/illuminatir.c:62 | the version field of a header byte is below 4; `Protocol.HeaderByte` and `Protocol.HeaderFieldsDecompose` pin it to bits 6-7 |
| Protocol.PayloadType | src/illuminatir.c:66 | the payload-type field is below 4; the same two lemmas pin it to bits 4-5 |
| Protocol.PayloadSizeField | src/illuminatir.c:67 | the size field is below 16; the same two lemmas pin it to bits 0-3 |
| Protocol.PayloadSize | src/illuminatir.c:67 | every header announces a payload of 2..17 bytes, so a packet of 4..19 bytes |
| Protocol.HeaderByte | include/illuminatir.h:28-46 | packing version, type and size field into a byte gives back each field unchanged |
| Protocol.HeaderFieldsDecompose | include/illuminatir.h:28-46 | every byte is the packing of its own three fields, so the header layout is a bijection |
| Protocol.PayloadSizeFieldRange | include/illuminatir.h:45-46 | size field f announces a payload of f + 2 bytes, which lies in 2..17 |
| Protocol.EncodeDstMaxSize | include/illuminatir.h:161 | `ENCODE_DST_MAXSIZE(n)` is n plus the ceiling of n/254: the added amount is the least k with 254k >= n |
| Protocol.DecodeDstMaxSize | include/illuminatir.h:162 | `DECODE_DST_MAXSIZE(n)` is 0 for n = 0 and n - 1 otherwise, so it never underflows |
| Protocol.PacketSizeConstants | include/illuminatir.h:114-118 | 4 = 1 + 2 + 1 and 19 = 1 + 17 + 1; value counts 1..16 fit the size field minus one; a maximal packet frames into 20 bytes |
| Protocol.XorTwice | src/rand.c:15 | XORing a byte with the same stream byte twice restores it |
| Packet.StrnLen | src/illuminatir.c:113 | `strnlen` is the length of the zero-free prefix: no zero before it, and a zero at it unless it is the whole length |
| Packet.Parse | src/illuminatir.c:49-127 | no event on any error; NULL_POINTER exactly for a NULL buffer; never UNKNOWN, BUFFER_OVERFLOW or PACKET_TOO_LONG; NONE only for a well-formed packet with a matching checksum |
| Packet.ParseCheckOrder | src/illuminatir.c:51-124 | each error is returned exactly when its check fails and all earlier checks pass, in the order too short, version, size, checksum, format |
| Packet.OffsetArrayEventsAt | src/illuminatir.c:83-87 | the OffsetArray loop from index i emits one event per remaining value, with event j setting channel offset+i+j mod 256 to value i+j |
| Packet.PairEventsLength | src/illuminatir.c:94-105 | the Channel:Value loop emits ceil(n/2) events for n payload bytes |
| Packet.PairEventsAt | src/illuminatir.c:94-105 | event k sets channel payload[2k] to payload[2k+1], or to 0 for a lone trailing byte |
| Packet.ParseOffsetArray | src/illuminatir.c:79-89 | a valid OffsetArray packet yields exactly payload size - 1 events, event i setting channel offset+i mod 256 to payload byte 1+i |
| Packet.ParseChannelValuePairs | src/illuminatir.c:90-107 | a valid Channel:Value packet yields n/2 + n%2 events: the pairs in order, then value 0 for an odd trailing channel |
| Packet.ParseConfig | src/illuminatir.c:108-121 | a valid Config packet yields one SetConfig whose key is the zero-free prefix; the payload is key, 0, values when a zero is present, otherwise the whole key with no values; the lengths add up |
| Packet.ParseCallbackAbsent | src/illuminatir.c:78-124 | without the needed callback, types 0-2 return NONE with no events; type 3 still returns UNSUPPORTED_FORMAT |
| Packet.OffsetArrayPacket | src/illuminatir.c:146-154 | the OffsetArray packet for 1..16 values is values + 3 bytes long, within 4..19 |
| Packet.ConfigPacket | src/illuminatir.c:176-186 | the Config packet is key + values + 3 bytes long, within 4..19 |
| Packet.BuildOffsetArray | src/illuminatir.c:130-156 | NULL size gives NULL_POINTER; a count outside 1..16 gives INVALID_SIZE with size and buffer untouched; otherwise the size becomes count + 3 even when BUFFER_OVERFLOW is returned without writing; on success exactly the packet bytes are written and nothing beyond |
| Packet.WriteOffsetArray | src/illuminatir.c:146-154 | the write loop leaves header, offset, the values and the checksum of the preceding bytes in the buffer, and nothing beyond them |
| Packet.BuildConfig | src/illuminatir.c:159-188 | the same checks and out-size behaviour for key + 1 + values in 2..17, with the sum taken without wrap-around; on success the Config packet is written and nothing beyond |
| Packet.WriteConfig | src/illuminatir.c:176-186 | the writes leave header, key, zero delimiter, values and checksum in the buffer, and nothing beyond them |
| Packet.ParseOffsetArrayPacket | src/illuminatir.c:146-154 | parsing a built OffsetArray packet returns NONE and sets channel offset+i mod 256 to value i, for every value, in order |
| Packet.ParseConfigPacket | src/illuminatir.c:176-186 | parsing a built Config packet whose key has no zero byte returns NONE and exactly one SetConfig(key, values) |
| Packet.Channel | src/illuminatir.c:85 | the channel `offset + i` computed in `uint8_t`, wrapping modulo 256; `Packet.OffsetArrayEventsAt` states its use |
| Packet.OffsetArrayEvents | src/illuminatir.c:83-87 | the events of the OffsetArray loop from value i on, one per remaining value; their contents are stated by `Packet.OffsetArrayEventsAt` |
| Packet.PairEvents | src/illuminatir.c:94-105 | the events of the Channel:Value loop over the payload after the header; `Packet.PairEventsLength` and `Packet.PairEventsAt` state their number and contents |
| Packet.ConfigEvent | src/illuminatir.c:108-119 | the one SetConfig of a Config payload: the key is the `strnlen` prefix and the values follow its delimiter; `Packet.ParseConfig` states how the payload splits |
| Packet.ConfigPayloadSizeAsWritten | src/illuminatir.c:164 | the payload-size sum as the code computes it, in `uint8_t`; `Packet.ConfigPayloadSizeAsWrittenCharacterised` states when it wraps |
| Packet.ConfigPayloadSizeWrapAdmitsLongKey | src/illuminatir.c:164-170 | with the 8-bit sum as written, key length 255 and 2 values pass both range checks and announce a 4-byte packet for 260 bytes of data |
| Packet.ConfigPayloadSizeAsWrittenCharacterised | src/illuminatir.c:164-170 | the wrapped sum differs from the true sum exactly when the true sum exceeds 255, and it wrongly passes the range checks exactly for true sums 258..273 |
| Cobs.RunLength | src/cobs.c:21-25 | a block's run is at most the cap and the input length, and it stops only at a zero, the cap or the end |
| Cobs.RunLengthNonZero | src/cobs.c:22-23 | every byte of a run is nonzero |
| Cobs.Encoded | src/cobs.c:18-33 | the encoding as blocks: a code byte then the run of up to 254 nonzero bytes, split at each zero; its shape is stated by `Cobs.EncodedZeroSplit`, `Cobs.EncodedFullSplit` and `Cobs.EncodedTail` |
| Cobs.DecodeLoop | src/cobs.c:44-59 | the decoder loop from a given previous code and block counter; `Cobs.DecodeLoopCopies`, `Cobs.DecodeLoopBlock` and `Cobs.DecodeStopsAtDelimiter` state its steps |
| Cobs.Decoded | src/cobs.c:44-59 | the decoding, started with code 255 so that the first code byte adds no zero; `Cobs.DecodeEncode` and `Cobs.DecodedLength` state its properties |
| Cobs.Pending | src/cobs.c:50-52 | code 255 stands for no byte and any other code for exactly one zero byte |
| Cobs.EncodedZeroSplit | src/cobs.c:22-29 | a zero within the first 254 bytes closes the block with code run length + 1, and encoding continues after the zero |
| Cobs.EncodedFullSplit | src/cobs.c:22-29 | 254 nonzero bytes close the block with code 255, and no slot is opened when the input ends there |
| Cobs.EncodedTail | src/cobs.c:32 | fewer than 254 nonzero bytes up to the end form the final block, with code length + 1 |
| Cobs.EncodedHasNoZero | src/cobs.c:18-33 | no encoding contains a zero byte |
| Cobs.EncodedLength | src/cobs.c:12-33 | a non-empty input of n bytes encodes to between n + 1 and `ENCODE_DST_MAXSIZE(n)` bytes |
| Cobs.DecodeLoopCopies | src/cobs.c:47-48 | with a block counter of k, the decoder copies the next k bytes unchanged |
| Cobs.DecodeLoopBlock | src/cobs.c:46-57 | one block decodes to the previous block's pending zero, then its bytes, then the rest under its own code |
| Cobs.DecodeLoopEncoded | src/cobs.c:36-60 | after a block with code c, decoding the encoding of s gives c's pending zero followed by s |
| Cobs.DecodeEncode | src/cobs.c:10-60 | decode(encode(s)) == s for every non-empty s, across zeros and the 254-byte block boundary |
| Cobs.DecodeLoopLength | src/cobs.c:44-59 | each input byte yields at most one output byte, and the first code byte yields none |
| Cobs.DecodedLength | src/cobs.c:38-59 | the decoding of n bytes is at most `DECODE_DST_MAXSIZE(n)` bytes |
| Cobs.DecodeStopsAtDelimiter | src/cobs.c:53-56 | a zero code byte ends decoding, and the rest of the input is ignored |
| Cobs.DecodeDelimiterExample | src/cobs.c:50-56 | `02 A5 00` decodes to `A5 00`, `02 A5` to `A5`, and a leading zero to nothing |
| Cobs.EncodeByte | src/cobs.c:21-31 | one loop iteration keeps the encoder invariant: the written output, with the reserved slot patched, followed by the encoding of the open block and the rest, is the whole encoding |
| Cobs.EncodeCopyByte | src/cobs.c:22-24 | a nonzero byte is appended to the open block, stays within the encoding's length, and nothing else changes |
| Cobs.EncodeCloseBlock | src/cobs.c:25-30 | closing a block patches its code, opens a new slot unless a full block ended the input, and keeps the encoder invariant |
| Cobs.PatchCode | src/cobs.c:26 | the back-patch changes exactly the reserved slot |
| Cobs.ClosedBlockInvariant | src/cobs.c:26-29 | after a closed block the encoder invariant holds with an empty block at the new slot, or with no slot after a final full block |
| Cobs.EncoderStarts | src/cobs.c:18-20 | the initial pointers (slot 0, next byte 1, code 1) satisfy the encoder invariant |
| Cobs.EncodeBlocks | src/cobs.c:18-33 | the encoder loop writes exactly the encoding and nothing beyond it |
| Cobs.EncodeFinish | src/cobs.c:32 | the final code goes into the reserved slot when there is one, which completes the encoding |
| Cobs.Encode | src/cobs.c:10-34 | returns 0 and writes nothing for a NULL or empty source, a NULL destination or a size below `ENCODE_DST_MAXSIZE`; otherwise returns the encoding's length, at most dst_size, writes exactly the encoding and nothing beyond it |
| Cobs.DecodeBlocks | src/cobs.c:44-59 | the decoder loop writes exactly the decoding and nothing beyond it |
| Cobs.DecodeCopyByte | src/cobs.c:47-48 | a block byte is copied and the decoder invariant is kept |
| Cobs.DecodeCodeByte | src/cobs.c:49-56 | at a code byte the pending zero is written and the next code is read; a zero code stops with the whole decoding written |
| Cobs.Decode | src/cobs.c:36-60 | returns 0 and writes nothing for rejected inputs; otherwise returns the decoding's length, at most dst_size, writes exactly the decoding and nothing beyond it |
| Cobs.EncoderAsWrittenOpenBlock | src/cobs.c:21-24 | as written, after i < 254 nonzero bytes the slot is still dst[0], the next byte is dst[i+1] and the code is i+1 |
| Cobs.EncoderOverflowAsWritten | src/cobs.c:26-32 | as written, 254 nonzero bytes with dst_size 255 pass the size check and end with the code slot at index 255, the returned length, so the final code write lands outside the buffer |
| Cobs.EncoderStepAsWritten | src/cobs.c:21-31 | one loop iteration of the encoder as written, on the three pointers |
| Cobs.EncoderAfterAsWritten | src/cobs.c:21-32 | the pointers after i iterations as written; `Cobs.EncoderAsWrittenOpenBlock` and `Cobs.EncoderOverflowAsWritten` state what they are |
| Cobs.CobsParse | src/cobs.c:63-71 | decodes into 19 bytes; a rejected or empty decode gives UNKNOWN with no events, otherwise the result is parse of the decoding |
| Cobs.EncodedPacketLength | src/cobs.c:85 | a raw packet of at most 19 bytes encodes to at most 20, so storing the length in a `uint8_t` loses nothing |
| Cobs.StoredSize | src/cobs.c:85 | storing a length through a `uint8_t *` keeps it modulo 256, and unchanged below 256 |
| Cobs.BuildOffsetArrayRaw | src/cobs.c:79-84 | building into the 19-byte buffer never overflows: INVALID_SIZE for a bad count, otherwise the OffsetArray packet and its length |
| Cobs.BuildConfigRaw | src/cobs.c:98-103 | the same for the Config packet |
| Cobs.EncodeInto | src/cobs.c:85-89 | encode failure stores size 0 and returns UNKNOWN with the buffer untouched; otherwise NONE, the encoding's length stored, and exactly the encoding written |
| Cobs.CobsBuildOffsetArray | src/cobs.c:74-90 | NULL size gives NULL_POINTER; builder errors pass through with size and buffer untouched; otherwise the caller's buffer holds encode(build_offsetArray(...)), or size 0 and UNKNOWN when it does not fit |
| Cobs.CobsBuildConfig | src/cobs.c:93-109 | the same for build_config |
| Cobs.CobsOffsetArrayRoundTrip | src/cobs.c:63-90 | a framed OffsetArray packet fits the 19-byte receive buffer, decodes to the packet and parses to its channel values |
| Cobs.CobsConfigRoundTrip | src/cobs.c:63-109 | a framed Config packet whose key has no zero byte decodes and parses to exactly SetConfig(key, values) |
| Lfsr.Shift | src/lfsr.c:31-32 | one step of the register with the unmasked feedback; `Lfsr.ShiftBits` and `Lfsr.ShiftNonZero` state its bits |
| Lfsr.OutputByte | src/lfsr.c:27-36 | the byte the 8 iterations accumulate, MSB first; `Lfsr.OutBitsIsOutputByte` ties it to the loop |
| Lfsr.KeyState | src/lfsr.c:27-36 | the register after j byte requests, 8 shifts each; `Lfsr.KeyStateNonZero` states it stays nonzero |
| Lfsr.KeyByte | src/lfsr.c:27-36 | the j-th stream byte, the output byte of the j-th register state; `Lfsr.Lfsr127.NextByte` returns it |
| Lfsr.Seed | src/lfsr.c:18-25 | the result is never zero; a zero seed becomes 1; any other seed is kept, all 8 bits |
| Lfsr.OutBitsIsOutputByte | src/lfsr.c:29-35 | after the 8 iterations the accumulated byte has, MSB first, bit 0 of the register after shifts 1..8 |
| Lfsr.ShiftBits | src/lfsr.c:31-32 | one shift moves bits 1-6 down to bits 0-5; new bit 6 is old bit 7 OR (bit 0 XOR bit 1); new bit 7 is bit 1 XOR bit 2 |
| Lfsr.ShiftNonZero | src/lfsr.c:31-32 | a nonzero register shifts to a nonzero register |
| Lfsr.ShiftNNonZero | src/lfsr.c:30-34 | any number of shifts keeps a nonzero register nonzero |
| Lfsr.KeyStateNonZero | src/lfsr.c:16-36 | after any number of byte requests a seeded register is still nonzero |
| Lfsr.RegisterLeavesSevenBits | src/lfsr.c:9-32 | the register is not the 7-bit register the comment describes: 0x02 steps to 0xC1 |
| Lfsr.Lfsr127.constructor | src/lfsr.c:16 | the register starts at 1 |
| Lfsr.Lfsr127.Init | src/lfsr.c:18-25 | the register becomes Seed(seed) |
| Lfsr.Lfsr127.NextByte | src/lfsr.c:27-36 | returns the output byte of the old register and leaves it shifted 8 times, so the stream is a function of the register alone |
| Rand.Randomized | src/rand.c:13-16 | the randomization of a buffer, which keeps its length; `Rand.RandomizedBytes` states each byte |
| Rand.RandomizedBytes | src/rand.c:10-16 | randomizing keeps the length; a buffer under 3 bytes is unchanged; otherwise bytes 0 and n-1 are kept and byte i of 1..n-2 is XORed with stream byte i-1 of the checksum-seeded generator |
| Rand.RandomizedIs | src/rand.c:14-16 | any buffer with those bytes is the randomized buffer |
| Rand.RandomizedInvolution | src/rand.c:13-16 | randomizing twice gives back the buffer |
| Rand.Rand | src/rand.c:8-17 | a NULL buffer or size < 3 changes nothing; otherwise the buffer's first size bytes become their randomization, the rest is untouched, and the register has advanced by size - 2 bytes from the seed |
| Rand.RandBytes | src/rand.c:14-16 | the loop XORs bytes 1..size-2 with successive generator bytes and leaves bytes 0 and size-1 and beyond untouched |
| Rand.RandCobsParse | src/rand.c:20-29 | a rejected or empty decode gives INVALID_SIZE with the generator untouched; otherwise the result is parse of the randomized decoding |
| Rand.RandomizeAndEncode | src/rand.c:43-48 | the caller's buffer receives encode(rand(packet)), or size 0 and UNKNOWN when it does not fit |
| Rand.RandCobsBuildOffsetArray | src/rand.c:32-49 | NULL size gives NULL_POINTER and builder errors pass through, both with the generator untouched; otherwise the output is encode(rand(build_offsetArray(...))) or UNKNOWN with size 0 |
| Rand.RandCobsBuildConfig | src/rand.c:52-69 | the same for build_config |
| Rand.RandCobsOffsetArrayRoundTrip | src/rand.c:20-49 | a randomized, framed OffsetArray packet decodes, is restored by the second randomization and parses to its channel values |
| Rand.RandCobsConfigRoundTrip | src/rand.c:20-69 | the same for a Config packet whose key has no zero byte, giving exactly SetConfig(key, values) |

## Left out

- The CRC-8 algorithm: `illuminatir_crc8` has no body in this repository's files. The checksum is a parameter, and no property depends on its polynomial. So nothing is proved about how well it detects errors.
- `illuminatir_error_toString`: its strings and the AVR `PSTR`/`PROGMEM` variant are a lookup table for display; only the enumeration and its codes are modelled.
- The generator's period: the claim that every seed gives at least 127 distinct bytes before the stream repeats is not proved. It would need an enumeration of all 255 seeds.
- Parsing several concatenated packets: the parser does not implement it, and the 19-byte intermediate buffers cannot hold more than one maximal packet.
- The global register: it is an `Lfsr127` object passed to the randomizer functions. Its thread safety is a concurrency concern outside this model.
- Callbacks: they are an event trace. The functions behind the pointers, and anything they do, are not modelled.
- Pointer aliasing and NULL inputs:
  - input buffers are immutable sequences;
  - the builders' output buffer is a non-null array, since the C code dereferences it without a check;
  - the source and destination of encode and decode are assumed not to overlap.
- `Cobs.Encode`: it does not perform the final code write past the returned length (see Findings).
- `Cobs.EncodeFinish`: it writes the final code only when a slot is reserved, the corrected `src/cobs.c:32`, so the write past the returned length is not modelled (see Findings).
- `Cobs.EncodeBlocks`: it ends without the final code write, which `Cobs.EncodeFinish` makes only when a slot is reserved (see Findings).
- `Packet.BuildConfig`: it checks the unwrapped payload-size sum, not the 8-bit sum of the code (see Findings).
- `Cobs.BuildConfigRaw`: it uses the corrected `Packet.BuildConfig`, so for sums 258..273 it returns INVALID_SIZE, while the code as written accepts them and writes past its 19-byte buffer (see Findings).
- `Cobs.CobsBuildConfig`: it inherits the corrected sum check of `Cobs.BuildConfigRaw`, so sums 258..273 give INVALID_SIZE instead of the overflow of the code as written.
- `Rand.RandCobsBuildConfig`: it inherits the same corrected sum check, with the same consequence for sums 258..273.
- The example programs and the unit-test programs: they are demonstrations and test drivers, not part of the codec.

## Findings

| source | as written | input that shows it | evidently intended | confidence | as-written member | corrected member |
|---|---|---|---|---|---|---|
| src/cobs.c:32 | after the loop, `*codep = code` always writes the last code; when the input ends with a full 254-byte block, no slot is reserved and codep equals the returned length | 254 nonzero bytes with dst_size 255, the value of `ENCODE_DST_MAXSIZE(254)`: the write lands at dst[255] | write the final code only when a slot is reserved for it, so every write stays below the returned length | not executed | Cobs.EncoderOverflowAsWritten | Cobs.Encode |
| src/illuminatir.c:164 | `uint8_t payload_size = key_len + 1 + values_size` wraps at 256 | key_len 255 and values_size 2: the sum wraps to 2, both range checks pass, and the 255 key bytes are copied into a 4-byte packet | take the sum without wrap-around and reject it when it exceeds 17 | not executed | Packet.ConfigPayloadSizeWrapAdmitsLongKey | Packet.BuildConfig |

`Cobs.EncoderAfterAsWritten` and `Packet.ConfigPayloadSizeAsWritten` model the two lines as written.

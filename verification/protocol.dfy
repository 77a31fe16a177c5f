/**
  Constants, the header bit layout, the error codes and the COBS size
  formulas shared by every part of the IlluminatIR codec.
 */
module Protocol {

  /** An unsigned 8-bit value, as `uint8_t`. */
  newtype uint8 = x: int | 0 <= x < 256

  /** A C pointer that may be NULL. */
  datatype Nullable<T> = Null | NonNull(value: T)

  /** The 8-bit checksum primitive `crc8(data, size, seed)`; its bit algorithm is not part of this model. */
  type Crc8 = (seq<uint8>, uint8) -> uint8

  const Crc8InitialSeed: uint8 := 0

  const MinPacketSize: nat := 4
  const MaxPacketSize: nat := 19
  /** Capacity of the wrappers' intermediate raw-packet buffers. */
  const PacketMaxSize: nat := 19

  const OffsetArrayMinValues: nat := 1
  const OffsetArrayMaxValues: nat := 16

  const MinPayloadSize: nat := 2
  const MaxPayloadSize: nat := 17

  datatype Error =
    | None
    | Unknown
    | NullPointer
    | BufferOverflow
    | PacketTooShort
    | PacketTooLong
    | UnsupportedVersion
    | UnsupportedFormat
    | InvalidSize
    | InvalidCrc

  /** The numeric value of each enumerator, in declaration order. */
  function ErrorCode(e: Error): (n: nat)
    ensures n < 10
    ensures n == 0 <==> e == None
  {
    match e
    case None => 0
    case Unknown => 1
    case NullPointer => 2
    case BufferOverflow => 3
    case PacketTooShort => 4
    case PacketTooLong => 5
    case UnsupportedVersion => 6
    case UnsupportedFormat => 7
    case InvalidSize => 8
    case InvalidCrc => 9
  }

  /** Distinct enumerators have distinct codes; with the range of ErrorCode they are exactly 0..9. */
  lemma ErrorCodeBijective()
    ensures forall a: Error, b: Error :: ErrorCode(a) == ErrorCode(b) ==> a == b
  {
    assert ErrorCode(None) == 0 && ErrorCode(Unknown) == 1 && ErrorCode(NullPointer) == 2;
    assert ErrorCode(BufferOverflow) == 3 && ErrorCode(PacketTooShort) == 4;
    assert ErrorCode(PacketTooLong) == 5 && ErrorCode(UnsupportedVersion) == 6;
    assert ErrorCode(UnsupportedFormat) == 7 && ErrorCode(InvalidSize) == 8 && ErrorCode(InvalidCrc) == 9;
  }

  // Header byte: bits 7-6 version, bits 5-4 payload type, bits 3-0 payload size minus 2.
  // The shifts and masks of the C code are written as division and remainder by powers of two.

  function Version(h: uint8): (v: nat)
    ensures v < 4
  {
    h as int / 64
  }

  function PayloadType(h: uint8): (t: nat)
    ensures t < 4
  {
    (h as int / 16) % 4
  }

  function PayloadSizeField(h: uint8): (f: nat)
    ensures f < 16
  {
    h as int % 16
  }

  /** The payload length a header announces. */
  function PayloadSize(h: uint8): (n: nat)
    ensures MinPayloadSize <= n <= MaxPayloadSize
    ensures MinPacketSize <= 1 + n + 1 <= MaxPacketSize
  {
    PayloadSizeField(h) + 2
  }

  /** Packs the three header fields; the OR of disjoint bit fields is their sum. */
  function HeaderByte(version: nat, payloadType: nat, sizeField: nat): (h: uint8)
    requires version < 4 && payloadType < 4 && sizeField < 16
    ensures Version(h) == version
    ensures PayloadType(h) == payloadType
    ensures PayloadSizeField(h) == sizeField
  {
    (version * 64 + payloadType * 16 + sizeField) as uint8
  }

  /** Every byte is the packing of its own three fields, so the layout is a bijection. */
  lemma HeaderFieldsDecompose(h: uint8)
    ensures h == HeaderByte(Version(h), PayloadType(h), PayloadSizeField(h))
  {
    var x := h as int;
    var hi, lo := x / 16, x % 16;
    assert x == hi * 16 + lo;
    assert hi == (hi / 4) * 4 + hi % 4;
    assert hi / 4 == x / 64;
  }

  /** The size field of every header names a payload of 2 to 17 bytes, each exactly once. */
  lemma PayloadSizeFieldRange(f: nat)
    requires f < 16
    ensures PayloadSize(HeaderByte(0, 0, f)) == f + 2
    ensures MinPayloadSize <= f + 2 <= MaxPayloadSize
  {
  }

  /** `ILLUMINATIR_COBS_ENCODE_DST_MAXSIZE(n)`: n plus the ceiling of n / 254. */
  function EncodeDstMaxSize(n: nat): (m: nat)
    ensures m >= n
    ensures (m - n) * 254 >= n
    ensures m - n == 0 || (m - n - 1) * 254 < n
  {
    n + (n + 253) / 254
  }

  /** `ILLUMINATIR_COBS_DECODE_DST_MAXSIZE(n)`: n - 1, guarded so that 0 maps to 0. */
  function DecodeDstMaxSize(n: nat): (m: nat)
    ensures m <= n
    ensures n > 0 ==> m + 1 == n
    ensures n == 0 ==> m == 0
  {
    if n == 0 then 0 else n - 1
  }

  /** The fixed packet sizes agree with the header layout. */
  lemma PacketSizeConstants()
    ensures MinPacketSize == 1 + MinPayloadSize + 1
    ensures MaxPacketSize == 1 + MaxPayloadSize + 1
    ensures OffsetArrayMaxValues - 1 < 16 && OffsetArrayMinValues - 1 >= 0
    ensures EncodeDstMaxSize(MaxPacketSize) == 20
  {
  }

  /** `b ^= k` on a byte. */
  function Xor(b: uint8, k: bv8): uint8
  {
    ((b as bv8) ^ k) as uint8
  }

  /** XOR with the same stream byte twice restores a byte. */
  lemma XorTwice(b: uint8, k: bv8)
    ensures Xor(Xor(b, k), k) == b
  {
    var x := (b as bv8) ^ k;
    ByteBitsRoundTrip(x);
    XorCancels(b as bv8, k);
    ByteValueRoundTrip(b);
  }

  lemma ByteBitsRoundTrip(x: bv8)
    ensures (x as uint8) as bv8 == x
  {
  }

  lemma ByteValueRoundTrip(b: uint8)
    ensures (b as bv8) as uint8 == b
  {
    assert b as int % 256 == b as int;
  }

  lemma XorCancels(x: bv8, k: bv8)
    ensures (x ^ k) ^ k == x
  {
  }
}

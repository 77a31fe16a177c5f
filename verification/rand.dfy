/**
  The packet randomizer of `src/rand.c`: the bytes between header and checksum
  are XORed with the generator stream seeded by the checksum byte, and the
  wrappers that randomize a packet before framing it and after unframing it.
 */
module Rand {
  import opened Protocol
  import opened Lfsr
  import Packet
  import Cobs

  /** The generator seed `illuminatir_rand` uses: the buffer's last byte, the checksum. */
  function SeedOf(p: seq<uint8>): bv8
    requires p != []
  {
    Seed(p[|p| - 1] as bv8)
  }

  /** The buffer `illuminatir_rand` leaves: for three bytes or more, byte i of 1..n-2 is XORed with
      stream byte i-1; shorter buffers are left alone. */
  function Randomized(p: seq<uint8>): (q: seq<uint8>)
    ensures |q| == |p|
  {
    if |p| < 3 then p
    else
      seq(|p|, i requires 0 <= i < |p| =>
        if 1 <= i < |p| - 1 then Xor(p[i], KeyByte(SeedOf(p), i - 1)) else p[i])
  }

  /** Only the bytes between header and checksum change, each by its own stream byte. */
  lemma RandomizedBytes(p: seq<uint8>)
    ensures |Randomized(p)| == |p|
    ensures |p| < 3 ==> Randomized(p) == p
    ensures |p| >= 3 ==>
      && Randomized(p)[0] == p[0]
      && Randomized(p)[|p| - 1] == p[|p| - 1]
      && forall i :: 1 <= i < |p| - 1 ==> Randomized(p)[i] == Xor(p[i], KeyByte(SeedOf(p), i - 1))
  {
  }

  /** A buffer that keeps the first and last byte of p and holds the XORed bytes in between is
      Randomized(p). */
  lemma RandomizedIs(p: seq<uint8>, q: seq<uint8>)
    requires |q| == |p| >= 3 && q[0] == p[0] && q[|p| - 1] == p[|p| - 1]
    requires forall i :: 1 <= i < |p| - 1 ==> q[i] == Xor(p[i], KeyByte(SeedOf(p), i - 1))
    ensures q == Randomized(p)
  {
    RandomizedBytes(p);
  }

  /** Randomizing twice restores the buffer: the seed byte is not changed, so the second pass XORs
      every byte with the same stream byte again. */
  lemma RandomizedInvolution(p: seq<uint8>)
    ensures Randomized(Randomized(p)) == p
  {
    if |p| >= 3 {
      var q := Randomized(p);
      RandomizedBytes(p);
      assert SeedOf(q) == SeedOf(p);
      forall i | 1 <= i < |p| - 1
        ensures p[i] == Xor(q[i], KeyByte(SeedOf(q), i - 1))
      {
        XorTwice(p[i], KeyByte(SeedOf(p), i - 1));
      }
      RandomizedIs(q, p);
    }
  }

  /** `illuminatir_rand` on the buffer `packets` of `size` bytes, with the generator `gen`. */
  method Rand(gen: Lfsr127, packets: array?<uint8>, size: nat)
    requires packets != null ==> size <= packets.Length
    modifies gen, packets
    ensures packets == null || size < 3 ==> unchanged(gen) && (packets != null ==> unchanged(packets))
    ensures packets != null && size >= 3 ==>
      && packets[..size] == Randomized(old(packets[..size]))
      && packets[size..] == old(packets[size..])
      && gen.register == KeyState(SeedOf(old(packets[..size])), size - 2)
  {
    if packets == null || size < 3 {
      return;
    }
    ghost var p := packets[..size];
    gen.Init(packets[size - 1] as bv8);
    RandBytes(gen, packets, size, p);
    RandomizedIs(p, packets[..size]);
    assert packets[size..] == old(packets[size..]);
  }

  /** The loop of `illuminatir_rand`: byte i of 1..size-2 is XORed with the next generator byte. */
  method RandBytes(gen: Lfsr127, packets: array<uint8>, size: nat, ghost p: seq<uint8>)
    requires 3 <= size <= packets.Length && packets[..size] == p
    requires gen.register == SeedOf(p)
    modifies gen, packets
    ensures gen.register == KeyState(SeedOf(p), size - 2)
    ensures packets[0] == p[0] && packets[size - 1] == p[size - 1]
    ensures forall k :: 1 <= k < size - 1 ==> packets[k] == Xor(p[k], KeyByte(SeedOf(p), k - 1))
    ensures forall k :: size - 1 <= k < packets.Length ==> packets[k] == old(packets[k])
  {
    var i := 1;
    while i < size - 1
      invariant 1 <= i <= size - 1
      invariant gen.register == KeyState(SeedOf(p), i - 1)
      invariant packets[0] == p[0]
      invariant forall k :: 1 <= k < i ==> packets[k] == Xor(p[k], KeyByte(SeedOf(p), k - 1))
      invariant forall k :: i <= k < packets.Length ==> packets[k] == old(packets[k])
    {
      var key := gen.NextByte();
      packets[i] := Xor(packets[i], key);
      i := i + 1;
    }
  }

  /** `illuminatir_rand_cobs_parse`: decodes into a buffer of one maximal packet, randomizes the
      result and parses it; a decoding that fails or yields no byte is reported as INVALID_SIZE. */
  method RandCobsParse(gen: Lfsr127, randCobsPackets: Nullable<seq<uint8>>, cb: Packet.Callbacks, crc: Crc8)
    returns (r: Packet.ParseResult)
    requires randCobsPackets.NonNull? ==> |randCobsPackets.value| < 256
    modifies gen
    ensures !Cobs.DecodeAccepts(true, PacketMaxSize, randCobsPackets) ==>
      r == Packet.Fail(InvalidSize) && unchanged(gen)
    ensures Cobs.DecodeAccepts(true, PacketMaxSize, randCobsPackets) ==>
      var d := Cobs.Decoded(randCobsPackets.value);
      && (d == [] ==> r == Packet.Fail(InvalidSize))
      && (d != [] ==> r == Packet.Parse(NonNull(Randomized(d)), cb, crc))
      && (|d| < 3 ==> unchanged(gen))
      && (|d| >= 3 ==> gen.register == KeyState(SeedOf(d), |d| - 2))
  {
    var packets := new uint8[PacketMaxSize];
    var packetsSize := Cobs.Decode(packets, PacketMaxSize, randCobsPackets);
    if packetsSize == 0 {
      return Packet.Fail(InvalidSize);
    }
    Rand(gen, packets, packetsSize);
    r := Packet.Parse(NonNull(packets[..packetsSize]), cb, crc);
  }

  /** The tail both build wrappers share: randomize the raw packet held in `packet[..size]` and
      encode it into the caller's buffer, reporting UNKNOWN when the encoder writes nothing. */
  method RandomizeAndEncode(gen: Lfsr127, dst: array?<uint8>, dstSize: uint8, packet: array<uint8>, size: nat,
                            ghost p: seq<uint8>)
    returns (err: Error, dstSizeOut: Nullable<uint8>)
    requires dst != packet
    requires 3 <= size <= packet.Length && size <= PacketMaxSize && packet[..size] == p
    requires dst != null ==> dstSize as int <= dst.Length
    modifies gen, dst, packet
    ensures gen.register == KeyState(SeedOf(p), size - 2)
    ensures dst == null || (dstSize as int) < EncodeDstMaxSize(size) ==>
      err == Unknown && dstSizeOut == NonNull(0) && (dst != null ==> unchanged(dst))
    ensures dst != null && (dstSize as int) >= EncodeDstMaxSize(size) ==>
      var e := Cobs.Encoded(Randomized(p));
      && err == None && dstSizeOut == NonNull(Cobs.StoredSize(|e|))
      && |e| <= dst.Length
      && dst[..|e|] == e && dst[|e|..] == old(dst[|e|..])
  {
    Rand(gen, packet, size);
    err, dstSizeOut := Cobs.EncodeInto(dst, dstSize, packet[..size]);
  }

  /** `illuminatir_rand_cobs_build_offsetArray`: builds the packet in a 19-byte buffer, randomizes
      it and encodes it into the caller's buffer. */
  method RandCobsBuildOffsetArray(gen: Lfsr127, randCobsPacket: array?<uint8>, randCobsPacketSize: Nullable<uint8>,
                                  offset: uint8, values: seq<uint8>, crc: Crc8)
    returns (err: Error, randCobsPacketSizeOut: Nullable<uint8>)
    requires |values| < 256
    requires randCobsPacket != null && randCobsPacketSize.NonNull? ==>
      randCobsPacketSize.value as int <= randCobsPacket.Length
    modifies gen, randCobsPacket
    ensures randCobsPacketSize.Null? ==> err == NullPointer && randCobsPacketSizeOut == Null && unchanged(gen)
    ensures randCobsPacketSize.NonNull? && !(OffsetArrayMinValues <= |values| <= OffsetArrayMaxValues) ==>
      err == InvalidSize && randCobsPacketSizeOut == randCobsPacketSize && unchanged(gen)
    ensures !(randCobsPacketSize.NonNull? && err == None) && randCobsPacket != null ==> unchanged(randCobsPacket)
    ensures randCobsPacketSize.NonNull? && OffsetArrayMinValues <= |values| <= OffsetArrayMaxValues ==>
      var p := Packet.OffsetArrayPacket(offset, values, crc);
      var e := Cobs.Encoded(Randomized(p));
      && gen.register == KeyState(SeedOf(p), |p| - 2)
      && if randCobsPacket == null || (randCobsPacketSize.value as int) < EncodeDstMaxSize(|p|) then
           err == Unknown && randCobsPacketSizeOut == NonNull(0)
         else
           && err == None && randCobsPacketSizeOut == NonNull(Cobs.StoredSize(|e|))
           && |e| <= randCobsPacket.Length
           && randCobsPacket[..|e|] == e && randCobsPacket[|e|..] == old(randCobsPacket[|e|..])
  {
    if randCobsPacketSize.Null? {
      return NullPointer, Null;
    }
    var packet, packetSize;
    err, packet, packetSize := Cobs.BuildOffsetArrayRaw(offset, values, crc);
    if err != None {
      return err, randCobsPacketSize;
    }
    err, randCobsPacketSizeOut :=
      RandomizeAndEncode(gen, randCobsPacket, randCobsPacketSize.value, packet, packetSize as nat, Packet.OffsetArrayPacket(offset, values, crc));
  }

  /** `illuminatir_rand_cobs_build_config`: builds the packet in a 19-byte buffer, randomizes it and
      encodes it into the caller's buffer. */
  method RandCobsBuildConfig(gen: Lfsr127, randCobsPacket: array?<uint8>, randCobsPacketSize: Nullable<uint8>,
                             key: seq<uint8>, values: seq<uint8>, crc: Crc8)
    returns (err: Error, randCobsPacketSizeOut: Nullable<uint8>)
    requires |key| < 256 && |values| < 256
    requires randCobsPacket != null && randCobsPacketSize.NonNull? ==>
      randCobsPacketSize.value as int <= randCobsPacket.Length
    modifies gen, randCobsPacket
    ensures randCobsPacketSize.Null? ==> err == NullPointer && randCobsPacketSizeOut == Null && unchanged(gen)
    ensures randCobsPacketSize.NonNull? && !(MinPayloadSize <= |key| + 1 + |values| <= MaxPayloadSize) ==>
      err == InvalidSize && randCobsPacketSizeOut == randCobsPacketSize && unchanged(gen)
    ensures !(randCobsPacketSize.NonNull? && err == None) && randCobsPacket != null ==> unchanged(randCobsPacket)
    ensures randCobsPacketSize.NonNull? && MinPayloadSize <= |key| + 1 + |values| <= MaxPayloadSize ==>
      var p := Packet.ConfigPacket(key, values, crc);
      var e := Cobs.Encoded(Randomized(p));
      && gen.register == KeyState(SeedOf(p), |p| - 2)
      && if randCobsPacket == null || (randCobsPacketSize.value as int) < EncodeDstMaxSize(|p|) then
           err == Unknown && randCobsPacketSizeOut == NonNull(0)
         else
           && err == None && randCobsPacketSizeOut == NonNull(Cobs.StoredSize(|e|))
           && |e| <= randCobsPacket.Length
           && randCobsPacket[..|e|] == e && randCobsPacket[|e|..] == old(randCobsPacket[|e|..])
  {
    if randCobsPacketSize.Null? {
      return NullPointer, Null;
    }
    var packet, packetSize;
    err, packet, packetSize := Cobs.BuildConfigRaw(key, values, crc);
    if err != None {
      return err, randCobsPacketSize;
    }
    err, randCobsPacketSizeOut :=
      RandomizeAndEncode(gen, randCobsPacket, randCobsPacketSize.value, packet, packetSize as nat, Packet.ConfigPacket(key, values, crc));
  }

  /** A randomized, framed OffsetArray packet fits the receive buffer, is restored by the second
      randomization and parses back to its channel values. */
  lemma RandCobsOffsetArrayRoundTrip(offset: uint8, values: seq<uint8>, cb: Packet.Callbacks, crc: Crc8)
    requires OffsetArrayMinValues <= |values| <= OffsetArrayMaxValues && cb.hasSetChannel
    ensures var p := Packet.OffsetArrayPacket(offset, values, crc);
      var e := Cobs.Encoded(Randomized(p));
      && 0 < |e| <= 20
      && Cobs.DecodeAccepts(true, PacketMaxSize, NonNull(e))
      && Cobs.Decoded(e) == Randomized(p) != []
      && Randomized(Cobs.Decoded(e)) == p
      && var r := Packet.Parse(NonNull(Randomized(Cobs.Decoded(e))), cb, crc);
      && r.err == None
      && |r.events| == |values|
      && forall i :: 0 <= i < |values| ==> r.events[i] == Packet.SetChannel(Packet.Channel(offset, i), values[i])
  {
    var p := Packet.OffsetArrayPacket(offset, values, crc);
    var q := Randomized(p);
    RandomizedBytes(p);
    Cobs.EncodedPacketLength(q);
    Cobs.DecodeEncode(q);
    RandomizedInvolution(p);
    Packet.ParseOffsetArrayPacket(offset, values, cb, crc);
  }

  /** The same for a Config packet whose key holds no zero byte. */
  lemma RandCobsConfigRoundTrip(key: seq<uint8>, values: seq<uint8>, cb: Packet.Callbacks, crc: Crc8)
    requires MinPayloadSize <= |key| + 1 + |values| <= MaxPayloadSize && cb.hasSetConfig
    requires forall i :: 0 <= i < |key| ==> key[i] != 0
    ensures var p := Packet.ConfigPacket(key, values, crc);
      var e := Cobs.Encoded(Randomized(p));
      && 0 < |e| <= 20
      && Cobs.DecodeAccepts(true, PacketMaxSize, NonNull(e))
      && Cobs.Decoded(e) == Randomized(p) != []
      && Randomized(Cobs.Decoded(e)) == p
      && Packet.Parse(NonNull(Randomized(Cobs.Decoded(e))), cb, crc)
           == Packet.ParseResult(None, [Packet.SetConfig(key, values)])
  {
    var p := Packet.ConfigPacket(key, values, crc);
    var q := Randomized(p);
    RandomizedBytes(p);
    Cobs.EncodedPacketLength(q);
    Cobs.DecodeEncode(q);
    RandomizedInvolution(p);
    Packet.ParseConfigPacket(key, values, cb, crc);
  }
}

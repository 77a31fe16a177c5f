/**
  The raw packet codec: the parser, which validates one packet and reports
  the callbacks it would invoke as a trace of events, and the two builders,
  which write an OffsetArray or a Config packet into a caller's buffer.
 */
module Packet {
  import opened Protocol

  /** One invocation of a caller-supplied callback. */
  datatype Event =
    | SetChannel(channel: uint8, value: uint8)
    | SetConfig(key: seq<uint8>, values: seq<uint8>)

  /** Which of the two callbacks the caller supplied (a NULL function pointer is absent). */
  datatype Callbacks = Callbacks(hasSetChannel: bool, hasSetConfig: bool)

  /** The returned error code and the callbacks invoked before returning, in order. */
  datatype ParseResult = ParseResult(err: Error, events: seq<Event>)

  function Fail(e: Error): ParseResult
  {
    ParseResult(e, [])
  }

  /** `strnlen(s, |s|)`: the length of the prefix before the first zero byte. */
  function StrnLen(s: seq<uint8>): (n: nat)
    ensures n <= |s|
    ensures forall i :: 0 <= i < n ==> s[i] != 0
    ensures n < |s| ==> s[n] == 0
  {
    if s == [] || s[0] == 0 then 0 else 1 + StrnLen(s[1..])
  }

  /** `uint8_t channel = i + offset`: channel numbers wrap around at 256. */
  function Channel(offset: uint8, i: nat): uint8
  {
    ((offset as int + i) % 256) as uint8
  }

  /** The OffsetArray loop from value index `i` on: one SetChannel per value. */
  function OffsetArrayEvents(offset: uint8, values: seq<uint8>, i: nat): (evs: seq<Event>)
    requires i <= |values|
    ensures |evs| == |values| - i
    decreases |values| - i
  {
    if i == |values| then []
    else [SetChannel(Channel(offset, i), values[i])] + OffsetArrayEvents(offset, values, i + 1)
  }

  /** The Channel:Value loop: one event per pair, then one with value 0 for a lone channel byte. */
  function PairEvents(payload: seq<uint8>): seq<Event>
    decreases |payload|
  {
    if |payload| >= 2 then [SetChannel(payload[0], payload[1])] + PairEvents(payload[2..])
    else if |payload| == 1 then [SetChannel(payload[0], 0)]
    else []
  }

  /** The Config case: the key ends at the first zero byte, the values start after it. */
  function ConfigEvent(payload: seq<uint8>): Event
  {
    var keyLen := StrnLen(payload);
    var valuesSize := if |payload| - keyLen > 0 then |payload| - keyLen - 1 else 0;
    SetConfig(payload[..keyLen], payload[|payload| - valuesSize..])
  }

  /** A packet that passes every check before the payload type is looked at. */
  predicate WellFormed(p: seq<uint8>, crc: Crc8)
  {
    && |p| >= MinPacketSize
    && Version(p[0]) == 0
    && |p| == 1 + PayloadSize(p[0]) + 1
    && p[|p| - 1] == crc(p[..|p| - 1], Crc8InitialSeed)
  }

  /** `illuminatir_parse`: validates exactly one packet and dispatches on its payload type. */
  function Parse(packet: Nullable<seq<uint8>>, cb: Callbacks, crc: Crc8): (r: ParseResult)
    ensures r.err != None ==> r.events == []
    ensures r.err == NullPointer <==> packet.Null?
    ensures r.err != Unknown && r.err != BufferOverflow && r.err != PacketTooLong
    ensures r.err == None ==> packet.NonNull? && WellFormed(packet.value, crc)
  {
    if packet.Null? then Fail(NullPointer)
    else
      var p := packet.value;
      if |p| < MinPacketSize then Fail(PacketTooShort)
      else if Version(p[0]) != 0 then Fail(UnsupportedVersion)
      else if 1 + PayloadSize(p[0]) + 1 != |p| then Fail(InvalidSize)
      else if p[|p| - 1] != crc(p[..|p| - 1], Crc8InitialSeed) then Fail(InvalidCrc)
      else
        var payload := p[1..|p| - 1];
        match PayloadType(p[0])
        case 0 =>
          if !cb.hasSetChannel then ParseResult(None, [])
          else ParseResult(None, OffsetArrayEvents(payload[0], payload[1..], 0))
        case 1 =>
          if !cb.hasSetChannel then ParseResult(None, [])
          else ParseResult(None, PairEvents(payload))
        case 2 =>
          if !cb.hasSetConfig then ParseResult(None, [])
          else ParseResult(None, [ConfigEvent(payload)])
        case _ => Fail(UnsupportedFormat)
  }

  /** The checks are made in a fixed order and the first failing one decides the error. */
  lemma ParseCheckOrder(p: seq<uint8>, cb: Callbacks, crc: Crc8)
    ensures var r := Parse(NonNull(p), cb, crc);
      && (r.err == PacketTooShort <==> |p| < MinPacketSize)
      && (r.err == UnsupportedVersion <==> |p| >= MinPacketSize && Version(p[0]) != 0)
      && (r.err == InvalidSize <==>
            |p| >= MinPacketSize && Version(p[0]) == 0 && |p| != 1 + PayloadSize(p[0]) + 1)
      && (r.err == InvalidCrc <==>
            && |p| >= MinPacketSize && Version(p[0]) == 0 && |p| == 1 + PayloadSize(p[0]) + 1
            && p[|p| - 1] != crc(p[..|p| - 1], Crc8InitialSeed))
      && (r.err == UnsupportedFormat <==> WellFormed(p, crc) && PayloadType(p[0]) == 3)
      && (r.err == None <==> WellFormed(p, crc) && PayloadType(p[0]) != 3)
  {
  }

  lemma {:induction false} OffsetArrayEventsAt(offset: uint8, values: seq<uint8>, i: nat)
    requires i <= |values|
    ensures |OffsetArrayEvents(offset, values, i)| == |values| - i
    ensures forall j :: 0 <= j < |values| - i ==>
      OffsetArrayEvents(offset, values, i)[j] == SetChannel(Channel(offset, i + j), values[i + j])
    decreases |values| - i
  {
    if i < |values| {
      OffsetArrayEventsAt(offset, values, i + 1);
      var tail := OffsetArrayEvents(offset, values, i + 1);
      assert OffsetArrayEvents(offset, values, i) == [SetChannel(Channel(offset, i), values[i])] + tail;
      forall j | 1 <= j < |values| - i
        ensures OffsetArrayEvents(offset, values, i)[j] == SetChannel(Channel(offset, i + j), values[i + j])
      {
        assert OffsetArrayEvents(offset, values, i)[j] == tail[j - 1];
        assert i + 1 + (j - 1) == i + j;
      }
    }
  }

  /** There is one event per pair, plus one for an odd trailing byte. */
  lemma {:induction false} PairEventsLength(payload: seq<uint8>)
    ensures 2 * |PairEvents(payload)| - 1 <= |payload| <= 2 * |PairEvents(payload)|
    ensures |PairEvents(payload)| == (|payload| + 1) / 2
    decreases |payload|
  {
    if |payload| >= 2 {
      PairEventsLength(payload[2..]);
    }
  }

  lemma {:induction false} PairEventsAt(payload: seq<uint8>)
    ensures |PairEvents(payload)| == (|payload| + 1) / 2
    ensures forall k :: 0 <= k < |PairEvents(payload)| ==>
      PairEvents(payload)[k] ==
        SetChannel(payload[2 * k], if 2 * k + 1 < |payload| then payload[2 * k + 1] else 0)
    decreases |payload|
  {
    PairEventsLength(payload);
    if |payload| >= 2 {
      var rest := payload[2..];
      PairEventsAt(rest);
      PairEventsLength(rest);
      assert PairEvents(payload) == [SetChannel(payload[0], payload[1])] + PairEvents(rest);
      forall k | 1 <= k < |PairEvents(payload)|
        ensures PairEvents(payload)[k] ==
          SetChannel(payload[2 * k], if 2 * k + 1 < |payload| then payload[2 * k + 1] else 0)
      {
        var j := k - 1;
        assert PairEvents(payload)[k] == PairEvents(rest)[j];
        assert rest[2 * j] == payload[2 * k];
        if 2 * k + 1 < |payload| {
          assert rest[2 * j + 1] == payload[2 * k + 1];
        }
      }
    }
  }

  /** An OffsetArray packet sets channel (offset + i) mod 256 to value i, for each value, in order. */
  lemma ParseOffsetArray(p: seq<uint8>, cb: Callbacks, crc: Crc8)
    requires WellFormed(p, crc) && PayloadType(p[0]) == 0 && cb.hasSetChannel
    ensures var r := Parse(NonNull(p), cb, crc);
      && r.err == None
      && |r.events| == PayloadSize(p[0]) - 1 == |p| - 3
      && forall i :: 0 <= i < |r.events| ==> r.events[i] == SetChannel(Channel(p[1], i), p[2 + i])
  {
    var payload := p[1..|p| - 1];
    OffsetArrayEventsAt(payload[0], payload[1..], 0);
  }

  /** A Channel:Value packet sets one channel per pair; an odd trailing channel byte gets value 0. */
  lemma ParseChannelValuePairs(p: seq<uint8>, cb: Callbacks, crc: Crc8)
    requires WellFormed(p, crc) && PayloadType(p[0]) == 1 && cb.hasSetChannel
    ensures var r := Parse(NonNull(p), cb, crc);
      var payload := p[1..|p| - 1];
      && r.err == None
      && |r.events| == |payload| / 2 + |payload| % 2
      && forall k :: 0 <= k < |r.events| ==>
           r.events[k] ==
             SetChannel(payload[2 * k], if 2 * k + 1 < |payload| then payload[2 * k + 1] else 0)
  {
    PairEventsAt(p[1..|p| - 1]);
  }

  /** A Config packet yields one SetConfig: the key is the payload up to its first zero byte,
      the values are what follows that zero, and nothing else of the payload is lost. */
  lemma ParseConfig(p: seq<uint8>, cb: Callbacks, crc: Crc8)
    requires WellFormed(p, crc) && PayloadType(p[0]) == 2 && cb.hasSetConfig
    ensures var r := Parse(NonNull(p), cb, crc);
      var payload := p[1..|p| - 1];
      && r.err == None
      && |r.events| == 1
      && r.events[0].SetConfig?
      && var key, values := r.events[0].key, r.events[0].values;
      && (forall i :: 0 <= i < |key| ==> key[i] != 0)
      && (if |key| < |payload| then payload == key + [0] + values else key == payload && values == [])
      && |key| + |values| + (if |key| < |payload| then 1 else 0) == |payload|
  {
    var payload := p[1..|p| - 1];
    var keyLen := StrnLen(payload);
    if keyLen < |payload| {
      assert payload == payload[..keyLen] + [0] + payload[keyLen + 1..];
    }
  }

  /** Without the callback a valid packet of types 0-2 is accepted silently; type 3 is still refused. */
  lemma ParseCallbackAbsent(p: seq<uint8>, cb: Callbacks, crc: Crc8)
    requires WellFormed(p, crc)
    ensures PayloadType(p[0]) <= 1 && !cb.hasSetChannel ==> Parse(NonNull(p), cb, crc) == ParseResult(None, [])
    ensures PayloadType(p[0]) == 2 && !cb.hasSetConfig ==> Parse(NonNull(p), cb, crc) == ParseResult(None, [])
    ensures PayloadType(p[0]) == 3 ==> Parse(NonNull(p), cb, crc) == ParseResult(UnsupportedFormat, [])
  {
  }

  // ---------------------------------------------------------------------------
  // Builders

  /** The bytes `illuminatir_build_offsetArray` writes: header, offset, values, checksum. */
  function OffsetArrayPacket(offset: uint8, values: seq<uint8>, crc: Crc8): (p: seq<uint8>)
    requires OffsetArrayMinValues <= |values| <= OffsetArrayMaxValues
    ensures |p| == |values| + 3 && MinPacketSize <= |p| <= MaxPacketSize
  {
    var body := [HeaderByte(0, 0, |values| - 1), offset] + values;
    body + [crc(body, Crc8InitialSeed)]
  }

  /** The bytes `illuminatir_build_config` writes: header, key, zero delimiter, values, checksum. */
  function ConfigPacket(key: seq<uint8>, values: seq<uint8>, crc: Crc8): (p: seq<uint8>)
    requires MinPayloadSize <= |key| + 1 + |values| <= MaxPayloadSize
    ensures |p| == |key| + |values| + 3 && MinPacketSize <= |p| <= MaxPacketSize
  {
    var body := [HeaderByte(0, 2, |key| + 1 + |values| - 2)] + key + [0] + values;
    body + [crc(body, Crc8InitialSeed)]
  }

  /** `illuminatir_build_offsetArray`. The size is checked against the buffer before any byte is
      written; on overflow the out-size still reports the size the packet would need. */
  method BuildOffsetArray(packet: array<uint8>, packetSize: Nullable<uint8>, offset: uint8, values: seq<uint8>, crc: Crc8)
    returns (err: Error, packetSizeOut: Nullable<uint8>)
    requires |values| < 256
    requires packetSize.NonNull? ==> packetSize.value as int <= packet.Length
    modifies packet
    ensures packetSize.Null? ==> err == NullPointer && packetSizeOut == Null && unchanged(packet)
    ensures packetSize.NonNull? && !(OffsetArrayMinValues <= |values| <= OffsetArrayMaxValues) ==>
      err == InvalidSize && packetSizeOut == packetSize && unchanged(packet)
    ensures packetSize.NonNull? && OffsetArrayMinValues <= |values| <= OffsetArrayMaxValues ==>
      && packetSizeOut == NonNull((|values| + 3) as uint8)
      && if (packetSize.value as int) < |values| + 3 then
           err == BufferOverflow && unchanged(packet)
         else
           && err == None
           && packet[..|values| + 3] == OffsetArrayPacket(offset, values, crc)
           && packet[|values| + 3..] == old(packet[|values| + 3..])
  {
    if packetSize.Null? {
      return NullPointer, Null;
    }
    if |values| < OffsetArrayMinValues {
      return InvalidSize, packetSize;
    }
    if |values| > OffsetArrayMaxValues {
      return InvalidSize, packetSize;
    }
    var available := packetSize.value;
    var size := (1 + 1 + |values| + 1) as uint8;
    packetSizeOut := NonNull(size);
    if available < size {
      return BufferOverflow, packetSizeOut;
    }
    WriteOffsetArray(packet, offset, values, crc);
    err := None;
  }

  /** The writes of `illuminatir_build_offsetArray` once the checks have passed: header, offset,
      the values one by one, then the checksum over everything before it. */
  method WriteOffsetArray(packet: array<uint8>, offset: uint8, values: seq<uint8>, crc: Crc8)
    requires OffsetArrayMinValues <= |values| <= OffsetArrayMaxValues && |values| + 3 <= packet.Length
    modifies packet
    ensures packet[..|values| + 3] == OffsetArrayPacket(offset, values, crc)
    ensures forall k :: |values| + 3 <= k < packet.Length ==> packet[k] == old(packet[k])
  {
    var header := HeaderByte(0, 0, |values| - 1);
    packet[0] := header;
    packet[1] := offset;
    var p := 2;
    var v := 0;
    var remaining := |values|;
    while remaining > 0
      invariant 0 <= remaining <= |values|
      invariant v == |values| - remaining && p == 2 + v
      invariant packet[..p] == [header, offset] + values[..v]
      invariant forall k :: |values| + 3 <= k < packet.Length ==> packet[k] == old(packet[k])
    {
      ghost var written := packet[..p];
      packet[p] := values[v];
      assert packet[..p + 1] == written + [values[v]];
      assert values[..v + 1] == values[..v] + [values[v]];
      p, v := p + 1, v + 1;
      remaining := remaining - 1;
    }
    assert values[..v] == values;
    ghost var body := packet[..p];
    packet[p] := crc(packet[..p], Crc8InitialSeed);
    assert packet[..p + 1] == body + [crc(body, Crc8InitialSeed)];
  }

  /** `illuminatir_build_config`, with the payload size summed without wrap-around (see
      ConfigPayloadSizeAsWritten for the line as written). */
  method BuildConfig(packet: array<uint8>, packetSize: Nullable<uint8>, key: seq<uint8>, values: seq<uint8>, crc: Crc8)
    returns (err: Error, packetSizeOut: Nullable<uint8>)
    requires |key| < 256 && |values| < 256
    requires packetSize.NonNull? ==> packetSize.value as int <= packet.Length
    modifies packet
    ensures packetSize.Null? ==> err == NullPointer && packetSizeOut == Null && unchanged(packet)
    ensures packetSize.NonNull? && !(MinPayloadSize <= |key| + 1 + |values| <= MaxPayloadSize) ==>
      err == InvalidSize && packetSizeOut == packetSize && unchanged(packet)
    ensures packetSize.NonNull? && MinPayloadSize <= |key| + 1 + |values| <= MaxPayloadSize ==>
      var n := 1 + |key| + 1 + |values| + 1;
      && packetSizeOut == NonNull(n as uint8)
      && if (packetSize.value as int) < n then
           err == BufferOverflow && unchanged(packet)
         else
           && err == None
           && packet[..n] == ConfigPacket(key, values, crc)
           && packet[n..] == old(packet[n..])
  {
    if packetSize.Null? {
      return NullPointer, Null;
    }
    var payloadSize := |key| + 1 + |values|;
    if payloadSize < 2 {
      return InvalidSize, packetSize;
    }
    if payloadSize > 15 + 2 {
      return InvalidSize, packetSize;
    }
    var available := packetSize.value;
    var size := (1 + payloadSize + 1) as uint8;
    packetSizeOut := NonNull(size);
    if available < size {
      return BufferOverflow, packetSizeOut;
    }
    WriteConfig(packet, key, values, crc);
    err := None;
  }

  /** The writes of `illuminatir_build_config` once the checks have passed: header, the key, its
      zero delimiter, the values, then the checksum over everything before it. */
  method WriteConfig(packet: array<uint8>, key: seq<uint8>, values: seq<uint8>, crc: Crc8)
    requires MinPayloadSize <= |key| + 1 + |values| <= MaxPayloadSize
    requires |key| + |values| + 3 <= packet.Length
    modifies packet
    ensures packet[..|key| + |values| + 3] == ConfigPacket(key, values, crc)
    ensures forall k :: |key| + |values| + 3 <= k < packet.Length ==> packet[k] == old(packet[k])
  {
    var n := |key| + |values| + 3;
    var header := HeaderByte(0, 2, |key| + 1 + |values| - 2);
    packet[0] := header;
    forall i | 0 <= i < |key| {
      packet[1 + i] := key[i];
    }
    assert packet[..1 + |key|] == [header] + key;
    packet[1 + |key|] := 0;
    assert packet[..2 + |key|] == [header] + key + [0];
    forall i | 0 <= i < |values| {
      packet[2 + |key| + i] := values[i];
    }
    assert packet[..n - 1] == [header] + key + [0] + values;
    ghost var body := packet[..n - 1];
    packet[n - 1] := crc(packet[..n - 1], Crc8InitialSeed);
    assert packet[..n] == body + [crc(body, Crc8InitialSeed)];
  }

  /** A built OffsetArray packet parses back to its values on channels offset, offset+1, ... mod 256. */
  lemma ParseOffsetArrayPacket(offset: uint8, values: seq<uint8>, cb: Callbacks, crc: Crc8)
    requires OffsetArrayMinValues <= |values| <= OffsetArrayMaxValues && cb.hasSetChannel
    ensures var r := Parse(NonNull(OffsetArrayPacket(offset, values, crc)), cb, crc);
      && r.err == None
      && |r.events| == |values|
      && forall i :: 0 <= i < |values| ==> r.events[i] == SetChannel(Channel(offset, i), values[i])
  {
    var p := OffsetArrayPacket(offset, values, crc);
    assert p[..|p| - 1] == [HeaderByte(0, 0, |values| - 1), offset] + values;
    ParseOffsetArray(p, cb, crc);
  }

  /** A built Config packet whose key holds no zero byte parses back to exactly its key and values. */
  lemma ParseConfigPacket(key: seq<uint8>, values: seq<uint8>, cb: Callbacks, crc: Crc8)
    requires MinPayloadSize <= |key| + 1 + |values| <= MaxPayloadSize && cb.hasSetConfig
    requires forall i :: 0 <= i < |key| ==> key[i] != 0
    ensures Parse(NonNull(ConfigPacket(key, values, crc)), cb, crc) == ParseResult(None, [SetConfig(key, values)])
  {
    var p := ConfigPacket(key, values, crc);
    var body := [HeaderByte(0, 2, |key| + 1 + |values| - 2)] + key + [0] + values;
    assert p[..|p| - 1] == body;
    var payload := p[1..|p| - 1];
    assert payload == key + [0] + values;
    assert payload[|key|] == 0;
    assert StrnLen(payload) == |key|;
    assert payload[..|key|] == key;
    assert payload[|payload| - |values|..] == values;
  }

  // ---------------------------------------------------------------------------
  // The payload size of build_config as written

  /** Line 164 as written: `uint8_t payload_size = key_len + 1 + values_size` wraps at 256. */
  function ConfigPayloadSizeAsWritten(keyLen: uint8, valuesSize: uint8): uint8
  {
    ((keyLen as int + 1 + valuesSize as int) % 256) as uint8
  }

  /** With the wrap, a 255-byte key and 2 values pass both range checks with payload size 2, so a
      4-byte packet is announced while key, delimiter, values and checksum need 260 bytes. */
  lemma ConfigPayloadSizeWrapAdmitsLongKey()
    ensures var ps := ConfigPayloadSizeAsWritten(255, 2);
      && MinPayloadSize <= ps as int <= MaxPayloadSize
      && 1 + ps as int + 1 == 4
      && 1 + 255 + 1 + 2 + 1 == 260
  {
  }

  /** The wrapped sum differs from the true one exactly when the true sum exceeds 255; it then
      passes the range checks although the true sum is too large for any packet whenever the
      true sum lies in 258..273. The corrected BuildConfig rejects all of these. */
  lemma ConfigPayloadSizeAsWrittenCharacterised(keyLen: uint8, valuesSize: uint8)
    ensures var sum := keyLen as int + 1 + valuesSize as int;
      var ps := ConfigPayloadSizeAsWritten(keyLen, valuesSize) as int;
      && (ps == sum <==> sum <= 255)
      && ((MinPayloadSize <= ps <= MaxPayloadSize && sum > MaxPayloadSize) <==> 258 <= sum <= 273)
  {
  }
}

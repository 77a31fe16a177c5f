/**
  Consistent Overhead Byte Stuffing as `src/cobs.c` implements it: the
  encoding as a function on byte sequences, the decoder's loop as a function
  of its state, the two pointer-driven routines as methods over the caller's
  array, and the wrappers that put a packet through the framer.
 */
module Cobs {
  import opened Protocol
  import Packet

  // ---------------------------------------------------------------------------
  // The encoding, block by block

  /** The number of leading nonzero bytes of `s`, stopping at `cap`. */
  function RunLength(s: seq<uint8>, cap: nat): (k: nat)
    ensures k <= cap && k <= |s|
    ensures k < |s| && k < cap ==> s[k] == 0
  {
    if s == [] || cap == 0 || s[0] == 0 then 0 else 1 + RunLength(s[1..], cap - 1)
  }

  /** Every byte of the run is nonzero. */
  lemma {:induction false} RunLengthNonZero(s: seq<uint8>, cap: nat)
    ensures forall i :: 0 <= i < RunLength(s, cap) ==> s[i] != 0
    decreases |s|
  {
    if s != [] && cap != 0 && s[0] != 0 {
      RunLengthNonZero(s[1..], cap - 1);
      forall i | 1 <= i < RunLength(s, cap)
        ensures s[i] != 0
      {
        assert s[i] == s[1..][i - 1];
      }
    }
  }

  /** The bytes the encoder produces for `s` from a freshly opened block. A block is a code byte
      followed by at most 254 nonzero bytes; the code is one more than their number, and a code
      below 255 stands for a zero that follows the block (or for the end of the input). */
  function Encoded(s: seq<uint8>): seq<uint8>
    decreases |s|
  {
    var k := RunLength(s, 254);
    if k == 254 then
      [255] + s[..254] + (if |s| == 254 then [] else Encoded(s[254..]))
    else if k == |s| then
      [(k + 1) as uint8] + s
    else
      [(k + 1) as uint8] + s[..k] + Encoded(s[k + 1..])
  }

  /** What `illuminatir_cobs_decode` writes from the remaining input `rest`, given the last code
      read and the number of block bytes still to copy. */
  function DecodeLoop(rest: seq<uint8>, code: uint8, block: uint8): seq<uint8>
    decreases |rest|
  {
    if rest == [] then []
    else if block != 0 then [rest[0]] + DecodeLoop(rest[1..], code, block - 1)
    else
      if rest[0] == 0 then Pending(code)
      else Pending(code) + DecodeLoop(rest[1..], rest[0], rest[0] - 1)
  }

  /** The zero a block with this code stands for once the next code byte is reached. */
  function Pending(code: uint8): (z: seq<uint8>)
    ensures |z| <= 1 && (z == [] <==> code == 255)
    ensures code != 255 ==> z == [0]
  {
    if code != 255 then [0] else []
  }

  /** The decoder starts as if a 255-block had just ended, so no zero precedes the first block. */
  function Decoded(e: seq<uint8>): seq<uint8>
  {
    DecodeLoop(e, 255, 0)
  }

  /** The input checks both routines make before touching the destination. */
  predicate EncodeAccepts(hasDst: bool, dstSize: nat, src: Nullable<seq<uint8>>)
  {
    src.NonNull? && hasDst && |src.value| != 0 && dstSize >= EncodeDstMaxSize(|src.value|)
  }

  predicate DecodeAccepts(hasDst: bool, dstSize: nat, src: Nullable<seq<uint8>>)
  {
    src.NonNull? && hasDst && |src.value| != 0 && dstSize >= DecodeDstMaxSize(|src.value|)
  }

  // ---------------------------------------------------------------------------
  // Splitting the encoding where the encoder closes a block

  /** A zero within the first 254 bytes closes the block with code (run length + 1). */
  lemma EncodedZeroSplit(t: seq<uint8>, j: nat)
    requires j < |t| && j < 254 && t[j] == 0
    requires forall i :: 0 <= i < j ==> t[i] != 0
    ensures Encoded(t) == [(j + 1) as uint8] + t[..j] + Encoded(t[j + 1..])
  {
    RunLengthIs(t, 254, j);
  }

  /** A full run of 254 nonzero bytes closes the block with code 255. */
  lemma EncodedFullSplit(t: seq<uint8>)
    requires |t| >= 254
    requires forall i :: 0 <= i < 254 ==> t[i] != 0
    ensures |t| == 254 ==> Encoded(t) == [255] + t
    ensures |t| > 254 ==> Encoded(t) == [255] + t[..254] + Encoded(t[254..])
  {
    RunLengthIs(t, 254, 254);
  }

  /** Fewer than 254 nonzero bytes up to the end of the input form the final block. */
  lemma EncodedTail(t: seq<uint8>)
    requires |t| < 254
    requires forall i :: 0 <= i < |t| ==> t[i] != 0
    ensures Encoded(t) == [(|t| + 1) as uint8] + t
  {
    RunLengthIs(t, 254, |t|);
  }

  lemma {:induction false} RunLengthIs(s: seq<uint8>, cap: nat, k: nat)
    requires k <= cap && k <= |s|
    requires forall i :: 0 <= i < k ==> s[i] != 0
    requires k < |s| && k < cap ==> s[k] == 0
    ensures RunLength(s, cap) == k
    decreases k
  {
    if k > 0 {
      RunLengthIs(s[1..], cap - 1, k - 1);
    }
  }

  /** A block whose first j+1 bytes are nonzero occupies at least j+2 bytes of the encoding. */
  lemma EncodedLongerThanRun(t: seq<uint8>, j: nat)
    requires j < |t| && j < 254
    requires forall i :: 0 <= i <= j ==> t[i] != 0
    ensures |Encoded(t)| >= j + 2
  {
    RunLengthAtLeast(t, 254, j + 1);
  }

  lemma {:induction false} RunLengthAtLeast(s: seq<uint8>, cap: nat, j: nat)
    requires j <= cap && j <= |s|
    requires forall i :: 0 <= i < j ==> s[i] != 0
    ensures RunLength(s, cap) >= j
    decreases j
  {
    if j > 0 {
      RunLengthAtLeast(s[1..], cap - 1, j - 1);
    }
  }

  // ---------------------------------------------------------------------------
  // Properties of the encoding

  /** No zero byte appears in an encoding: the code bytes are 1..255 and the copied bytes nonzero. */
  lemma {:induction false} EncodedHasNoZero(s: seq<uint8>)
    ensures forall i :: 0 <= i < |Encoded(s)| ==> Encoded(s)[i] != 0
    decreases |s|
  {
    var k := RunLength(s, 254);
    RunLengthNonZero(s, 254);
    if k == 254 && |s| > 254 {
      EncodedHasNoZero(s[254..]);
    } else if k < 254 && k < |s| {
      EncodedHasNoZero(s[k + 1..]);
    }
  }

  /** Every byte of the input is kept and at least one code byte is added, and the total is at
      most `ILLUMINATIR_COBS_ENCODE_DST_MAXSIZE` of the input length. */
  lemma {:induction false} EncodedLength(s: seq<uint8>)
    requires |s| >= 1
    ensures |s| + 1 <= |Encoded(s)| <= EncodeDstMaxSize(|s|)
    decreases |s|
  {
    var k := RunLength(s, 254);
    RunLengthNonZero(s, 254);
    if k == 254 {
      EncodedFullSplit(s);
      if |s| > 254 {
        EncodedLength(s[254..]);
        FullBlockBound(|s| - 254, |Encoded(s[254..])|);
      }
    } else if k < |s| {
      EncodedZeroSplit(s, k);
      var m := |s| - k - 1;
      if m >= 1 {
        EncodedLength(s[k + 1..]);
        ZeroBlockBound(k, m, |Encoded(s[k + 1..])|);
      } else {
        assert Encoded(s[k + 1..]) == [1];
      }
    }
  }

  /** The bound after a full block: 254 input bytes cost 255 output bytes. */
  lemma FullBlockBound(m: nat, len: nat)
    requires m + 1 <= len <= EncodeDstMaxSize(m)
    ensures m + 254 + 1 <= 255 + len <= EncodeDstMaxSize(m + 254)
  {
    assert (m + 254 + 253) / 254 == (m + 253) / 254 + 1;
  }

  /** The bound after a block closed by a zero: k + 1 input bytes cost k + 1 output bytes. */
  lemma ZeroBlockBound(k: nat, m: nat, len: nat)
    requires m + 1 <= len <= EncodeDstMaxSize(m)
    ensures k + 1 + m + 1 <= 1 + k + len <= EncodeDstMaxSize(k + 1 + m)
  {
    CeilMonotone(m, k + 1 + m);
  }

  lemma CeilMonotone(a: nat, b: nat)
    requires a <= b
    ensures (a + 253) / 254 <= (b + 253) / 254
  {
  }

  // ---------------------------------------------------------------------------
  // Decoding an encoding

  /** The decoder copies a block's bytes unchanged. */
  lemma {:induction false} DecodeLoopCopies(run: seq<uint8>, x: seq<uint8>, code: uint8)
    requires |run| < 256
    ensures DecodeLoop(run + x, code, |run| as uint8) == run + DecodeLoop(x, code, 0)
    decreases |run|
  {
    if run != [] {
      var b := |run| as uint8;
      assert (run + x)[0] == run[0];
      assert (run + x)[1..] == run[1..] + x;
      assert b - 1 == |run[1..]| as uint8;
      assert DecodeLoop(run + x, code, b) == [run[0]] + DecodeLoop(run[1..] + x, code, b - 1);
      DecodeLoopCopies(run[1..], x, code);
      assert run == [run[0]] + run[1..];
    } else {
      assert run + x == x;
    }
  }

  /** One block: the pending zero of the previous block, then the block's bytes, then the rest
      decoded with the block's own code as the previous one. */
  lemma DecodeLoopBlock(c: uint8, run: seq<uint8>, tail: seq<uint8>, prev: uint8)
    requires c != 0 && |run| == c as int - 1
    ensures DecodeLoop([c] + run + tail, prev, 0) == Pending(prev) + run + DecodeLoop(tail, c, 0)
  {
    var e := [c] + run + tail;
    assert e[0] == c;
    assert e[1..] == run + tail;
    DecodeLoopCopies(run, tail, c);
  }

  /** Decoding an encoding that follows a block with code `prev` gives back the zero that block
      stood for (none after a 255-block) followed by the input. */
  lemma {:induction false} DecodeLoopEncoded(s: seq<uint8>, prev: uint8)
    requires s != []
    ensures DecodeLoop(Encoded(s), prev, 0) == Pending(prev) + s
    decreases |s|
  {
    var k := RunLength(s, 254);
    RunLengthNonZero(s, 254);
    if k == 254 {
      if |s| > 254 {
        DecodeLoopEncoded(s[254..], 255);
      }
      DecodeFullBlock(s, prev);
    } else if k == |s| {
      EncodedTail(s);
      assert Encoded(s) == [(k + 1) as uint8] + s + [];
      DecodeLoopBlock((k + 1) as uint8, s, [], prev);
    } else {
      if s[k + 1..] != [] {
        DecodeLoopEncoded(s[k + 1..], (k + 1) as uint8);
      }
      DecodeZeroCase(s, k, prev);
    }
  }

  lemma DecodeFullBlock(s: seq<uint8>, prev: uint8)
    requires |s| >= 254 && forall i :: 0 <= i < 254 ==> s[i] != 0
    requires |s| > 254 ==> DecodeLoop(Encoded(s[254..]), 255, 0) == s[254..]
    ensures DecodeLoop(Encoded(s), prev, 0) == Pending(prev) + s
  {
    EncodedFullSplit(s);
    if |s| > 254 {
      DecodeLoopBlock(255, s[..254], Encoded(s[254..]), prev);
      assert s == s[..254] + s[254..];
    } else {
      assert Encoded(s) == [255] + s[..254] + [];
      DecodeLoopBlock(255, s[..254], [], prev);
    }
  }

  lemma DecodeZeroCase(s: seq<uint8>, k: nat, prev: uint8)
    requires k < |s| && k < 254 && s[k] == 0 && forall i :: 0 <= i < k ==> s[i] != 0
    requires s[k + 1..] != [] ==> DecodeLoop(Encoded(s[k + 1..]), (k + 1) as uint8, 0) == [0] + s[k + 1..]
    ensures DecodeLoop(Encoded(s), prev, 0) == Pending(prev) + s
  {
    var run, rest := s[..k], s[k + 1..];
    assert |run| == k;
    assert s == run + [0] + rest;
    var tail := Encoded(rest);
    EncodedZeroSplit(s, k);
    DecodeZeroBlock(run, rest, tail, prev);
  }

  lemma DecodeZeroBlock(run: seq<uint8>, rest: seq<uint8>, tail: seq<uint8>, prev: uint8)
    requires |run| < 254
    requires rest == [] ==> tail == [1]
    requires rest != [] ==> DecodeLoop(tail, (|run| + 1) as uint8, 0) == [0] + rest
    ensures DecodeLoop([(|run| + 1) as uint8] + run + tail, prev, 0) == Pending(prev) + (run + [0] + rest)
  {
    var c := (|run| + 1) as uint8;
    DecodeLoopBlock(c, run, tail, prev);
    if rest == [] {
      DecodeLoopLastBlock(c);
    }
  }

  lemma DecodeLoopLastBlock(c: uint8)
    ensures DecodeLoop([1], c, 0) == Pending(c)
  {
    assert [1 as uint8][1..] == [];
  }

  /** decode(encode(s)) == s for every non-empty input, across zeros and the 254-byte boundary. */
  lemma DecodeEncode(s: seq<uint8>)
    requires s != []
    ensures Decoded(Encoded(s)) == s
  {
    DecodeLoopEncoded(s, 255);
  }

  /** Each input byte yields at most one output byte, and the first is always a code, so the
      output never exceeds `ILLUMINATIR_COBS_DECODE_DST_MAXSIZE` of the input length. */
  lemma {:induction false} DecodeLoopLength(rest: seq<uint8>, code: uint8, block: uint8)
    ensures |DecodeLoop(rest, code, block)| + (if code == 255 && block == 0 && rest != [] then 1 else 0)
            <= |rest|
    decreases |rest|
  {
    if rest != [] {
      if block != 0 {
        DecodeLoopLength(rest[1..], code, block - 1);
      } else if rest[0] != 0 {
        DecodeLoopLength(rest[1..], rest[0], rest[0] - 1);
      }
    }
  }

  lemma DecodedLength(e: seq<uint8>)
    ensures |Decoded(e)| <= DecodeDstMaxSize(|e|)
  {
    DecodeLoopLength(e, 255, 0);
  }

  /** A zero code byte at a block boundary ends decoding: whatever follows it is ignored. */
  lemma DecodeStopsAtDelimiter(x: seq<uint8>, code: uint8)
    ensures DecodeLoop([0] + x, code, 0) == Pending(code)
  {
  }

  /** The delimiter example: after a block with code 2 the pending zero is written before the
      zero code byte is read, so `02 A5 00` decodes to `A5 00`. */
  lemma DecodeDelimiterExample()
    ensures Decoded([2, 0xA5, 0]) == [0xA5, 0]
    ensures Decoded([2, 0xA5]) == [0xA5]
    ensures Decoded([0, 2, 0xA5]) == []
  {
    assert [2, 0xA5, 0][1..] == [0xA5, 0];
    assert [2, 0xA5, 0][1..][1..] == [0];
    assert [2, 0xA5][1..] == [0xA5];
    assert [2, 0xA5][1..][1..] == [];
  }

  // ---------------------------------------------------------------------------
  // The two routines over the caller's buffer

  lemma SliceAround(a: array<uint8>, p: nat, e: nat)
    requires p < e <= a.Length
    ensures a[..e] == a[..p] + [a[p]] + a[p + 1..e]
  {
  }

  /** Where the encoder closes a block at input index i on a zero, the output so far, the code
      and the block's bytes are followed in the encoding by the encoding of the input after i. */
  lemma EncodeCloseOnZeroAt(s: seq<uint8>, start: nat, i: nat, done: seq<uint8>, total: seq<uint8>)
    requires start <= i < |s| && i - start < 254 && s[i] == 0
    requires forall k :: start <= k < i ==> s[k] != 0
    requires done + Encoded(s[start..]) == total
    ensures done + [(i - start + 1) as uint8] + s[start..i] + Encoded(s[i + 1..]) == total
  {
    var t, j := s[start..], i - start;
    BlockSlices(s, start, i, j);
    EncodedZeroSplit(t, j);
    var head, tail := [(j + 1) as uint8] + s[start..i], Encoded(s[i + 1..]);
    assert Encoded(t) == head + tail;
    assert done + head + tail == done + (head + tail);
  }

  /** The same where the 254th nonzero byte closes the block with code 255; at the very end of the
      input nothing follows it. */
  lemma EncodeCloseOnFullAt(s: seq<uint8>, start: nat, i: nat, done: seq<uint8>, total: seq<uint8>)
    requires start <= i < |s| && i - start == 253
    requires forall k :: start <= k <= i ==> s[k] != 0
    requires done + Encoded(s[start..]) == total
    ensures i + 1 < |s| ==> done + [255] + s[start..i + 1] + Encoded(s[i + 1..]) == total
    ensures i + 1 == |s| ==> done + [255] + s[start..i + 1] == total
  {
    BlockSlices(s, start, i + 1, 254);
    EncodedFullSplit(s[start..]);
    if i + 1 < |s| {
      assert done + ([255] + s[start..i + 1] + Encoded(s[i + 1..])) == total;
    } else {
      assert s[start..] == s[start..i + 1];
    }
  }

  /** The block of s that starts at start and ends before index i, seen from s[start..]. */
  lemma BlockSlices(s: seq<uint8>, start: nat, i: nat, j: nat)
    requires start <= i <= |s| && j == i - start
    requires forall k :: start <= k < i ==> s[k] != 0
    ensures s[start..][..j] == s[start..i]
    ensures i < |s| ==> s[start..][j + 1..] == s[i + 1..] && s[start..][j] == s[i]
    ensures s[start..][j..] == s[i..]
    ensures forall k :: 0 <= k < j ==> s[start..][k] != 0
  {
    forall k | 0 <= k < j
      ensures s[start..][k] != 0
    {
      assert s[start..][k] == s[start + k];
    }
  }

  /** The encoder's state after the first i input bytes of s, whose encoding is e: the output of
      every closed block, then a reserved code slot at codep followed by the open block's bytes
      (the block started at input index start), or, after a full block at the very end of the
      input, no reserved slot at all. */
  ghost predicate EncoderInvariant(dst: array<uint8>, s: seq<uint8>, e: seq<uint8>, i: nat,
                                   encode: nat, codep: nat, code: uint8, start: nat)
    reads dst
  {
    && 0 <= start <= i <= |s|
    && encode <= |e| <= dst.Length
    && (codep < encode || (codep == encode && start == i == |s|))
    && (codep < encode ==>
        && code as int == i - start + 1 && i - start < 254
        && encode == codep + 1 + (i - start)
        && dst[codep + 1..encode] == s[start..i]
        && dst[..codep] + Encoded(s[start..]) == e)
    && (codep == encode ==> dst[..codep] == e)
    && (forall k :: start <= k < i ==> s[k] != 0)
  }

  /** One iteration of the encoder loop: the input byte at index i is copied or closes the block. */
  method EncodeByte(dst: array<uint8>, s: seq<uint8>, ghost e: seq<uint8>, i: nat,
                    encode: nat, codep: nat, code: uint8, ghost start: nat)
    returns (encode': nat, codep': nat, code': uint8, ghost start': nat)
    requires i < |s|
    requires EncoderInvariant(dst, s, e, i, encode, codep, code, start)
    modifies dst
    ensures EncoderInvariant(dst, s, e, i + 1, encode', codep', code', start')
    ensures encode <= encode'
    ensures forall k :: encode' <= k < dst.Length ==> dst[k] == old(dst[k])
  {
    var b := s[i];
    if b != 0 {
      EncodeCopyByte(dst, s, e, i, encode, codep, code, start);
      if code + 1 == 255 {
        encode', codep', code', start' := EncodeCloseBlock(dst, s, e, i, encode + 1, codep, code + 1, start);
      } else {
        encode', codep', code', start' := encode + 1, codep, code + 1, start;
      }
    } else {
      encode', codep', code', start' := EncodeCloseBlock(dst, s, e, i, encode, codep, code, start);
    }
  }

  /** A nonzero input byte is appended to the open block. */
  method EncodeCopyByte(dst: array<uint8>, s: seq<uint8>, ghost e: seq<uint8>, i: nat,
                        encode: nat, codep: nat, code: uint8, ghost start: nat)
    requires i < |s| && s[i] != 0
    requires EncoderInvariant(dst, s, e, i, encode, codep, code, start)
    modifies dst
    ensures codep < encode < |e| && code < 255
    ensures dst[..codep] == old(dst[..codep])
    ensures dst[codep + 1..encode + 1] == s[start..i + 1]
    ensures forall k :: encode + 1 <= k < dst.Length ==> dst[k] == old(dst[k])
  {
    EncodedLongerThanRun(s[start..], i - start);
    ghost var prefix := dst[..codep];
    ghost var block := dst[codep + 1..encode];
    dst[encode] := s[i];
    assert dst[..codep] == prefix;
    assert dst[codep + 1..encode] == block;
    assert dst[codep + 1..encode + 1] == block + [s[i]];
    assert s[start..i + 1] == s[start..i] + [s[i]];
  }

  /** The block closes at input index i: its code is patched into the reserved slot, and a new
      slot is reserved unless a full block has just used up the input. */
  method EncodeCloseBlock(dst: array<uint8>, s: seq<uint8>, ghost e: seq<uint8>, i: nat,
                          encode: nat, codep: nat, code: uint8, ghost start: nat)
    returns (encode': nat, codep': nat, code': uint8, ghost start': nat)
    requires i < |s| && 0 <= start <= i && codep < encode <= |e| <= dst.Length
    requires forall k :: start <= k < i ==> s[k] != 0
    requires dst[..codep] + Encoded(s[start..]) == e
    requires s[i] == 0 ==>
      code as int == i - start + 1 && i - start < 254 && encode == codep + 1 + (i - start)
      && dst[codep + 1..encode] == s[start..i]
    requires s[i] != 0 ==>
      code == 255 && i - start == 253 && encode == codep + 1 + (i + 1 - start)
      && dst[codep + 1..encode] == s[start..i + 1]
    modifies dst
    ensures EncoderInvariant(dst, s, e, i + 1, encode', codep', code', start')
    ensures encode <= encode'
    ensures forall k :: encode' <= k < dst.Length ==> dst[k] == old(dst[k])
  {
    ghost var prefix := dst[..codep];
    ghost var block := dst[codep + 1..encode];
    PatchCode(dst, codep, encode, code);
    if s[i] == 0 {
      EncodeCloseOnZeroAt(s, start, i, prefix, e);
      assert dst[..encode] == prefix + [(i - start + 1) as uint8] + s[start..i];
    } else {
      EncodeCloseOnFullAt(s, start, i, prefix, e);
      assert dst[..encode] == prefix + [255] + s[start..i + 1];
    }
    ClosedBlockInvariant(dst, s, e, i, encode);
    code' := 1;
    codep' := encode;
    if s[i] == 0 || |s| - i - 1 > 0 {
      encode' := encode + 1;
    } else {
      encode' := encode;
    }
    start' := i + 1;
  }

  /** The back-patch `*codep = code`: the reserved slot receives the block's code. */
  method PatchCode(dst: array<uint8>, codep: nat, encode: nat, code: uint8)
    requires codep < encode <= dst.Length
    modifies dst
    ensures dst[..encode] == old(dst[..codep]) + [code] + old(dst[codep + 1..encode])
    ensures forall k :: encode <= k < dst.Length ==> dst[k] == old(dst[k])
  {
    ghost var prefix := dst[..codep];
    ghost var block := dst[codep + 1..encode];
    dst[codep] := code;
    assert dst[..codep] == prefix;
    assert dst[codep + 1..encode] == block;
    SliceAround(dst, codep, encode);
  }

  /** Once the block closed at input index i is in place in dst[..encode], a new empty block opens
      at encode, unless a full block has just used up the input. */
  lemma ClosedBlockInvariant(dst: array<uint8>, s: seq<uint8>, e: seq<uint8>, i: nat, encode: nat)
    requires i < |s| && encode <= |e| <= dst.Length
    requires s[i] == 0 || i + 1 < |s| ==> dst[..encode] + Encoded(s[i + 1..]) == e
    requires s[i] != 0 && i + 1 == |s| ==> dst[..encode] == e
    ensures s[i] == 0 || i + 1 < |s| ==> EncoderInvariant(dst, s, e, i + 1, encode + 1, encode, 1, i + 1)
    ensures s[i] != 0 && i + 1 == |s| ==> EncoderInvariant(dst, s, e, i + 1, encode, encode, 1, i + 1)
  {
    if s[i] == 0 || i + 1 < |s| {
      assert Encoded(s[i + 1..]) != [] by {
        if i + 1 < |s| {
          EncodedLength(s[i + 1..]);
        } else {
          assert s[i + 1..] == [];
        }
      }
      assert dst[encode + 1..encode + 1] == s[i + 1..i + 1];
    }
  }

  /** After the last input byte the open block's code is patched into its slot, if one is reserved. */
  method EncodeFinish(dst: array<uint8>, s: seq<uint8>, ghost e: seq<uint8>,
                      encode: nat, codep: nat, code: uint8, ghost start: nat)
    requires EncoderInvariant(dst, s, e, |s|, encode, codep, code, start)
    modifies dst
    ensures encode == |e| && dst[..encode] == e
    ensures forall k :: encode <= k < dst.Length ==> dst[k] == old(dst[k])
  {
    if codep < encode {
      ghost var prefix := dst[..codep];
      EncodedTail(s[start..]);
      dst[codep] := code;
      assert dst[..codep] == prefix;
      SliceAround(dst, codep, encode);
    }
  }

  /** `illuminatir_cobs_encode`. The encoder copies nonzero bytes behind a reserved code slot and
      back-patches the slot when a zero or the 254th nonzero byte closes the block. The final code
      byte is written only when a slot is reserved for it; see EncoderAfterAsWritten for the line
      as written, which writes one byte past the returned length. */
  method Encode(dst: array?<uint8>, dstSize: nat, src: Nullable<seq<uint8>>) returns (r: nat)
    requires dst != null ==> dstSize <= dst.Length
    modifies dst
    ensures !EncodeAccepts(dst != null, dstSize, src) ==> r == 0 && (dst != null ==> unchanged(dst))
    ensures EncodeAccepts(dst != null, dstSize, src) ==>
      && r == |Encoded(src.value)| && r <= dstSize
      && dst[..r] == Encoded(src.value)
      && dst[r..] == old(dst[r..])
  {
    if src.Null? || dst == null || |src.value| == 0 || dstSize < EncodeDstMaxSize(|src.value|) {
      return 0;
    }
    var s := src.value;
    EncodedLength(s);
    EncoderStarts(dst, s);
    r := EncodeBlocks(dst, s, Encoded(s));
    assert dst[r..] == old(dst[r..]);
  }

  /** Before the first input byte the code slot at 0 is reserved and the block is empty. */
  lemma EncoderStarts(dst: array<uint8>, s: seq<uint8>)
    requires |s| > 0 && |Encoded(s)| <= dst.Length
    ensures EncoderInvariant(dst, s, Encoded(s), 0, 1, 0, 1, 0)
  {
    EncodedLength(s);
    assert s[0..] == s;
  }

  /** The encoder loop over the whole input, whose encoding is e. */
  method EncodeBlocks(dst: array<uint8>, s: seq<uint8>, ghost e: seq<uint8>) returns (r: nat)
    requires EncoderInvariant(dst, s, e, 0, 1, 0, 1, 0)
    modifies dst
    ensures r == |e| && dst[..r] == e
    ensures forall k :: r <= k < dst.Length ==> dst[k] == old(dst[k])
  {
    var encode: nat := 1;
    var codep: nat := 0;
    var code: uint8 := 1;
    var i: nat := 0;
    ghost var start: nat := 0;
    while i < |s|
      invariant EncoderInvariant(dst, s, e, i, encode, codep, code, start)
      invariant forall k :: encode <= k < dst.Length ==> dst[k] == old(dst[k])
    {
      encode, codep, code, start := EncodeByte(dst, s, e, i, encode, codep, code, start);
      i := i + 1;
    }
    EncodeFinish(dst, s, e, encode, codep, code, start);
    r := encode;
  }

  /** The decoder's state at input index pos: what it has written, followed by what the rest of
      the loop writes, is the decoding d. */
  ghost predicate DecoderInvariant(dst: array<uint8>, s: seq<uint8>, d: seq<uint8>, pos: nat, out: nat,
                                   code: uint8, block: uint8)
    reads dst
  {
    && pos <= |s| && out <= |d| <= dst.Length
    && dst[..out] + DecodeLoop(s[pos..], code, block) == d
  }

  /** The decoder loop over the whole input, whose decoding is d. */
  method DecodeBlocks(dst: array<uint8>, s: seq<uint8>, ghost d: seq<uint8>) returns (out: nat)
    requires DecodeLoop(s, 255, 0) == d && |d| <= dst.Length
    modifies dst
    ensures out == |d| && dst[..out] == d
    ensures dst[out..] == old(dst[out..])
  {
    var pos: nat := 0;
    var code: uint8 := 255;
    var block: uint8 := 0;
    out := 0;
    assert s[0..] == s;
    while pos < |s|
      invariant DecoderInvariant(dst, s, d, pos, out, code, block)
      invariant forall k :: out <= k < dst.Length ==> dst[k] == old(dst[k])
      decreases |s| - pos
    {
      if block != 0 {
        pos, out, block := DecodeCopyByte(dst, s, d, pos, out, code, block);
      } else {
        var stop;
        pos, out, code, block, stop := DecodeCodeByte(dst, s, d, pos, out, code);
        if stop {
          break;
        }
      }
    }
    assert dst[out..] == old(dst[out..]);
  }

  /** A block byte is copied. */
  method DecodeCopyByte(dst: array<uint8>, s: seq<uint8>, ghost d: seq<uint8>, pos: nat, out: nat,
                        code: uint8, block: uint8)
    returns (pos': nat, out': nat, block': uint8)
    requires pos < |s| && block != 0
    requires DecoderInvariant(dst, s, d, pos, out, code, block)
    modifies dst
    ensures pos' == pos + 1 && out' == out + 1
    ensures DecoderInvariant(dst, s, d, pos', out', code, block')
    ensures forall k :: out' <= k < dst.Length ==> dst[k] == old(dst[k])
  {
    ghost var prefix := dst[..out];
    assert s[pos..][1..] == s[pos + 1..];
    assert DecodeLoop(s[pos..], code, block) == [s[pos]] + DecodeLoop(s[pos + 1..], code, block - 1);
    dst[out] := s[pos];
    assert dst[..out + 1] == prefix + [s[pos]];
    pos', out', block' := pos + 1, out + 1, block - 1;
  }

  /** At a code byte the zero the previous code stands for is written, then the new code is read;
      a zero code ends decoding, with d written in full. */
  method DecodeCodeByte(dst: array<uint8>, s: seq<uint8>, ghost d: seq<uint8>, pos: nat, out: nat,
                        code: uint8)
    returns (pos': nat, out': nat, code': uint8, block': uint8, stop: bool)
    requires pos < |s|
    requires DecoderInvariant(dst, s, d, pos, out, code, 0)
    modifies dst
    ensures pos' == pos + 1 && out <= out'
    ensures stop ==> out' == |d| && dst[..out'] == d
    ensures !stop ==> DecoderInvariant(dst, s, d, pos', out', code', block')
    ensures forall k :: out' <= k < dst.Length ==> dst[k] == old(dst[k])
  {
    ghost var prefix := dst[..out];
    assert s[pos..][1..] == s[pos + 1..];
    out' := out;
    if code != 255 {
      dst[out] := 0;
      assert dst[..out + 1] == prefix + [0];
      out' := out + 1;
    }
    assert dst[..out'] == prefix + Pending(code);
    code' := s[pos];
    pos' := pos + 1;
    stop := code' == 0;
    block' := if stop then 0 else code' - 1;
  }

  /** `illuminatir_cobs_decode`. Code bytes set the block counter, block bytes are copied, and a
      code below 255 stands for a zero that is written when the next code byte is reached; a zero
      code byte ends decoding. */
  method Decode(dst: array?<uint8>, dstSize: nat, src: Nullable<seq<uint8>>) returns (r: nat)
    requires dst != null ==> dstSize <= dst.Length
    modifies dst
    ensures !DecodeAccepts(dst != null, dstSize, src) ==> r == 0 && (dst != null ==> unchanged(dst))
    ensures DecodeAccepts(dst != null, dstSize, src) ==>
      && r == |Decoded(src.value)| && r <= dstSize
      && dst[..r] == Decoded(src.value)
      && dst[r..] == old(dst[r..])
  {
    if src.Null? || dst == null || |src.value| == 0 || dstSize < DecodeDstMaxSize(|src.value|) {
      return 0;
    }
    var s := src.value;
    DecodedLength(s);
    r := DecodeBlocks(dst, s, Decoded(s));
  }

  // ---------------------------------------------------------------------------
  // The final code write as written

  /** The encoder's pointers as offsets into dst: the next free byte, the reserved code slot, and
      the code of the open block. */
  datatype EncoderState = EncoderState(encode: nat, codep: nat, code: nat)

  /** One iteration of the encoder loop as written; remaining is the input count after the
      loop condition has decremented it. */
  function EncoderStepAsWritten(st: EncoderState, b: uint8, remaining: nat): EncoderState
  {
    var encode := if b != 0 then st.encode + 1 else st.encode;
    var code := if b != 0 then st.code + 1 else st.code;
    if b == 0 || code == 255 then
      EncoderState(if b == 0 || remaining > 0 then encode + 1 else encode, encode, 1)
    else
      EncoderState(encode, st.codep, code)
  }

  /** The pointers after the first i iterations, starting from dst+1, dst and code 1. */
  function EncoderAfterAsWritten(src: seq<uint8>, i: nat): EncoderState
    requires i <= |src|
  {
    if i == 0 then EncoderState(1, 0, 1)
    else EncoderStepAsWritten(EncoderAfterAsWritten(src, i - 1), src[i - 1], |src| - i)
  }

  lemma {:induction false} EncoderAsWrittenOpenBlock(src: seq<uint8>, i: nat)
    requires i <= 253 && i <= |src|
    requires forall k :: 0 <= k < i ==> src[k] != 0
    ensures EncoderAfterAsWritten(src, i) == EncoderState(i + 1, 0, i + 1)
  {
    if i > 0 {
      EncoderAsWrittenOpenBlock(src, i - 1);
    }
  }

  /** For 254 nonzero bytes the loop ends with the code slot pointing at the returned length:
      the unconditional final `*codep = code` then writes dst[255], although a destination of
      `ILLUMINATIR_COBS_ENCODE_DST_MAXSIZE(254)` = 255 bytes passes the size check. The returned
      length is that of the encoding, which Encode writes without that extra byte. */
  lemma EncoderOverflowAsWritten(src: seq<uint8>)
    requires |src| == 254
    requires forall k :: 0 <= k < 254 ==> src[k] != 0
    ensures var st := EncoderAfterAsWritten(src, 254);
      && EncodeAccepts(true, 255, NonNull(src))
      && st.encode == |Encoded(src)| == EncodeDstMaxSize(|src|) == 255
      && st.codep == st.encode
  {
    EncoderAsWrittenOpenBlock(src, 253);
    EncodedFullSplit(src);
  }

  // ---------------------------------------------------------------------------
  // The wrappers

  /** `illuminatir_cobs_parse`: decodes into a buffer of one maximal packet and parses the result;
      a decoding that fails or yields no byte is reported as UNKNOWN. */
  method CobsParse(cobsPacket: Nullable<seq<uint8>>, cb: Packet.Callbacks, crc: Crc8)
    returns (r: Packet.ParseResult)
    requires cobsPacket.NonNull? ==> |cobsPacket.value| < 256
    ensures !DecodeAccepts(true, PacketMaxSize, cobsPacket) ==> r == Packet.Fail(Unknown)
    ensures DecodeAccepts(true, PacketMaxSize, cobsPacket) ==>
      var d := Decoded(cobsPacket.value);
      r == if d == [] then Packet.Fail(Unknown) else Packet.Parse(NonNull(d), cb, crc)
  {
    var packet := new uint8[PacketMaxSize];
    var res := Decode(packet, PacketMaxSize, cobsPacket);
    if res == 0 {
      return Packet.Fail(Unknown);
    }
    r := Packet.Parse(NonNull(packet[..res]), cb, crc);
  }

  /** The size a wrapper stores through its `uint8_t *` out-parameter: the encoder's `size_t`
      result truncated to 8 bits. */
  function StoredSize(n: nat): (b: uint8)
    ensures n < 256 ==> b as int == n
    ensures b as int == n % 256
  {
    (n % 256) as uint8
  }

  /** Every raw packet, of at most 19 bytes, encodes to at most 20 bytes. */
  lemma EncodedPacketLength(p: seq<uint8>)
    requires 1 <= |p| <= MaxPacketSize
    ensures |Encoded(p)| <= EncodeDstMaxSize(MaxPacketSize) == 20
    ensures StoredSize(|Encoded(p)|) as int == |Encoded(p)|
  {
    EncodedLength(p);
  }

  /** A wrapper's first step: the OffsetArray packet built into a fresh buffer of one maximal packet,
      which never overflows. */
  method BuildOffsetArrayRaw(offset: uint8, values: seq<uint8>, crc: Crc8)
    returns (err: Error, packet: array<uint8>, size: uint8)
    requires |values| < 256
    ensures fresh(packet) && packet.Length == PacketMaxSize
    ensures !(OffsetArrayMinValues <= |values| <= OffsetArrayMaxValues) ==> err == InvalidSize
    ensures OffsetArrayMinValues <= |values| <= OffsetArrayMaxValues ==>
      err == None && size as int == |Packet.OffsetArrayPacket(offset, values, crc)| && packet[..size] == Packet.OffsetArrayPacket(offset, values, crc)
  {
    packet := new uint8[PacketMaxSize];
    var packetSize;
    err, packetSize := Packet.BuildOffsetArray(packet, NonNull(PacketMaxSize as uint8), offset, values, crc);
    size := packetSize.value;
  }

  /** A wrapper's first step: the Config packet built into a fresh buffer of one maximal packet,
      which never overflows. */
  method BuildConfigRaw(key: seq<uint8>, values: seq<uint8>, crc: Crc8)
    returns (err: Error, packet: array<uint8>, size: uint8)
    requires |key| < 256 && |values| < 256
    ensures fresh(packet) && packet.Length == PacketMaxSize
    ensures !(MinPayloadSize <= |key| + 1 + |values| <= MaxPayloadSize) ==> err == InvalidSize
    ensures MinPayloadSize <= |key| + 1 + |values| <= MaxPayloadSize ==>
      err == None && size as int == |Packet.ConfigPacket(key, values, crc)| && packet[..size] == Packet.ConfigPacket(key, values, crc)
  {
    packet := new uint8[PacketMaxSize];
    var packetSize;
    err, packetSize := Packet.BuildConfig(packet, NonNull(PacketMaxSize as uint8), key, values, crc);
    size := packetSize.value;
  }

  /** A wrapper's last step: the raw packet q encoded into the caller's buffer, whose size is then
      stored through the out-parameter; UNKNOWN when the encoder writes nothing. */
  method EncodeInto(dst: array?<uint8>, dstSize: uint8, q: seq<uint8>)
    returns (err: Error, dstSizeOut: Nullable<uint8>)
    requires 1 <= |q| <= MaxPacketSize
    requires dst != null ==> dstSize as int <= dst.Length
    modifies dst
    ensures dst == null || (dstSize as int) < EncodeDstMaxSize(|q|) ==>
      err == Unknown && dstSizeOut == NonNull(0) && (dst != null ==> unchanged(dst))
    ensures dst != null && (dstSize as int) >= EncodeDstMaxSize(|q|) ==>
      var e := Encoded(q);
      && err == None && dstSizeOut == NonNull(StoredSize(|e|))
      && |e| <= dst.Length
      && dst[..|e|] == e && dst[|e|..] == old(dst[|e|..])
  {
    EncodedPacketLength(q);
    var n := Encode(dst, dstSize as nat, NonNull(q));
    dstSizeOut := NonNull(StoredSize(n));
    if StoredSize(n) == 0 {
      return Unknown, dstSizeOut;
    }
    err := None;
  }

  /** `illuminatir_cobs_build_offsetArray`: builds the packet in a 19-byte buffer, then encodes it
      into the caller's buffer. */
  method CobsBuildOffsetArray(cobsPacket: array?<uint8>, cobsPacketSize: Nullable<uint8>,
                              offset: uint8, values: seq<uint8>, crc: Crc8)
    returns (err: Error, cobsPacketSizeOut: Nullable<uint8>)
    requires |values| < 256
    requires cobsPacket != null && cobsPacketSize.NonNull? ==> cobsPacketSize.value as int <= cobsPacket.Length
    modifies cobsPacket
    ensures cobsPacketSize.Null? ==> err == NullPointer && cobsPacketSizeOut == Null
    ensures cobsPacketSize.NonNull? && !(OffsetArrayMinValues <= |values| <= OffsetArrayMaxValues) ==>
      err == InvalidSize && cobsPacketSizeOut == cobsPacketSize
    ensures !(cobsPacketSize.NonNull? && err == None) && cobsPacket != null ==> unchanged(cobsPacket)
    ensures cobsPacketSize.NonNull? && OffsetArrayMinValues <= |values| <= OffsetArrayMaxValues ==>
      var p := Packet.OffsetArrayPacket(offset, values, crc);
      var e := Encoded(p);
      if cobsPacket == null || (cobsPacketSize.value as int) < EncodeDstMaxSize(|p|) then
        err == Unknown && cobsPacketSizeOut == NonNull(0)
      else
        && err == None && cobsPacketSizeOut == NonNull(StoredSize(|e|))
        && |e| <= cobsPacket.Length
        && cobsPacket[..|e|] == e && cobsPacket[|e|..] == old(cobsPacket[|e|..])
  {
    if cobsPacketSize.Null? {
      return NullPointer, Null;
    }
    var packet, packetSize;
    err, packet, packetSize := BuildOffsetArrayRaw(offset, values, crc);
    if err != None {
      return err, cobsPacketSize;
    }
    err, cobsPacketSizeOut := EncodeInto(cobsPacket, cobsPacketSize.value, packet[..packetSize]);
  }

  /** `illuminatir_cobs_build_config`: builds the packet in a 19-byte buffer, then encodes it into
      the caller's buffer. */
  method CobsBuildConfig(cobsPacket: array?<uint8>, cobsPacketSize: Nullable<uint8>,
                         key: seq<uint8>, values: seq<uint8>, crc: Crc8)
    returns (err: Error, cobsPacketSizeOut: Nullable<uint8>)
    requires |key| < 256 && |values| < 256
    requires cobsPacket != null && cobsPacketSize.NonNull? ==> cobsPacketSize.value as int <= cobsPacket.Length
    modifies cobsPacket
    ensures cobsPacketSize.Null? ==> err == NullPointer && cobsPacketSizeOut == Null
    ensures cobsPacketSize.NonNull? && !(MinPayloadSize <= |key| + 1 + |values| <= MaxPayloadSize) ==>
      err == InvalidSize && cobsPacketSizeOut == cobsPacketSize
    ensures !(cobsPacketSize.NonNull? && err == None) && cobsPacket != null ==> unchanged(cobsPacket)
    ensures cobsPacketSize.NonNull? && MinPayloadSize <= |key| + 1 + |values| <= MaxPayloadSize ==>
      var p := Packet.ConfigPacket(key, values, crc);
      var e := Encoded(p);
      if cobsPacket == null || (cobsPacketSize.value as int) < EncodeDstMaxSize(|p|) then
        err == Unknown && cobsPacketSizeOut == NonNull(0)
      else
        && err == None && cobsPacketSizeOut == NonNull(StoredSize(|e|))
        && |e| <= cobsPacket.Length
        && cobsPacket[..|e|] == e && cobsPacket[|e|..] == old(cobsPacket[|e|..])
  {
    if cobsPacketSize.Null? {
      return NullPointer, Null;
    }
    var packet, packetSize;
    err, packet, packetSize := BuildConfigRaw(key, values, crc);
    if err != None {
      return err, cobsPacketSize;
    }
    err, cobsPacketSizeOut := EncodeInto(cobsPacket, cobsPacketSize.value, packet[..packetSize]);
  }

  /** A framed OffsetArray packet fits the receive buffer and parses back to its channel values. */
  lemma CobsOffsetArrayRoundTrip(offset: uint8, values: seq<uint8>, cb: Packet.Callbacks, crc: Crc8)
    requires OffsetArrayMinValues <= |values| <= OffsetArrayMaxValues && cb.hasSetChannel
    ensures var e := Encoded(Packet.OffsetArrayPacket(offset, values, crc));
      && 0 < |e| <= 20
      && DecodeAccepts(true, PacketMaxSize, NonNull(e))
      && Decoded(e) == Packet.OffsetArrayPacket(offset, values, crc)
      && var r := Packet.Parse(NonNull(Decoded(e)), cb, crc);
      && r.err == None
      && |r.events| == |values|
      && forall i :: 0 <= i < |values| ==> r.events[i] == Packet.SetChannel(Packet.Channel(offset, i), values[i])
  {
    var p := Packet.OffsetArrayPacket(offset, values, crc);
    EncodedPacketLength(p);
    DecodeEncode(p);
    Packet.ParseOffsetArrayPacket(offset, values, cb, crc);
  }

  /** A framed Config packet whose key holds no zero byte parses back to exactly its key and values. */
  lemma CobsConfigRoundTrip(key: seq<uint8>, values: seq<uint8>, cb: Packet.Callbacks, crc: Crc8)
    requires MinPayloadSize <= |key| + 1 + |values| <= MaxPayloadSize && cb.hasSetConfig
    requires forall i :: 0 <= i < |key| ==> key[i] != 0
    ensures var e := Encoded(Packet.ConfigPacket(key, values, crc));
      && 0 < |e| <= 20
      && DecodeAccepts(true, PacketMaxSize, NonNull(e))
      && Decoded(e) == Packet.ConfigPacket(key, values, crc)
      && Packet.Parse(NonNull(Decoded(e)), cb, crc) == Packet.ParseResult(None, [Packet.SetConfig(key, values)])
  {
    var p := Packet.ConfigPacket(key, values, crc);
    EncodedPacketLength(p);
    DecodeEncode(p);
    Packet.ParseConfigPacket(key, values, cb, crc);
  }
}

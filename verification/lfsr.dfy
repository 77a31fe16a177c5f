/**
  The shift-register byte generator of `src/lfsr.c`: one 8-bit register kept
  between calls, which `init` seeds and each byte request shifts eight times.
 */
module Lfsr {

  /** One shift as the code performs it: the register moves right by one and the feedback, the
      XOR of the register with itself shifted right, is ORed in at bit 6. The feedback is not
      masked to one bit, so its bit 1 (register bits 1 and 2) lands in bit 7. */
  function Shift(r: bv8): bv8
  {
    (r >> 1) | ((r ^ (r >> 1)) << 6)
  }

  /** The register after k shifts. */
  function ShiftN(r: bv8, k: nat): bv8
  {
    if k == 0 then r else Shift(ShiftN(r, k - 1))
  }

  function Lsb(r: bv8): bv8
  {
    r & 1
  }

  /** The byte a request returns from register r: its bits, most significant first, are bit 0 of
      the register after the first, second, ..., eighth shift. */
  function OutputByte(r: bv8): bv8
  {
    (Lsb(ShiftN(r, 1)) << 7) | (Lsb(ShiftN(r, 2)) << 6) | (Lsb(ShiftN(r, 3)) << 5) | (Lsb(ShiftN(r, 4)) << 4)
    | (Lsb(ShiftN(r, 5)) << 3) | (Lsb(ShiftN(r, 6)) << 2) | (Lsb(ShiftN(r, 7)) << 1) | Lsb(ShiftN(r, 8))
  }

  /** The accumulated output after i of the eight iterations: shifted left, new bit at bit 0. */
  function OutBits(r: bv8, i: nat): bv8
  {
    if i == 0 then 0 else (OutBits(r, i - 1) << 1) | Lsb(ShiftN(r, i))
  }

  /** The register `init` stores: a zero seed is replaced by 1, any other seed is kept whole. */
  function Seed(seed: bv8): (r: bv8)
    ensures r != 0
    ensures seed == 0 ==> r == 1
    ensures seed != 0 ==> r == seed
  {
    if seed == 0 then 1 else seed
  }

  /** The register after j bytes have been requested from register r. */
  function KeyState(r: bv8, j: nat): bv8
  {
    if j == 0 then r else ShiftN(KeyState(r, j - 1), 8)
  }

  /** Byte j (from 0) of the stream that register r produces. */
  function KeyByte(r: bv8, j: nat): bv8
  {
    OutputByte(KeyState(r, j))
  }

  /** After the eight iterations the accumulated bits are exactly the output byte. */
  lemma OutBitsIsOutputByte(r: bv8)
    ensures OutBits(r, 8) == OutputByte(r)
  {
    var b1, b2, b3, b4 := Lsb(ShiftN(r, 1)), Lsb(ShiftN(r, 2)), Lsb(ShiftN(r, 3)), Lsb(ShiftN(r, 4));
    var b5, b6, b7, b8 := Lsb(ShiftN(r, 5)), Lsb(ShiftN(r, 6)), Lsb(ShiftN(r, 7)), Lsb(ShiftN(r, 8));
    var o1 := OutBits(r, 1);
    var o2 := OutBits(r, 2);
    var o3 := OutBits(r, 3);
    var o4 := OutBits(r, 4);
    var o5 := OutBits(r, 5);
    var o6 := OutBits(r, 6);
    var o7 := OutBits(r, 7);
    assert o1 == (OutBits(r, 0) << 1) | b1;
    assert OutBits(r, 0) == 0;
    assert o1 == b1;
    assert o2 == (o1 << 1) | b2;
    assert o3 == (o2 << 1) | b3;
    assert o4 == (o3 << 1) | b4;
    assert o5 == (o4 << 1) | b5;
    assert o6 == (o5 << 1) | b6;
    assert o7 == (o6 << 1) | b7;
    assert OutBits(r, 8) == (o7 << 1) | b8;
    ShiftInBits(b1, b2, b3, b4, b5, b6, b7, b8);
  }

  /** Shifting eight bits in one at a time from the right puts the first at bit 7. */
  lemma ShiftInBits(b1: bv8, b2: bv8, b3: bv8, b4: bv8, b5: bv8, b6: bv8, b7: bv8, b8: bv8)
    requires b1 <= 1 && b2 <= 1 && b3 <= 1 && b4 <= 1 && b5 <= 1 && b6 <= 1 && b7 <= 1 && b8 <= 1
    ensures ((((((((((((((b1 << 1) | b2) << 1) | b3) << 1) | b4) << 1) | b5) << 1) | b6) << 1) | b7) << 1) | b8)
            == (b1 << 7) | (b2 << 6) | (b3 << 5) | (b4 << 4) | (b5 << 3) | (b6 << 2) | (b7 << 1) | b8
  {
  }

  /** Bits 0-5 of the new register are bits 1-6 of the old one; bit 6 is old bit 7 ORed with the
      XOR of old bits 0 and 1; bit 7 is the XOR of old bits 1 and 2 (the unmasked feedback). */
  lemma ShiftBits(r: bv8)
    ensures Shift(r) & 0x3F == (r >> 1) & 0x3F
    ensures (Shift(r) >> 6) & 1 == ((r >> 7) | (r ^ (r >> 1))) & 1
    ensures (Shift(r) >> 7) & 1 == ((r >> 1) ^ (r >> 2)) & 1
  {
  }

  /** A nonzero register never shifts to zero, so a seeded generator never gets stuck at 0. */
  lemma ShiftNonZero(r: bv8)
    requires r != 0
    ensures Shift(r) != 0
  {
  }

  lemma {:induction false} ShiftNNonZero(r: bv8, k: nat)
    requires r != 0
    ensures ShiftN(r, k) != 0
  {
    if k > 0 {
      ShiftNNonZero(r, k - 1);
      ShiftNonZero(ShiftN(r, k - 1));
    }
  }

  lemma {:induction false} KeyStateNonZero(r: bv8, j: nat)
    requires r != 0
    ensures KeyState(r, j) != 0
  {
    if j > 0 {
      KeyStateNonZero(r, j - 1);
      ShiftNNonZero(KeyState(r, j - 1), 8);
    }
  }

  /** The register does not stay within 7 bits as a 7-bit register with polynomial x^7 + x^6 + 1
      would: state 0x02 steps to 0xC1. */
  lemma RegisterLeavesSevenBits()
    ensures 0x02 < 0x80 && Shift(0x02) == 0xC1 && Shift(0x02) >= 0x80
  {
  }

  /** The generator's register `lfsr127`, initially 1. */
  class Lfsr127 {
    var register: bv8

    constructor()
      ensures register == 1
    {
      register := 1;
    }

    /** `illuminatir_lfsr127_init`. */
    method Init(seed: bv8)
      modifies this
      ensures register == Seed(seed)
    {
      var s := seed;
      if s == 0 {
        s := 1;
      }
      register := s;
    }

    /** `illuminatir_lfsr127_uint8`: eight shifts, collecting bit 0 after each, MSB first. */
    method NextByte() returns (out: bv8)
      modifies this
      ensures out == OutputByte(old(register))
      ensures register == ShiftN(old(register), 8)
    {
      out := 0;
      var i: nat := 0;
      while i < 8
        invariant i <= 8
        invariant register == ShiftN(old(register), i)
        invariant out == OutBits(old(register), i)
      {
        ghost var before := register;
        var feedback := (register >> 0) ^ (register >> 1);
        assert feedback == before ^ (before >> 1);
        register := (register >> 1) | (feedback << 6);
        assert register == Shift(before) == ShiftN(old(register), i + 1);
        out := (out << 1) | (register & 1);
        assert out == (OutBits(old(register), i) << 1) | Lsb(ShiftN(old(register), i + 1));
        i := i + 1;
      }
      OutBitsIsOutputByte(old(register));
    }
  }
}

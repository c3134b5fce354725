// What the GDL90 CRC-16 is: the remainder of the message, read as a polynomial over GF(2), on
// division by x^16 + x^12 + x^5 + 1, one bit at a time. The byte table is a fast form of it.
module Gdl90Crc {
  import opened Bits
  import opened Bytes
  import opened Gdl90

  // Append one bit to the dividend.
  function RemainderStep(r: nat, b: Bit): nat {
    Xor(TableStep(r), b)
  }

  function Remainder(r: nat, bits: seq<Bit>): nat {
    if |bits| == 0 then r else RemainderStep(Remainder(r, bits[..|bits| - 1]), bits[|bits| - 1])
  }

  // ---- the reduction is linear, and only shifts what does not reach the top

  lemma TableStepLinear(s: nat, t: nat)
    ensures TableStep(Xor(s, t)) == Xor(TableStep(s), TableStep(t))
  {
    hide Xor, Low, BitAt, Shl;
    var p, q := if BitAt(s, 15) == 1 then CRC_POLY else 0, if BitAt(t, 15) == 1 then CRC_POLY else 0;
    BitAtXor(s, t, 15);
    XorShl(s, t, 1);
    XorExchange(Shl(s, 1), p, Shl(t, 1), q);
    XorSelf(CRC_POLY);
    XorZero(CRC_POLY);
    XorZero(0);
    LowXor(Xor(Shl(s, 1), p), Xor(Shl(t, 1), q), 16);
  }

  lemma {:induction false} TableStepsLinear(s: nat, t: nat, k: nat)
    ensures TableSteps(Xor(s, t), k) == Xor(TableSteps(s, k), TableSteps(t, k))
  {
    hide Xor, TableStep;
    if k != 0 {
      TableStepsLinear(s, t, k - 1);
      TableStepLinear(TableSteps(s, k - 1), TableSteps(t, k - 1));
    }
  }

  lemma SmallStep(s: nat)
    requires s < Pow2(15)
    ensures TableStep(s) == 2 * s
  {
    hide Xor, Shr, Low, Pow2;
    ShrOfSmall(s, 15);
    Doubles(15);
    LowOfSmall(2 * s, 16);
    XorZero(2 * s);
  }

  lemma Doubles(k: nat)
    ensures Pow2(k + 1) == 2 * Pow2(k)
  {
  }

  lemma {:induction false} StepsShift(v: nat, m: nat, k: nat)
    requires v < Pow2(m) && m + k <= 16
    ensures TableSteps(v, k) == Shl(v, k)
    decreases k
  {
    hide TableStep, Pow2, Shl;
    if k == 0 {
      ShlNone(v);
    } else {
      StepsShift(v, m, k - 1);
      ShlDouble(v, k - 1);
      ShlBound(v, m, k - 1);
      Pow2Monotone(m + k - 1, 15);
      SmallStep(Shl(v, k - 1));
    }
  }

  // ---- eight bits at once

  lemma {:induction false} WordAppended(r: nat, v: nat, k: nat)
    requires k <= 16 && v < Pow2(k)
    ensures Remainder(r, BitsOf(v, k)) == Xor(TableSteps(r, k), v)
    decreases k
  {
    hide Xor, TableStep, Pow2;
    if k == 0 {
      PowZeroIsOne();
      XorZero(r);
    } else {
      HalfFits(v, k);
      WordAppended(r, v / 2, k - 1);
      assert BitsOf(v, k)[..k - 1] == BitsOf(v / 2, k - 1);
      TableStepLinear(TableSteps(r, k - 1), v / 2);
      Pow2Monotone(k - 1, 15);
      SmallStep(v / 2);
      XorAssoc(TableSteps(r, k), 2 * (v / 2), v % 2);
      BitAppended(v);
    }
  }

  lemma PowZeroIsOne()
    ensures Pow2(0) == 1
  {
  }

  lemma HalfFits(v: nat, k: nat)
    requires k > 0 && v < Pow2(k)
    ensures v / 2 < Pow2(k - 1)
  {
  }

  lemma BitAppended(v: nat)
    ensures Xor(2 * (v / 2), v % 2) == v
  {
  }

  // The table entry stands for the eight bits about to leave the register.
  lemma FoldIsEightSteps(r: nat, b: Byte)
    requires r < Pow2(16)
    ensures Fold(r, b) == Xor(TableSteps(r, 8), b)
  {
    hide Xor, Low, Shl, Shr, TableStep, TableSteps, Pow2;
    var high, low := Shr(r, 8), Low(r, 8);
    HighLow(r, 8);
    LowBound(r, 8);
    ShrFits(r);
    LowOfSmall(high, 8);
    TableStepsLinear(Shl(high, 8), low, 8);
    StepsShift(low, 8, 8);
    LowShl(r, 8, 8);
    EntryFits(high);
    ByteFits(b);
    FoldMasks(TableEntry(HighByte(r)), Shl(r, 8), b);
  }

  lemma ShrFits(r: nat)
    requires r < Pow2(16)
    ensures Shr(r, 8) < Pow2(8) == 256
  {
  }

  lemma EntryFits(i: Byte)
    ensures Low(TableEntry(i), 16) == TableEntry(i)
  {
    hide Xor, Shl, BitAt;
    var s := TableSteps(Shl(i, 8), 7);
    LowLow(Xor(Shl(s, 1), if BitAt(s, 15) == 1 then CRC_POLY else 0), 16, 16);
  }

  lemma ByteFits(b: Byte)
    ensures Low(b, 16) == b
  {
    hide Low;
    assert Pow2(8) == 256;
    Pow2Monotone(8, 16);
    LowOfSmall(b, 16);
  }

  lemma FoldMasks(e: nat, s: nat, b: nat)
    ensures Low(Xor(Xor(e, s), b), 16) == Xor(Xor(Low(e, 16), Low(s, 16)), Low(b, 16))
  {
    hide Xor, Low;
    LowXor(Xor(e, s), b, 16);
    LowXor(e, s, 16);
  }

  lemma {:induction false} RemainderConcat(r: nat, p: seq<Bit>, q: seq<Bit>)
    ensures Remainder(r, p + q) == Remainder(Remainder(r, p), q)
    decreases |q|
  {
    hide RemainderStep;
    if |q| == 0 {
      assert p + q == p;
    } else {
      assert (p + q)[..|p| + |q| - 1] == p + q[..|q| - 1];
      RemainderConcat(r, p, q[..|q| - 1]);
    }
  }

  // The fold over the table computes the remainder of the whole message, for any length.
  lemma {:induction false} CrcIsRemainder(payload: seq<Byte>)
    ensures Crc16(payload) == Remainder(0, MessageBits(payload))
  {
    hide Fold, RemainderStep, BitsOf, Xor, TableSteps, Pow2;
    if |payload| != 0 {
      var most, last := payload[..|payload| - 1], payload[|payload| - 1];
      CrcIsRemainder(most);
      RemainderConcat(0, MessageBits(most), BitsOf(last, 8));
      CrcFits(most);
      ByteBound(last);
      FoldIsEightSteps(Crc16(most), last);
      WordAppended(Crc16(most), last, 8);
    }
  }

  lemma CrcFits(payload: seq<Byte>)
    ensures Crc16(payload) < Pow2(16)
  {
    hide Crc16;
    Crc16Bound(payload);
    assert Pow2(12) == 0x1000;
    assert Pow2(16) == 16 * Pow2(12);
  }
}

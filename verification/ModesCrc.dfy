// The 24-bit Mode-S parity (ICAO Annex 10 Vol IV section 3.1.2.3.3): the byte-table form of
// components/modes_decode/modes_decode.c, the long division of tools/bench/gdl90.py, and what the
// check detects.
module ModesCrc {
  import opened Arith
  import opened Bits
  import opened BitStrings
  import opened Bytes
  import opened Wrappers

  const MODES_CRC_POLY := 0xFFF409

  // ---- reference: division by x^24 + 0xFFF409, one bit at a time

  // Multiply the remainder by x.
  function ZeroStep(s: nat): nat {
    Xor(Low(2 * s, 24), if BitAt(s, 23) == 1 then MODES_CRC_POLY else 0)
  }

  function BitStep(s: nat, b: Bit): nat {
    Xor(Low(2 * s, 24), if BitAt(s, 23) != b then MODES_CRC_POLY else 0)
  }

  function Divide(s: nat, bits: seq<Bit>): nat {
    if |bits| == 0 then s else BitStep(Divide(s, bits[..|bits| - 1]), bits[|bits| - 1])
  }

  ghost function Crc(msg: seq<Byte>): nat {
    Divide(0, MessageBits(msg))
  }

  // The divisor: x^24 leaves 0xFFF409.
  lemma DivisorIs()
    ensures Divide(0, [1]) == 0xFFF409
  {
    hide Xor, Low, Shr, Pow2;
    assert [1][..0] == [];
    PowersOfTwo();
    LowOfSmall(0, 24);
    ShrOfSmall(0, 23);
    XorComm(0, 0xFFF409);
    XorZero(0xFFF409);
  }

  lemma PowersOfTwo()
    ensures Pow2(8) == 0x100 && Pow2(16) == 0x1_0000 && Pow2(23) == 0x80_0000 && Pow2(24) == 0x100_0000
  {
    assert Pow2(8) == 0x100;
    assert Pow2(16) == 0x100 * Pow2(8) by {
      assert Pow2(12) == 16 * Pow2(8);
      assert Pow2(16) == 16 * Pow2(12);
    }
    assert Pow2(20) == 16 * Pow2(16);
    assert Pow2(23) == 8 * Pow2(20);
  }

  // ---- the step is linear, and multiplying by x loses nothing

  lemma StepBound(s: nat)
    ensures ZeroStep(s) < Pow2(24)
  {
    hide Xor, Pow2;
    PowersOfTwo();
    LowBound(2 * s, 24);
    XorBound(Low(2 * s, 24), if BitAt(s, 23) == 1 then MODES_CRC_POLY else 0, 24);
  }

  lemma ZeroStepLinear(s: nat, t: nat)
    ensures ZeroStep(Xor(s, t)) == Xor(ZeroStep(s), ZeroStep(t))
  {
    hide Xor, Low, BitAt;
    var p, q := if BitAt(s, 23) == 1 then MODES_CRC_POLY else 0, if BitAt(t, 23) == 1 then MODES_CRC_POLY else 0;
    BitAtXor(s, t, 23);
    XorDouble(s, t);
    LowXor(2 * s, 2 * t, 24);
    XorExchange(Low(2 * s, 24), p, Low(2 * t, 24), q);
    XorSelf(MODES_CRC_POLY);
    XorZero(MODES_CRC_POLY);
    XorZero(0);
  }

  // The polynomial is odd, so x is invertible modulo it.
  lemma ZeroStepInjective(s: nat)
    requires s < Pow2(24) && ZeroStep(s) == 0
    ensures s == 0
  {
    hide Xor, Pow2;
    var p := if BitAt(s, 23) == 1 then MODES_CRC_POLY else 0;
    XorZeroOnlyEqual(Low(2 * s, 24), p);
    assert Low(2 * s, 24) % 2 == 0;
    assert p == 0;
    HighBitClear(s);
    LowOfSmall(2 * s, 24);
  }

  lemma HighBitClear(s: nat)
    requires s < Pow2(24) && BitAt(s, 23) == 0
    ensures s < Pow2(23) && 2 * s < Pow2(24)
  {
    hide Shr, Pow2;
    ShrIsQuotient(s, 23);
    DoubledPower(23);
    QuotientEven(s, Pow2(23), Shr(s, 23));
  }

  lemma DoubledPower(k: nat)
    ensures Pow2(k + 1) == 2 * Pow2(k)
  {
  }

  function ZeroSteps(s: nat, k: nat): nat {
    if k == 0 then s else ZeroStep(ZeroSteps(s, k - 1))
  }

  lemma {:induction false} ZeroStepsLinear(s: nat, t: nat, k: nat)
    ensures ZeroSteps(Xor(s, t), k) == Xor(ZeroSteps(s, k), ZeroSteps(t, k))
  {
    hide Xor, ZeroStep;
    if k != 0 {
      ZeroStepsLinear(s, t, k - 1);
      ZeroStepLinear(ZeroSteps(s, k - 1), ZeroSteps(t, k - 1));
    }
  }

  lemma {:induction false} ZeroStepsBound(s: nat, k: nat)
    requires s < Pow2(24)
    ensures ZeroSteps(s, k) < Pow2(24)
  {
    hide ZeroStep, Pow2;
    if k != 0 {
      StepBound(ZeroSteps(s, k - 1));
    }
  }

  lemma {:induction false} ZeroStepsInjective(s: nat, k: nat)
    requires s < Pow2(24) && ZeroSteps(s, k) == 0
    ensures s == 0
  {
    hide ZeroStep, Pow2;
    if k != 0 {
      ZeroStepsBound(s, k - 1);
      ZeroStepInjective(ZeroSteps(s, k - 1));
      ZeroStepsInjective(s, k - 1);
    }
  }

  // An input bit acts on the top of the remainder.
  lemma BitStepAbsorbs(s: nat, b: Bit)
    ensures BitStep(s, b) == ZeroStep(Xor(s, Shl(b, 23)))
  {
    hide Xor, Low, Shl, BitAt;
    var t := Shl(b, 23);
    TopBitOnly(b);
    BitAtXor(s, t, 23);
    XorDouble(s, t);
    LowXor(2 * s, 2 * t, 24);
    XorZero(Low(2 * s, 24));
  }

  lemma TopBitOnly(b: Bit)
    ensures BitAt(Shl(b, 23), 23) == b && Low(2 * Shl(b, 23), 24) == 0
  {
    hide Shl, Low;
    ShrShl(b, 23, 0);
    ShlDouble(b, 23);
    LowShl(b, 0, 24);
    ShlZero(24);
    LowNone(b);
  }

  lemma LowNone(a: nat)
    ensures Low(a, 0) == 0
  {
  }

  lemma {:induction false} ShlZero(k: nat)
    ensures Shl(0, k) == 0
    decreases k
  {
    if k != 0 {
      ShlZero(k - 1);
    }
  }

  // A value that does not reach the top is only shifted.
  lemma {:induction false} ZeroStepsShift(v: nat, m: nat, k: nat)
    requires v < Pow2(m) && m + k <= 24
    ensures ZeroSteps(v, k) == Shl(v, k)
    decreases k
  {
    hide ZeroStep, Pow2, Shl;
    if k != 0 {
      ZeroStepsShift(v, m, k - 1);
      ShlDouble(v, k - 1);
      ShlBound(v, m, k - 1);
      ShlBound(v, m, k);
      Pow2Monotone(m + k - 1, 23);
      Pow2Monotone(m + k, 24);
      SmallZeroStep(Shl(v, k - 1));
    } else {
      ShlNone(v);
    }
  }

  lemma SmallZeroStep(s: nat)
    requires s < Pow2(23)
    ensures ZeroStep(s) == 2 * s
  {
    hide Xor, Shr, Low;
    ShrOfSmall(s, 23);
    assert Pow2(24) == 2 * Pow2(23);
    LowOfSmall(2 * s, 24);
    XorZero(2 * s);
  }

  // Feeding the k bits of v is adding v to the top of the remainder and multiplying by x^k.
  lemma {:induction false} DivideWord(s: nat, v: nat, k: nat)
    requires k <= 24 && v < Pow2(k)
    ensures Divide(s, BitsOf(v, k)) == ZeroSteps(Xor(s, Shl(v, 24 - k)), k)
    decreases k
  {
    hide Xor, Shl, ZeroStep, BitStep;
    if k == 0 {
      ShlZero(24);
      XorZero(s);
    } else {
      var high, b := v / 2, v % 2;
      DivideWord(s, high, k - 1);
      assert BitsOf(v, k)[..k - 1] == BitsOf(high, k - 1);
      BitStepAbsorbs(Divide(s, BitsOf(high, k - 1)), b);
      LastBit(v, k);
      ZeroStepsLinear(Xor(s, Shl(high, 25 - k)), Shl(b, 24 - k), k - 1);
      XorAssoc(s, Shl(high, 25 - k), Shl(b, 24 - k));
    }
  }

  // v = 2 (v / 2) + v % 2, shifted left by 24 - k; the low bit meets the top after k - 1 steps.
  lemma LastBit(v: nat, k: nat)
    requires 1 <= k <= 24
    ensures Shl(v, 24 - k) == Xor(Shl(v / 2, 25 - k), Shl(v % 2, 24 - k))
    ensures ZeroSteps(Shl(v % 2, 24 - k), k - 1) == Shl(v % 2, 23)
  {
    hide Xor, ZeroStep, ZeroSteps;
    var b := v % 2;
    HighLow(v, 1);
    assert Shr(v, 1) == v / 2 && Low(v, 1) == b && Shl(v / 2, 1) == 2 * (v / 2);
    XorShl(2 * (v / 2), b, 24 - k);
    ShlAdd(v / 2, 1, 24 - k);
    assert b < Pow2(1);
    ShlBound(b, 1, 24 - k);
    ZeroStepsShift(Shl(b, 24 - k), 25 - k, k - 1);
    ShlAdd(b, 24 - k, k - 1);
  }

  // ---- the lookup table

  // Eight division steps on an unmasked register, as the table is built.
  function TableEntry(byte: Byte): nat {
    ZeroSteps(Shl(byte, 16), 8)
  }

  class CrcTable {
    const table: array<nat>

    ghost predicate Valid()
      reads table
    {
      table.Length == 256 && forall i :: 0 <= i < 256 ==> table[i] == TableEntry(i)
    }

    constructor ()
      ensures Valid()
    {
      hide TableEntry;
      var t := new nat[256](_ => 0);
      for byte := 0 to 256
        invariant forall i :: 0 <= i < byte ==> t[i] == TableEntry(i)
      {
        t[byte] := BuildEntry(byte);
      }
      table := t;
    }

    static method BuildEntry(byte: Byte) returns (entry: nat)
      ensures entry == TableEntry(byte)
    {
      hide Xor, Low, Shl, Pow2, BitAt;
      var crc := Shl(byte, 16);
      ByteSeed(byte);
      for bit := 0 to 8
        invariant Low(crc, 24) == ZeroSteps(Shl(byte, 16), bit)
      {
        UnmaskedStep(crc);
        if BitAt(crc, 23) == 1 {
          crc := Xor(Shl(crc, 1), MODES_CRC_POLY);
        } else {
          crc := Shl(crc, 1);
        }
      }
      entry := Low(crc, 24);
    }

    // The residue of the message part of a frame, one byte at a time.
    method Compute(frame: seq<Byte>) returns (crc: nat)
      requires Valid() && |frame| >= 3
      ensures crc == Crc(frame[..|frame| - 3]) && crc < 0x100_0000
    {
      hide Xor, Low, Shl, Shr, Divide, TableEntry, Pow2;
      crc := 0;
      PowersOfTwo();
      DivideNothing();
      var n := |frame| - 3;
      for i := 0 to n
        invariant crc == Crc(frame[..i]) && crc < Pow2(24)
      {
        ByteStep(crc, frame[i]);
        MessageBitsSnoc(frame[..i], frame[i]);
        assert frame[..i + 1] == frame[..i] + [frame[i]];
        var idx := Low(Xor(Shr(crc, 16), frame[i]), 8);
        crc := Low(Xor(Shl(crc, 8), table[idx]), 24);
      }
    }

    // A frame of 7 or 14 bytes is accepted when its last three bytes are the parity of the rest.
    // The address is the AA field of an accepted DF17 or DF18, and otherwise what the parity was
    // overlaid with.
    method CheckCrc(frame: seq<Byte>) returns (verdict: Verdict, icao: Option<nat>)
      requires Valid()
      ensures verdict.BadLen? <==> |frame| != 7 && |frame| != 14
      ensures verdict.CrcOk? <==> Accepted(frame)
      ensures icao == if verdict.BadLen? then None
                      else if !Squitter(frame) then Some(Overlay(frame))
                      else if verdict.CrcOk? then Some(AddressField(frame))
                      else None
    {
      hide Xor, Shl, Divide, Pow2;
      if |frame| != 7 && |frame| != 14 {
        return BadLen, None;
      }
      var n := |frame|;
      var parity := Xor(Xor(Shl(frame[n - 3], 16), Shl(frame[n - 2], 8)), frame[n - 1]);
      var crc := Compute(frame);
      RecoveredIsZero(frame, crc);
      var recovered := Low(Xor(crc, parity), 24);
      var df := frame[0] / 8;
      if df == 17 || df == 18 {
        if recovered != 0 {
          return Fail, None;
        }
        return CrcOk, Some(Xor(Xor(Shl(frame[1], 16), Shl(frame[2], 8)), frame[3]));
      }
      icao := Some(recovered);
      verdict := if recovered == 0 then CrcOk else Fail;
    }
  }

  datatype Verdict = BadLen | Fail | CrcOk

  // Downlink format 17 or 18.
  predicate Squitter(frame: seq<Byte>)
    requires |frame| >= 1
  {
    frame[0] / 8 == 17 || frame[0] / 8 == 18
  }

  function AddressField(frame: seq<Byte>): nat
    requires |frame| >= 4
  {
    Xor(Xor(Shl(frame[1], 16), Shl(frame[2], 8)), frame[3])
  }

  ghost function Overlay(frame: seq<Byte>): nat
    requires |frame| >= 3
  {
    Xor(Crc(frame[..|frame| - 3]), Parity(frame))
  }

  lemma RecoveredIsZero(frame: seq<Byte>, crc: nat)
    requires |frame| >= 3 && crc == Crc(frame[..|frame| - 3]) && crc < 0x100_0000
    ensures Low(Xor(crc, Parity(frame)), 24) == Overlay(frame)
    ensures Overlay(frame) == 0 <==> crc == Parity(frame)
  {
    hide Xor, Low, Shl, Divide, Pow2, Parity;
    ParityBound(frame);
    PowersOfTwo();
    XorBound(crc, Parity(frame), 24);
    LowOfSmall(Xor(crc, Parity(frame)), 24);
    if crc == Parity(frame) {
      XorSelf(crc);
    } else if Overlay(frame) == 0 {
      XorZeroOnlyEqual(crc, Parity(frame));
    }
  }

  // Byte i of a message is its bits 8 i to 8 i + 7.
  lemma {:induction false} ByteBits(msg: seq<Byte>, i: nat)
    requires i < |msg|
    ensures MessageBits(msg)[8 * i..8 * i + 8] == BitsOf(msg[i], 8)
    decreases |msg|
  {
    hide BitsOf;
    var n := |msg| - 1;
    assert MessageBits(msg) == MessageBits(msg[..n]) + BitsOf(msg[n], 8);
    if i < n {
      ByteBits(msg[..n], i);
      SliceOfHead(MessageBits(msg[..n]), BitsOf(msg[n], 8), 8 * i, 8 * i + 8);
    } else {
      SliceOfTail(MessageBits(msg[..n]), BitsOf(msg[n], 8));
    }
  }

  lemma SliceOfHead<T>(p: seq<T>, q: seq<T>, a: nat, b: nat)
    requires a <= b <= |p|
    ensures (p + q)[a..b] == p[a..b]
  {
  }

  lemma SliceOfTail<T>(p: seq<T>, q: seq<T>)
    ensures (p + q)[|p|..|p| + |q|] == q
  {
  }

  // The address is the three bytes after the first, most significant first.
  lemma AddressBits(frame: seq<Byte>)
    requires |frame| >= 4
    ensures BitsOf(AddressField(frame), 24) == MessageBits(frame)[8..32]
  {
    hide Xor, Shl, BitsOf, MessageBits;
    AddressIsWord(frame);
    ParityWordBits(frame[1], frame[2], frame[3]);
    ByteBits(frame, 1);
    ByteBits(frame, 2);
    ByteBits(frame, 3);
    ThreeParts(MessageBits(frame), 8, 16, 24, 32);
  }

  lemma ThreeParts<T>(s: seq<T>, a: nat, b: nat, c: nat, d: nat)
    requires a <= b <= c <= d <= |s|
    ensures s[a..d] == s[a..b] + s[b..c] + s[c..d]
  {
  }

  lemma AddressIsWord(frame: seq<Byte>)
    requires |frame| >= 4
    ensures AddressField(frame) == ParityWord(frame[1], frame[2], frame[3])
  {
  }

  // The format is the first five bits.
  lemma FormatBits(frame: seq<Byte>)
    requires |frame| >= 1
    ensures
      var format := ValueOf(MessageBits(frame)[..5]);
      Squitter(frame) <==> format == 17 || format == 18
  {
    hide MessageBits, BitsOf, ValueOf;
    var b := frame[0];
    ByteBits(frame, 0);
    TopFive(b);
    HeadOfSlice(MessageBits(frame), 5, 8);
    assert Pow2(5) == 32;
    ValueOfBits(b / 8, 5);
  }

  lemma HeadOfSlice<T>(s: seq<T>, k: nat, n: nat)
    requires k <= n <= |s|
    ensures s[0..n][..k] == s[..k]
  {
  }

  lemma TopFive(b: Byte)
    ensures BitsOf(b, 8)[..5] == BitsOf(b / 8, 5)
  {
    hide BitsOf;
    BitsOfHead(b, 7);
    BitsOfHead(b / 2, 6);
    BitsOfHead(b / 4, 5);
    assert BitsOf(b, 8)[..5] == BitsOf(b, 8)[..7][..6][..5];
  }

  lemma BitsOfHead(v: nat, k: nat)
    ensures BitsOf(v, k + 1)[..k] == BitsOf(v / 2, k)
  {
  }

  lemma {:induction false} ValueOfBits(v: nat, k: nat)
    requires v < Pow2(k)
    ensures ValueOf(BitsOf(v, k)) == v
    decreases k
  {
    if k != 0 {
      ValueOfBits(v / 2, k - 1);
      assert BitsOf(v, k)[..k - 1] == BitsOf(v / 2, k - 1);
    }
  }

  // A parity field overlaid with an address gives that address back.
  lemma OverlayRecovered(frame: seq<Byte>, address: nat)
    requires |frame| >= 3
    ensures Parity(frame) == Xor(Crc(frame[..|frame| - 3]), address) <==> Overlay(frame) == address
  {
    hide Xor, Parity, Crc;
    var crc := Crc(frame[..|frame| - 3]);
    XorSelf(crc);
    XorAssoc(crc, crc, address);
    XorZero(address);
    XorAssoc(crc, crc, Parity(frame));
    XorZero(Parity(frame));
  }

  function Parity(frame: seq<Byte>): nat
    requires |frame| >= 3
  {
    var n := |frame|;
    Xor(Xor(Shl(frame[n - 3], 16), Shl(frame[n - 2], 8)), frame[n - 1])
  }

  ghost predicate Accepted(frame: seq<Byte>) {
    (|frame| == 7 || |frame| == 14) && Crc(frame[..|frame| - 3]) == Parity(frame)
  }

  lemma ParityBound(frame: seq<Byte>)
    requires |frame| >= 3
    ensures Parity(frame) < Pow2(24)
  {
    hide Xor, Shl, Pow2;
    var n := |frame|;
    PowersOfTwo();
    ShlBound(frame[n - 3], 8, 16);
    ShlBound(frame[n - 2], 8, 8);
    XorBound(Shl(frame[n - 3], 16), Shl(frame[n - 2], 8), 24);
    XorBound(Xor(Shl(frame[n - 3], 16), Shl(frame[n - 2], 8)), frame[n - 1], 24);
  }

  lemma ByteSeed(byte: Byte)
    ensures Low(Shl(byte, 16), 24) == Shl(byte, 16)
  {
    hide Low, Shl;
    assert Pow2(8) == 256;
    ShlBound(byte, 8, 16);
    LowOfSmall(Shl(byte, 16), 24);
  }

  // Only the low 24 bits of the register matter.
  lemma UnmaskedStep(crc: nat)
    ensures ZeroStep(Low(crc, 24)) ==
      Low(if BitAt(crc, 23) == 1 then Xor(Shl(crc, 1), MODES_CRC_POLY) else Shl(crc, 1), 24)
  {
    hide Xor, Low, Pow2, Shr;
    var c := Low(crc, 24);
    ShrLow(crc, 23, 1);
    LowOneBit(Shr(crc, 23));
    ShlOne(crc);
    ShlOne(c);
    LowShl(crc, 23, 1);
    LowShl(c, 23, 1);
    LowLow(crc, 23, 24);
    LowXor(Shl(crc, 1), MODES_CRC_POLY, 24);
    PowersOfTwo();
    LowOfSmall(MODES_CRC_POLY, 24);
    XorZero(Low(2 * c, 24));
  }

  lemma LowOneBit(a: nat)
    ensures Low(a, 1) == a % 2
  {
  }

  lemma ShlOne(a: nat)
    ensures Shl(a, 1) == 2 * a
  {
  }

  lemma DivideNothing()
    ensures Divide(0, []) == 0
  {
  }

  lemma {:induction false} DivideConcat(s: nat, p: seq<Bit>, q: seq<Bit>)
    ensures Divide(s, p + q) == Divide(Divide(s, p), q)
    decreases |q|
  {
    hide BitStep;
    if |q| == 0 {
      assert p + q == p;
    } else {
      assert (p + q)[..|p| + |q| - 1] == p + q[..|q| - 1];
      DivideConcat(s, p, q[..|q| - 1]);
    }
  }

  lemma MessageBitsSnoc(msg: seq<Byte>, b: Byte)
    ensures Crc(msg + [b]) == Divide(Crc(msg), BitsOf(b, 8))
  {
    hide Divide;
    assert (msg + [b])[..|msg|] == msg;
    DivideConcat(0, MessageBits(msg), BitsOf(b, 8));
  }

  // One table lookup is eight division steps.
  lemma ByteStep(crc: nat, byte: Byte)
    requires crc < Pow2(24)
    ensures Low(Xor(Shr(crc, 16), byte), 8) < 256
    ensures Divide(crc, BitsOf(byte, 8))
         == Low(Xor(Shl(crc, 8), TableEntry(Low(Xor(Shr(crc, 16), byte), 8))), 24)
    ensures Divide(crc, BitsOf(byte, 8)) < Pow2(24)
  {
    hide Xor, Low, Shl, Shr, Divide, ZeroSteps, Pow2;
    PowersOfTwo();
    var high, low := Shr(crc, 16), Low(crc, 16);
    ShrBound(crc);
    XorBound(high, byte, 8);
    var idx := Xor(high, byte);
    LowOfSmall(idx, 8);
    // the register with the byte added is idx above low
    DivideWord(crc, byte, 8);
    HighLow(crc, 16);
    XorComm(Shl(high, 16), low);
    XorAssoc(low, Shl(high, 16), Shl(byte, 16));
    XorShl(high, byte, 16);
    assert Xor(crc, Shl(byte, 16)) == Xor(low, Shl(idx, 16));
    ZeroStepsLinear(low, Shl(idx, 16), 8);
    LowBound(crc, 16);
    ZeroStepsShift(low, 16, 8);
    // masking 24 bits keeps low << 8 and drops the high byte
    LowShl(crc, 16, 8);
    LowXor(Shl(crc, 8), TableEntry(idx), 24);
    ShlBound(idx, 8, 16);
    ZeroStepsBound(Shl(idx, 16), 8);
    LowOfSmall(TableEntry(idx), 24);
    LowBound(Shl(crc, 8), 24);
    XorBound(Shl(low, 8), TableEntry(idx), 24);
  }

  lemma ShrBound(crc: nat)
    requires crc < Pow2(24)
    ensures Shr(crc, 16) < Pow2(8)
  {
    hide Shr, Low;
    PowersOfTwo();
    ShrLowAreDivMod(crc, 16);
    hide Pow2;
  }

  // ---- what an accepted frame satisfies, and which errors it excludes

  // A frame is accepted exactly when its whole length divides without remainder.
  lemma AcceptedDivides(frame: seq<Byte>)
    requires |frame| == 7 || |frame| == 14
    ensures Accepted(frame) <==> Divide(0, MessageBits(frame)) == 0
  {
    hide Xor, Shl, Divide, BitsOf, Pow2;
    var n := |frame|;
    var msg, crc, parity := frame[..n - 3], Crc(frame[..n - 3]), Parity(frame);
    ParityBits(frame);
    ParityBound(frame);
    DivideConcat(0, MessageBits(msg), BitsOf(parity, 24));
    DivideWord(crc, parity, 24);
    ShlNone(parity);
    CrcBound(msg);
    XorBound(crc, parity, 24);
    XorSelf(crc);
    ZeroStepsOfZero(24);
    if Divide(0, MessageBits(frame)) == 0 {
      ZeroStepsInjective(Xor(crc, parity), 24);
      XorZeroOnlyEqual(crc, parity);
    }
  }

  lemma {:induction false} ZeroStepsOfZero(k: nat)
    ensures ZeroSteps(0, k) == 0
  {
    hide ZeroStep;
    if k != 0 {
      ZeroStepsOfZero(k - 1);
      ZeroStepZero();
    }
  }

  lemma ZeroStepZero()
    ensures ZeroStep(0) == 0
  {
    hide Low, Shr, Pow2;
    PowersOfTwo();
    LowOfSmall(0, 24);
    ShrOfSmall(0, 23);
  }

  lemma {:induction false} DivideBound(s: nat, bits: seq<Bit>)
    requires s < Pow2(24)
    ensures Divide(s, bits) < Pow2(24)
    decreases |bits|
  {
    hide BitStep, Pow2;
    if |bits| != 0 {
      var t := Divide(s, bits[..|bits| - 1]);
      BitStepAbsorbs(t, bits[|bits| - 1]);
      StepBound(Xor(t, Shl(bits[|bits| - 1], 23)));
    }
  }

  lemma CrcBound(msg: seq<Byte>)
    ensures Crc(msg) < Pow2(24)
  {
    hide Divide;
    DivideBound(0, MessageBits(msg));
  }

  // The last three bytes, as bits, are the 24 bits of the parity word.
  lemma ParityBits(frame: seq<Byte>)
    requires |frame| >= 3
    ensures MessageBits(frame) == MessageBits(frame[..|frame| - 3]) + BitsOf(Parity(frame), 24)
  {
    hide *;
    var n := |frame|;
    SplitLastThree(frame);
    ParityBitsOf(frame[..n - 3], frame[n - 3], frame[n - 2], frame[n - 1]);
    ParityIsWord(frame);
  }

  lemma SplitLastThree<T>(s: seq<T>)
    requires |s| >= 3
    ensures s == s[..|s| - 3] + [s[|s| - 3]] + [s[|s| - 2]] + [s[|s| - 1]]
  {
  }

  function ParityWord(a: Byte, b: Byte, c: Byte): nat {
    Xor(Xor(Shl(a, 16), Shl(b, 8)), c)
  }

  lemma ParityIsWord(frame: seq<Byte>)
    requires |frame| >= 3
    ensures Parity(frame) == ParityWord(frame[|frame| - 3], frame[|frame| - 2], frame[|frame| - 1])
  {
  }

  lemma ParityBitsOf(msg: seq<Byte>, a: Byte, b: Byte, c: Byte)
    ensures MessageBits(msg + [a] + [b] + [c]) == MessageBits(msg) + BitsOf(ParityWord(a, b, c), 24)
  {
    hide *;
    BitsSnoc(msg, a);
    BitsSnoc(msg + [a], b);
    BitsSnoc(msg + [a] + [b], c);
    ParityWordBits(a, b, c);
    Regroup(MessageBits(msg), BitsOf(a, 8), BitsOf(b, 8), BitsOf(c, 8));
  }

  lemma ParityWordBits(a: Byte, b: Byte, c: Byte)
    ensures BitsOf(ParityWord(a, b, c), 24) == BitsOf(a, 8) + BitsOf(b, 8) + BitsOf(c, 8)
  {
    hide Xor, Shl, BitsOf, Pow2;
    ByteBound(b);
    ByteBound(c);
    BitsOfConcat(a, b, 8, 8);
    XorShl(Shl(a, 8), b, 8);
    ShlAdd(a, 8, 8);
    BitsOfConcat(Xor(Shl(a, 8), b), c, 16, 8);
  }

  lemma Regroup(m: seq<Bit>, a: seq<Bit>, b: seq<Bit>, c: seq<Bit>)
    ensures m + a + b + c == m + (a + b + c)
  {
  }

  lemma BitsSnoc(msg: seq<Byte>, b: Byte)
    ensures MessageBits(msg + [b]) == MessageBits(msg) + BitsOf(b, 8)
  {
  }

  lemma {:induction false} BitsOfConcat(v: nat, w: nat, j: nat, k: nat)
    requires w < Pow2(k)
    ensures BitsOf(Xor(Shl(v, k), w), j + k) == BitsOf(v, j) + BitsOf(w, k)
    decreases k
  {
    hide Xor;
    if k == 0 {
      XorZero(v);
    } else {
      ShlDouble(v, k - 1);
      XorSplit(Shl(v, k), w);
      BitsOfConcat(v, w / 2, j, k - 1);
    }
  }

  lemma {:induction false} DivideLinear(s: nat, t: nat, p: seq<Bit>, q: seq<Bit>)
    requires |p| == |q|
    ensures Divide(Xor(s, t), XorBits(p, q)) == Xor(Divide(s, p), Divide(t, q))
    decreases |p|
  {
    hide Xor, BitStep, Shl, ZeroStep;
    if |p| != 0 {
      var n := |p| - 1;
      var u, v := Divide(s, p[..n]), Divide(t, q[..n]);
      DivideLinear(s, t, p[..n], q[..n]);
      assert XorBits(p, q)[..n] == XorBits(p[..n], q[..n]);
      BitStepAbsorbs(u, p[n]);
      BitStepAbsorbs(v, q[n]);
      BitStepAbsorbs(Xor(u, v), BitSum(p[n], q[n]));
      BitXor(p[n], q[n]);
      XorShl(p[n], q[n], 23);
      ZeroStepLinear(Xor(u, Shl(p[n], 23)), Xor(v, Shl(q[n], 23)));
      XorExchange(u, Shl(p[n], 23), v, Shl(q[n], 23));
    }
  }

  lemma {:induction false} DivideZeros(s: nat, zeros: seq<Bit>)
    requires AllClear(zeros)
    ensures Divide(s, zeros) == ZeroSteps(s, |zeros|)
    decreases |zeros|
  {
    hide Xor, Low, Shr, BitAt;
    if |zeros| != 0 {
      DivideZeros(s, zeros[..|zeros| - 1]);
    }
  }

  // A non-zero burst of at most 24 bits, anywhere, leaves a non-zero remainder.
  lemma BurstRemainder(before: seq<Bit>, burst: seq<Bit>, after: seq<Bit>)
    requires AllClear(before) && AllClear(after) && |burst| <= 24 && !AllClear(burst)
    ensures Divide(0, before + burst + after) != 0
  {
    hide Xor, Shl, Divide, ZeroSteps, Pow2, BitsOf;
    var k, v := |burst|, ValueOf(burst);
    DivideConcat(0, before + burst, after);
    DivideConcat(0, before, burst);
    DivideZeros(0, before);
    ZeroStepsOfZero(|before|);
    BitsOfValue(burst);
    DivideWord(0, v, k);
    XorZero(Shl(v, 24 - k));
    ShlBound(v, k, 24 - k);
    var r := Divide(0, burst);
    DivideZeros(r, after);
    ZeroStepsBound(Shl(v, 24 - k), k);
    if ZeroSteps(r, |after|) == 0 {
      ZeroStepsInjective(r, |after|);
      ZeroStepsInjective(Shl(v, 24 - k), k);
      ShlIsTimes(v, 24 - k);
      PositiveProduct(Pow2(24 - k), v);
    }
  }

  lemma PositiveProduct(a: nat, b: nat)
    requires a > 0 && a * b == 0
    ensures b == 0
  {
  }

  // Any frame the check accepts is rejected after flipping a non-empty set of bits that fits in
  // a window of 24.
  lemma BurstRejected(frame: seq<Byte>, corrupted: seq<Byte>, start: nat, len: nat)
    requires Accepted(frame) && |corrupted| == |frame| && corrupted != frame
    requires len <= 24 && start + len <= 8 * |frame|
    requires forall i :: 0 <= i < 8 * |frame| && !(start <= i < start + len) ==>
      MessageBits(frame)[i] == MessageBits(corrupted)[i]
    ensures !Accepted(corrupted)
  {
    hide Xor, Divide, MessageBits, Accepted;
    var p, q := MessageBits(frame), MessageBits(corrupted);
    var e := XorBits(p, q);
    AcceptedLength(frame);
    AcceptedDivides(frame);
    AcceptedDivides(corrupted);
    DivideLinear(0, 0, p, q);
    XorSelf(0);
    if p == q {
      MessageBitsInjective(frame, corrupted);
    }
    BurstInWindow(e, start, len);
  }

  lemma BurstInWindow(e: seq<Bit>, start: nat, len: nat)
    requires len <= 24 && start + len <= |e| && !AllClear(e)
    requires forall i :: 0 <= i < |e| && !(start <= i < start + len) ==> e[i] == 0
    ensures Divide(0, e) != 0
  {
    hide Divide, AllClear;
    SplitWindow(e, start, len);
    ClearOutside(e, start, len);
    BurstRemainder(e[..start], e[start..start + len], e[start + len..]);
  }

  lemma AcceptedLength(frame: seq<Byte>)
    requires Accepted(frame)
    ensures |frame| == 7 || |frame| == 14
  {
  }

  // ---- the bench's long division over one wide integer

  // What the register holds after i of n bits: the remainder above the bits still to come.
  lemma LongDivisionStep(reg: nat, s: nat, rest: nat, m: nat)
    requires Low(reg, m + 1 + 24) == Xor(Shl(s, m + 1), Shl(rest, 24))
    requires rest < Pow2(m + 1) && s < Pow2(24)
    ensures var b: Bit := BitAt(rest, m);
      var reg' := if BitAt(reg, m + 24) == 1 then Xor(reg, Shl(MODES_CRC_POLY, m)) else reg;
      Low(reg', m + 24) == Xor(Shl(BitStep(s, b), m), Shl(Low(rest, m), 24))
  {
    hide Xor, Low, Shl, Pow2, BitAt;
    var b: Bit := BitAt(rest, m);
    var q := Low(reg, m + 25);
    // the tested bit is the remainder's top bit plus the next message bit
    BitOfLow(reg, m + 24, m + 25);
    BitAtXor(Shl(s, m + 1), Shl(rest, 24), m + 24);
    BitAtShl(s, 23, m + 1);
    BitAtShl(rest, m, 24);
    // one bit fewer
    LowLow(reg, m + 24, m + 25);
    LowXor(Shl(s, m + 1), Shl(rest, 24), m + 24);
    LowShl(rest, m, 24);
    ShlAdd(s, 1, m);
    ShlOne(s);
    LowShl(2 * s, 24, m);
    // and the subtraction
    LowXor(reg, Shl(MODES_CRC_POLY, m), m + 24);
    LowShl(MODES_CRC_POLY, 24, m);
    PowersOfTwo();
    LowOfSmall(MODES_CRC_POLY, 24);
    var l, t := Low(2 * s, 24), Shl(Low(rest, m), 24);
    XorShl(l, MODES_CRC_POLY, m);
    XorZero(l);
    XorAssoc(Shl(l, m), t, Shl(MODES_CRC_POLY, m));
    XorComm(t, Shl(MODES_CRC_POLY, m));
    XorAssoc(Shl(l, m), Shl(MODES_CRC_POLY, m), t);
  }

  lemma BitOfLow(a: nat, j: nat, k: nat)
    requires j < k
    ensures BitAt(Low(a, k), j) == BitAt(a, j)
  {
    hide Low, Shr;
    ShrLow(a, j, k - j);
    LowHead(Shr(a, j), k - j);
  }

  lemma LowHead(a: nat, k: nat)
    requires k > 0
    ensures Low(a, k) % 2 == a % 2
  {
  }

  lemma BitAtShl(a: nat, j: nat, k: nat)
    ensures BitAt(Shl(a, k), j + k) == BitAt(a, j)
  {
    hide Shl, Shr;
    ShrShl(a, k, j);
  }

  // modes_crc of the bench: the message as one integer, the divisor sliding down one bit a step.
  method LongDivision(msg: seq<Byte>) returns (crc: nat)
    requires |msg| >= 3
    ensures crc == Crc(msg[..|msg| - 3])
  {
    hide Xor, Low, Shl, Pow2, BitAt, Divide, BitStep, MessageBits;
    ghost var bits := MessageBits(msg[..|msg| - 3]);
    var n := 8 * (|msg| - 3);
    var data := ToInteger(msg[..|msg| - 3]);
    BitsOfValue(bits);
    var reg := Shl(data, 24);
    LongDivisionStart(data, n);
    DivideNothing();
    assert bits[..0] == [];
    for i := 0 to n
      invariant Low(reg, n - i + 24) == Xor(Shl(Divide(0, bits[..i]), n - i), Shl(Low(data, n - i), 24))
      invariant Divide(0, bits[..i]) < Pow2(24)
    {
      var m := n - i - 1;
      LowBound(data, m + 1);
      LongDivisionStep(reg, Divide(0, bits[..i]), Low(data, m + 1), m);
      NextBit(data, bits, i);
      BitOfLow(data, m, m + 1);
      LowLow(data, m, m + 1);
      DivideSnoc(bits, i);
      DivideBound(0, bits[..i + 1]);
      if BitAt(reg, m + 24) == 1 {
        reg := Xor(reg, Shl(MODES_CRC_POLY, m));
      }
    }
    assert bits[..n] == bits;
    LowNone(data);
    ShlZero(24);
    ShlNone(Divide(0, bits));
    XorZero(Divide(0, bits));
    crc := Low(reg, 24);
  }

  lemma DivideSnoc(bits: seq<Bit>, i: nat)
    requires i < |bits|
    ensures Divide(0, bits[..i + 1]) == BitStep(Divide(0, bits[..i]), bits[i])
  {
    assert bits[..i + 1][..i] == bits[..i];
  }

  lemma LongDivisionStart(data: nat, n: nat)
    requires data < Pow2(n)
    ensures Low(Shl(data, 24), n + 24) == Xor(Shl(0, n), Shl(Low(data, n), 24))
    ensures 0 < Pow2(24)
  {
    hide Xor, Low, Shl;
    LowShl(data, n, 24);
    ShlZero(n);
    XorZero(Shl(Low(data, n), 24));
  }

  // Bit i of the message, counted from the most significant.
  lemma {:induction false} NextBit(data: nat, bits: seq<Bit>, i: nat)
    requires i < |bits| && data == ValueOf(bits)
    ensures BitAt(data, |bits| - 1 - i) == bits[i]
    decreases |bits|
  {
    var n := |bits| - 1;
    if i < n {
      NextBit(data / 2, bits[..n], i);
    }
  }

  // int.from_bytes(msg, "big")
  method ToInteger(msg: seq<Byte>) returns (v: nat)
    ensures v == ValueOf(MessageBits(msg))
  {
    hide MessageBits, BitsOf;
    v := 0;
    NoBits();
    assert msg[..0] == [];
    for i := 0 to |msg|
      invariant v == ValueOf(MessageBits(msg[..i]))
    {
      assert msg[..i + 1] == msg[..i] + [msg[i]];
      ValueSnoc(msg[..i], msg[i]);
      v := 256 * v + msg[i];
    }
    assert msg[..|msg|] == msg;
  }

  lemma NoBits()
    ensures ValueOf(MessageBits([])) == 0
  {
  }

  lemma ValueSnoc(msg: seq<Byte>, b: Byte)
    ensures ValueOf(MessageBits(msg + [b])) == 256 * ValueOf(MessageBits(msg)) + b
  {
    hide BitsOf;
    assert (msg + [b])[..|msg|] == msg;
    ByteBound(b);
    ValueConcat(MessageBits(msg), b, 8);
    assert Pow2(8) == 256;
  }

  lemma ValueAppend(bits: seq<Bit>, b: Bit)
    ensures ValueOf(bits + [b]) == 2 * ValueOf(bits) + b
  {
  }

  lemma {:induction false} ValueConcat(bits: seq<Bit>, v: nat, k: nat)
    requires v < Pow2(k)
    ensures ValueOf(bits + BitsOf(v, k)) == Pow2(k) * ValueOf(bits) + v
    decreases k
  {
    hide ValueOf;
    if k == 0 {
      assert bits + BitsOf(v, k) == bits;
    } else {
      ValueConcat(bits, v / 2, k - 1);
      ValueAppend(bits + BitsOf(v / 2, k - 1), v % 2);
      assert bits + BitsOf(v, k) == bits + BitsOf(v / 2, k - 1) + [v % 2];
      TwiceProduct(Pow2(k - 1), ValueOf(bits));
    }
  }
}

// The field GF(256) = GF(2)[x] / 0x187, x^8 + x^7 + x^2 + x + 1, defined from its
// polynomial arithmetic: the reference the table lookups of the codec are measured against.
module Gf256 {
  import opened Bits
  import opened Bytes

  const GF_POLY := 0x187

  // Addition and subtraction of the field.
  function Add(a: Byte, b: Byte): Byte {
    ByteXor(a, b);
    Xor(a, b)
  }

  lemma ByteXor(a: Byte, b: Byte)
    ensures Xor(a, b) < 256
  {
    assert Pow2(8) == 256;
    XorBound(a, b, 8);
  }

  // Multiplication by the primitive element, alpha = x.
  function XTime(a: Byte): Byte {
    if a < 128 then 2 * a
    else
      XTimeBound(a);
      Xor(2 * a, GF_POLY)
  }

  lemma TopBit(a: nat)
    requires a < 512
    ensures Shr(a, 8) == a / 256
    ensures Shr(a, 7) == a / 128
  {
  }

  lemma XTimeBound(a: Byte)
    requires a >= 128
    ensures Xor(2 * a, GF_POLY) < 256
  {
    hide Xor;
    TopBit(2 * a);
    TopBit(GF_POLY);
    XorShr(2 * a, GF_POLY, 8);
    XorSelf(1);
    assert Pow2(9) == 512;
    XorBound(2 * a, GF_POLY, 9);
    TopBit(Xor(2 * a, GF_POLY));
  }

  function Reduction(a: Byte): nat {
    if a < 128 then 0 else GF_POLY
  }

  lemma XTimeIs(a: Byte)
    ensures XTime(a) == Xor(2 * a, Reduction(a))
  {
  }

  lemma ReductionAdd(a: Byte, b: Byte)
    ensures Reduction(Add(a, b)) == Xor(Reduction(a), Reduction(b))
  {
    hide Xor;
    TopBit(a);
    TopBit(b);
    ByteXor(a, b);
    TopBit(Xor(a, b));
    XorShr(a, b, 7);
    XorSelf(1);
    XorZero(1);
    XorZero(0);
    XorZero(GF_POLY);
    XorSelf(GF_POLY);
  }

  lemma XTimeAdd(a: Byte, b: Byte)
    ensures XTime(Add(a, b)) == Add(XTime(a), XTime(b))
  {
    hide Xor, XTime, Reduction;
    var p, q := Reduction(a), Reduction(b);
    XTimeIs(a);
    XTimeIs(b);
    XTimeIs(Add(a, b));
    ReductionAdd(a, b);
    XorDouble(a, b);
    XorExchange(2 * a, p, 2 * b, q);
  }

  // ---- additive group

  lemma AddComm(a: Byte, b: Byte)
    ensures Add(a, b) == Add(b, a)
  {
    hide Xor;
    XorComm(a, b);
  }

  lemma AddAssoc(a: Byte, b: Byte, c: Byte)
    ensures Add(Add(a, b), c) == Add(a, Add(b, c))
  {
    hide Xor;
    XorAssoc(a, b, c);
  }

  lemma AddZero(a: Byte)
    ensures Add(a, 0) == a && Add(0, a) == a
  {
  }

  lemma AddSelf(a: Byte)
    ensures Add(a, a) == 0
  {
    hide Xor;
    XorSelf(a);
  }

  lemma AddExchange(a: Byte, b: Byte, c: Byte, d: Byte)
    ensures Add(Add(a, b), Add(c, d)) == Add(Add(a, c), Add(b, d))
  {
    hide Xor;
    XorExchange(a, b, c, d);
  }

  lemma AddCancel(a: Byte, b: Byte)
    ensures Add(a, Add(a, b)) == b
  {
    hide Add;
    AddAssoc(a, a, b);
    AddSelf(a);
    AddZero(b);
  }

  lemma AddZeroOnlyEqual(a: Byte, b: Byte)
    requires Add(a, b) == 0
    ensures a == b
  {
    hide Xor;
    XorZeroOnlyEqual(a, b);
  }

  // ---- multiplication

  function Mul(a: Byte, b: Byte): Byte
    decreases b
  {
    if b == 0 then 0
    else Add(if b % 2 == 1 then a else 0, XTime(Mul(a, b / 2)))
  }

  lemma {:induction false} MulAddLeft(a: Byte, b: Byte, c: Byte)
    ensures Mul(Add(a, b), c) == Add(Mul(a, c), Mul(b, c))
    decreases c
  {
    hide Add, XTime;
    if c == 0 {
      AddZero(0);
    } else {
      var s, t := Mul(a, c / 2), Mul(b, c / 2);
      MulAddLeft(a, b, c / 2);
      XTimeAdd(s, t);
      AddExchange(if c % 2 == 1 then a else 0, XTime(s), if c % 2 == 1 then b else 0, XTime(t));
      AddZero(0);
    }
  }

  lemma MulZero(a: Byte)
    ensures Mul(a, 0) == 0 && Mul(0, a) == 0
  {
  }

  lemma {:induction false} MulAddRight(a: Byte, b: Byte, c: Byte)
    ensures Mul(a, Add(b, c)) == Add(Mul(a, b), Mul(a, c))
    decreases b + c
  {
    hide Xor, XTime;
    if b == 0 || c == 0 {
      XorZero(b);
      XorZero(c);
      XorZero(Mul(a, b));
      XorZero(Mul(a, c));
    } else {
      MulAddRight(a, b / 2, c / 2);
      MulAddRightStep(a, b, c);
    }
  }

  lemma MulUnfold(a: Byte, b: Byte)
    ensures Mul(a, b) == Add(if b % 2 == 1 then a else 0, XTime(Mul(a, b / 2)))
  {
  }

  lemma MulAddRightStep(a: Byte, b: Byte, c: Byte)
    requires Mul(a, Add(b / 2, c / 2)) == Add(Mul(a, b / 2), Mul(a, c / 2))
    ensures Mul(a, Add(b, c)) == Add(Mul(a, b), Mul(a, c))
  {
    HalvesOfSum(b, c);
    hide Add, Mul, XTime;
    MulUnfold(a, b);
    MulUnfold(a, c);
    MulUnfold(a, Add(b, c));
    var s, t := Mul(a, b / 2), Mul(a, c / 2);
    XTimeAdd(s, t);
    var p, q := if b % 2 == 1 then a else 0, if c % 2 == 1 then a else 0;
    AddExchange(p, XTime(s), q, XTime(t));
    AddZero(a);
    AddZero(0);
    AddSelf(a);
  }

  lemma HalvesOfSum(b: Byte, c: Byte)
    ensures Add(b, c) % 2 == (b % 2 + c % 2) % 2
    ensures Add(b, c) / 2 == Add(b / 2, c / 2)
  {
    hide Xor;
    XorSplit(b, c);
  }

  lemma {:induction false} MulXTimeLeft(a: Byte, b: Byte)
    ensures Mul(XTime(a), b) == XTime(Mul(a, b))
    decreases b
  {
    hide Add, XTime;
    if b == 0 {
      XTimeZero();
    } else {
      MulXTimeLeft(a, b / 2);
      XTimeAdd(if b % 2 == 1 then a else 0, XTime(Mul(a, b / 2)));
      XTimeZero();
    }
  }

  lemma XTimeZero()
    ensures XTime(0) == 0
  {
  }

  lemma {:induction false} MulOne(a: Byte)
    ensures Mul(a, 1) == a && Mul(1, a) == a
    decreases a
  {
    hide Xor;
    XTimeZero();
    XorZero(a);
    if a >= 2 {
      MulOne(a / 2);
      assert a / 2 < 128;
      EvenPlusBit(a);
    }
  }

  lemma EvenPlusBit(a: Byte)
    ensures Add(a % 2, XTime(a / 2)) == a
  {
    hide Xor;
    var r := Xor(a % 2, 2 * (a / 2));
    XorSplit(a % 2, 2 * (a / 2));
    XorZero(a / 2);
  }

  lemma {:induction false} MulComm(a: Byte, b: Byte)
    ensures Mul(a, b) == Mul(b, a)
    decreases b
  {
    if b == 0 {
      MulZero(a);
    } else {
      MulComm(a, b / 2);
      MulCommStep(a, b);
    }
  }

  lemma MulCommStep(a: Byte, b: Byte)
    requires Mul(a, b / 2) == Mul(b / 2, a)
    ensures Mul(a, b) == Mul(b, a)
  {
    hide Add, Mul, XTime;
    MulUnfold(a, b);
    EvenPlusBit(b);
    MulAddLeft(b % 2, XTime(b / 2), a);
    MulXTimeLeft(b / 2, a);
    MulOne(a);
    MulZero(a);
    assert b % 2 == 0 || b % 2 == 1;
  }

  lemma {:induction false} MulAssoc(a: Byte, b: Byte, c: Byte)
    ensures Mul(Mul(a, b), c) == Mul(a, Mul(b, c))
    decreases c
  {
    hide Add, Mul, XTime;
    if c == 0 {
      MulZero(a);
      MulZero(b);
      MulZero(Mul(a, b));
    } else {
      var half := Mul(b, c / 2);
      MulAssoc(a, b, c / 2);
      MulUnfold(Mul(a, b), c);
      MulUnfold(b, c);
      MulAddRight(a, if c % 2 == 1 then b else 0, XTime(half));
      MulZero(a);
      MulComm(a, XTime(half));
      MulXTimeLeft(half, a);
      MulComm(half, a);
    }
  }

  // ---- powers of alpha: the multiplicative cycle has length exactly 255

  function AlphaPow(n: nat): Byte {
    if n == 0 then 1 else XTime(AlphaPow(n - 1))
  }

  lemma {:induction false} AlphaPowAdd(i: nat, j: nat)
    ensures AlphaPow(i + j) == Mul(AlphaPow(i), AlphaPow(j))
    decreases i
  {
    hide Add, Mul, XTime;
    if i == 0 {
      MulOne(AlphaPow(j));
    } else {
      AlphaPowAdd(i - 1, j);
      MulXTimeLeft(AlphaPow(i - 1), AlphaPow(j));
    }
  }

  // The same cycle over the eight bits of a byte, most significant first, in which a step
  // needs no exclusive-or.
  datatype Octet = Oct(b7: Bit, b6: Bit, b5: Bit, b4: Bit, b3: Bit, b2: Bit, b1: Bit, b0: Bit)

  function ValueOf(o: Octet): Byte {
    o.b0 + 2 * (o.b1 + 2 * (o.b2 + 2 * (o.b3 + 2 * (o.b4 + 2 * (o.b5 + 2 * (o.b6 + 2 * o.b7))))))
  }

  function OctetStep(o: Octet): Octet {
    if o.b7 == 0 then Oct(o.b6, o.b5, o.b4, o.b3, o.b2, o.b1, o.b0, 0)
    else
      Oct(if o.b6 == 0 then 1 else 0, o.b5, o.b4, o.b3, o.b2,
          if o.b1 == 0 then 1 else 0, if o.b0 == 0 then 1 else 0, 1)
  }

  function OctetFive(o: Octet): Octet {
    OctetStep(OctetStep(OctetStep(OctetStep(OctetStep(o)))))
  }

  lemma XorCons(b: Bit, y: nat, c: Bit, z: nat)
    ensures Xor(b + 2 * y, c + 2 * z) == (if c == 0 then b else 1 - b) + 2 * Xor(y, z)
  {
    hide Xor;
    XorSplit(b + 2 * y, c + 2 * z);
  }

  lemma XorWithPoly(b0: Bit, b1: Bit, b2: Bit, b3: Bit, b4: Bit, b5: Bit, b6: Bit)
    ensures Xor(2 * (b0 + 2 * (b1 + 2 * (b2 + 2 * (b3 + 2 * (b4 + 2 * (b5 + 2 * (b6 + 2))))))), GF_POLY)
         == 1 + 2 * (1 - b0 + 2 * (1 - b1 + 2 * (b2 + 2 * (b3 + 2 * (b4 + 2 * (b5 + 2 * (1 - b6)))))))
  {
    hide Xor;
    var h5 := b5 + 2 * (b6 + 2);
    var h3 := b3 + 2 * (b4 + 2 * h5);
    var h1 := b1 + 2 * (b2 + 2 * h3);
    XorSelf(1);
    XorCons(b6, 1, 1, 1);
    XorCons(b5, b6 + 2, 0, 3);
    XorCons(b4, h5, 0, 6);
    XorCons(b3, b4 + 2 * h5, 0, 0xc);
    XorCons(b2, h3, 0, 0x18);
    XorCons(b1, b2 + 2 * h3, 1, 0x30);
    XorCons(b0, h1, 1, 0x61);
    XorCons(0, b0 + 2 * h1, 1, 0xc3);
  }

  lemma OctetStepIsXTime(o: Octet)
    ensures ValueOf(OctetStep(o)) == XTime(ValueOf(o))
  {
    hide Xor;
    if o.b7 == 1 {
      XorWithPoly(o.b0, o.b1, o.b2, o.b3, o.b4, o.b5, o.b6);
    }
  }

  lemma AlphaStep(i: nat, o: Octet, p: Octet)
    requires AlphaPow(i) == ValueOf(o) && OctetStep(o) == p
    ensures AlphaPow(i + 1) == ValueOf(p)
  {
    hide ValueOf, OctetStep;
    OctetStepIsXTime(o);
  }

  lemma AlphaLeap(i: nat, o: Octet, p: Octet)
    requires AlphaPow(i) == ValueOf(o) && OctetFive(o) == p
    ensures AlphaPow(i + 5) == ValueOf(p)
  {
    hide ValueOf, OctetStep, AlphaPow;
    var o1 := OctetStep(o);
    var o2 := OctetStep(o1);
    var o3 := OctetStep(o2);
    var o4 := OctetStep(o3);
    AlphaStep(i, o, o1);
    AlphaStep(i + 1, o1, o2);
    AlphaStep(i + 2, o2, o3);
    AlphaStep(i + 3, o3, o4);
    AlphaStep(i + 4, o4, p);
  }

  lemma AlphaTo85()
    ensures AlphaPow(15) == 244 && AlphaPow(51) == 108 && AlphaPow(85) == 170
  {
    hide XTime;
    AlphaLeap(0, Oct(0, 0, 0, 0, 0, 0, 0, 1), Oct(0, 0, 1, 0, 0, 0, 0, 0));
    AlphaLeap(5, Oct(0, 0, 1, 0, 0, 0, 0, 0), Oct(1, 0, 0, 1, 0, 1, 0, 1));
    AlphaLeap(10, Oct(1, 0, 0, 1, 0, 1, 0, 1), Oct(1, 1, 1, 1, 0, 1, 0, 0));
    AlphaLeap(15, Oct(1, 1, 1, 1, 0, 1, 0, 0), Oct(1, 1, 1, 0, 1, 1, 0, 0));
    AlphaLeap(20, Oct(1, 1, 1, 0, 1, 1, 0, 0), Oct(1, 1, 1, 0, 0, 0, 1, 0));
    AlphaLeap(25, Oct(1, 1, 1, 0, 0, 0, 1, 0), Oct(1, 0, 1, 0, 0, 1, 0, 1));
    AlphaLeap(30, Oct(1, 0, 1, 0, 0, 1, 0, 1), Oct(1, 1, 1, 0, 1, 0, 0, 0));
    AlphaLeap(35, Oct(1, 1, 1, 0, 1, 0, 0, 0), Oct(0, 1, 1, 0, 0, 0, 1, 0));
    AlphaLeap(40, Oct(0, 1, 1, 0, 0, 0, 1, 0), Oct(0, 1, 1, 1, 1, 0, 0, 0));
    AlphaLeap(45, Oct(0, 1, 1, 1, 1, 0, 0, 0), Oct(0, 0, 1, 1, 0, 1, 1, 0));
    AlphaLeap(50, Oct(0, 0, 1, 1, 0, 1, 1, 0), Oct(1, 1, 0, 1, 1, 1, 0, 0));
    AlphaLeap(55, Oct(1, 1, 0, 1, 1, 1, 0, 0), Oct(1, 1, 1, 1, 1, 1, 1, 0));
    AlphaLeap(60, Oct(1, 1, 1, 1, 1, 1, 1, 0), Oct(0, 0, 1, 0, 1, 0, 1, 1));
    AlphaLeap(65, Oct(0, 0, 1, 0, 1, 0, 1, 1), Oct(0, 1, 1, 1, 0, 0, 1, 0));
    AlphaLeap(70, Oct(0, 1, 1, 1, 0, 0, 1, 0), Oct(1, 1, 1, 1, 0, 0, 0, 1));
    AlphaLeap(75, Oct(1, 1, 1, 1, 0, 0, 0, 1), Oct(0, 1, 0, 0, 1, 1, 0, 0));
    AlphaLeap(80, Oct(0, 1, 0, 0, 1, 1, 0, 0), Oct(1, 0, 1, 0, 1, 0, 1, 0));
    AlphaStep(50, Oct(0, 0, 1, 1, 0, 1, 1, 0), Oct(0, 1, 1, 0, 1, 1, 0, 0));
  }

  lemma AlphaTo170()
    ensures AlphaPow(170) == 171
  {
    hide XTime, AlphaPow;
    AlphaTo85();
    AlphaLeap(85, Oct(1, 0, 1, 0, 1, 0, 1, 0), Oct(1, 0, 0, 0, 1, 1, 1, 1));
    AlphaLeap(90, Oct(1, 0, 0, 0, 1, 1, 1, 1), Oct(1, 0, 1, 1, 1, 0, 1, 0));
    AlphaLeap(95, Oct(1, 0, 1, 1, 1, 0, 1, 0), Oct(0, 0, 0, 0, 0, 1, 1, 0));
    AlphaLeap(100, Oct(0, 0, 0, 0, 0, 1, 1, 0), Oct(1, 1, 0, 0, 0, 0, 0, 0));
    AlphaLeap(105, Oct(1, 1, 0, 0, 0, 0, 0, 0), Oct(0, 1, 1, 1, 0, 0, 0, 0));
    AlphaLeap(110, Oct(0, 1, 1, 1, 0, 0, 0, 0), Oct(1, 0, 1, 1, 0, 0, 0, 1));
    AlphaLeap(115, Oct(1, 0, 1, 1, 0, 0, 0, 1), Oct(1, 1, 1, 0, 0, 0, 0, 1));
    AlphaLeap(120, Oct(1, 1, 1, 0, 0, 0, 0, 1), Oct(1, 1, 0, 0, 0, 1, 0, 1));
    AlphaLeap(125, Oct(1, 1, 0, 0, 0, 1, 0, 1), Oct(1, 1, 0, 1, 0, 0, 0, 0));
    AlphaLeap(130, Oct(1, 1, 0, 1, 0, 0, 0, 0), Oct(1, 1, 1, 1, 1, 0, 0, 1));
    AlphaLeap(135, Oct(1, 1, 1, 1, 1, 0, 0, 1), Oct(1, 1, 0, 0, 1, 0, 1, 1));
    AlphaLeap(140, Oct(1, 1, 0, 0, 1, 0, 1, 1), Oct(1, 0, 0, 1, 0, 1, 1, 1));
    AlphaLeap(145, Oct(1, 0, 0, 1, 0, 1, 1, 1), Oct(1, 0, 1, 1, 0, 1, 0, 0));
    AlphaLeap(150, Oct(1, 0, 1, 1, 0, 1, 0, 0), Oct(0, 1, 0, 0, 0, 0, 0, 1));
    AlphaLeap(155, Oct(0, 1, 0, 0, 0, 0, 0, 1), Oct(1, 0, 0, 0, 1, 1, 0, 1));
    AlphaLeap(160, Oct(1, 0, 0, 0, 1, 1, 0, 1), Oct(1, 1, 1, 1, 1, 0, 1, 0));
    AlphaLeap(165, Oct(1, 1, 1, 1, 1, 0, 1, 0), Oct(1, 0, 1, 0, 1, 0, 1, 1));
  }

  lemma AlphaTo255()
    ensures AlphaPow(255) == 1
  {
    hide XTime, AlphaPow;
    AlphaTo170();
    AlphaLeap(170, Oct(1, 0, 1, 0, 1, 0, 1, 1), Oct(1, 0, 1, 0, 1, 1, 1, 1));
    AlphaLeap(175, Oct(1, 0, 1, 0, 1, 1, 1, 1), Oct(0, 0, 1, 0, 1, 1, 1, 1));
    AlphaLeap(180, Oct(0, 0, 1, 0, 1, 1, 1, 1), Oct(1, 1, 1, 1, 0, 0, 1, 0));
    AlphaLeap(185, Oct(1, 1, 1, 1, 0, 0, 1, 0), Oct(0, 0, 1, 0, 1, 1, 0, 0));
    AlphaLeap(190, Oct(0, 0, 1, 0, 1, 1, 0, 0), Oct(1, 0, 0, 1, 0, 0, 1, 0));
    AlphaLeap(195, Oct(1, 0, 0, 1, 0, 0, 1, 0), Oct(0, 0, 0, 1, 0, 1, 0, 0));
    AlphaLeap(200, Oct(0, 0, 0, 1, 0, 1, 0, 0), Oct(0, 0, 0, 0, 1, 0, 0, 1));
    AlphaLeap(205, Oct(0, 0, 0, 0, 1, 0, 0, 1), Oct(1, 0, 1, 0, 0, 1, 1, 1));
    AlphaLeap(210, Oct(1, 0, 1, 0, 0, 1, 1, 1), Oct(1, 0, 1, 0, 1, 0, 0, 0));
    AlphaLeap(215, Oct(1, 0, 1, 0, 1, 0, 0, 0), Oct(1, 1, 0, 0, 1, 1, 1, 1));
    AlphaLeap(220, Oct(1, 1, 0, 0, 1, 1, 1, 1), Oct(0, 0, 0, 1, 0, 1, 1, 1));
    AlphaLeap(225, Oct(0, 0, 0, 1, 0, 1, 1, 1), Oct(0, 1, 1, 0, 1, 0, 0, 1));
    AlphaLeap(230, Oct(0, 1, 1, 0, 1, 0, 0, 1), Oct(1, 0, 0, 1, 1, 1, 1, 1));
    AlphaLeap(235, Oct(1, 0, 0, 1, 1, 1, 1, 1), Oct(0, 0, 1, 1, 0, 0, 1, 1));
    AlphaLeap(240, Oct(0, 0, 1, 1, 0, 0, 1, 1), Oct(0, 1, 1, 1, 1, 1, 0, 0));
    AlphaLeap(245, Oct(0, 1, 1, 1, 1, 1, 0, 0), Oct(1, 0, 1, 1, 0, 1, 1, 0));
    AlphaLeap(250, Oct(1, 0, 1, 1, 0, 1, 1, 0), Oct(0, 0, 0, 0, 0, 0, 0, 1));
  }

  lemma {:induction false} AlphaPowOfOne(d: nat, k: nat)
    requires AlphaPow(d) == 1
    ensures AlphaPow(d * k) == 1
    decreases k
  {
    hide XTime, Mul;
    if k != 0 {
      AlphaPowOfOne(d, k - 1);
      assert d * k == d * (k - 1) + d;
      AlphaPowAdd(d * (k - 1), d);
      MulOne(1);
    }
  }

  lemma AlphaPeriod(i: nat, k: nat)
    ensures AlphaPow(i + 255 * k) == AlphaPow(i)
  {
    hide AlphaPow, Mul;
    AlphaTo255();
    AlphaPowOfOne(255, k);
    AlphaPowAdd(i, 255 * k);
    MulOne(AlphaPow(i));
  }

  // If alpha^d = 1 and d * u = p * s + 1, then alpha^m = 1 for m = 255 / p.
  lemma OrderPrime(d: nat, p: nat, m: nat, u: nat, s: nat)
    requires p * m == 255 && AlphaPow(d) == 1 && d * u == p * s + 1
    ensures AlphaPow(m) == 1
  {
    hide AlphaPow;
    AlphaPowOfOne(d, m * u);
    assert d * (m * u) == m + 255 * s by {
      assert d * (m * u) == m * (d * u);
      assert m * (p * s + 1) == (p * m) * s + m;
    }
    AlphaPeriod(m, s);
  }

  function InverseMod17(r: nat): (u: nat)
    requires 0 < r < 17
    ensures (r * u) % 17 == 1
  {
    if r == 1 then 1 else if r == 2 then 9 else if r == 3 then 6 else if r == 4 then 13
    else if r == 5 then 7 else if r == 6 then 3 else if r == 7 then 5 else if r == 8 then 15
    else if r == 9 then 2 else if r == 10 then 12 else if r == 11 then 14 else if r == 12 then 10
    else if r == 13 then 4 else if r == 14 then 11 else if r == 15 then 8 else 16
  }

  lemma Multiple(d: nat, p: nat, q: nat, r: nat, u: nat, t: nat)
    requires d == p * q + r && r * u == p * t + 1
    ensures d * u == p * (q * u + t) + 1
  {
  }

  lemma NotMultipleOf3(d: nat)
    requires d % 3 != 0
    ensures AlphaPow(d) != 1
  {
    hide AlphaPow;
    if AlphaPow(d) == 1 {
      var q, u := d / 3, d % 3;
      Multiple(d, 3, q, u, u, u - 1);
      OrderPrime(d, 3, 85, u, q * u + (u - 1));
      AlphaTo85();
    }
  }

  lemma NotMultipleOf5(d: nat)
    requires d % 5 != 0
    ensures AlphaPow(d) != 1
  {
    hide AlphaPow;
    if AlphaPow(d) == 1 {
      var q, r := d / 5, d % 5;
      var u := if r == 2 then 3 else if r == 3 then 2 else r;
      var t := if r == 1 then 0 else if r == 4 then 3 else 1;
      Multiple(d, 5, q, r, u, t);
      OrderPrime(d, 5, 51, u, q * u + t);
      AlphaTo85();
    }
  }

  lemma NotMultipleOf17(d: nat)
    requires d % 17 != 0
    ensures AlphaPow(d) != 1
  {
    hide AlphaPow, InverseMod17;
    if AlphaPow(d) == 1 {
      var q, r := d / 17, d % 17;
      var u := InverseMod17(r);
      var t := (r * u) / 17;
      Multiple(d, 17, q, r, u, t);
      OrderPrime(d, 17, 15, u, q * u + t);
      AlphaTo85();
    }
  }

  lemma AlphaOrder(d: nat)
    requires 0 < d < 255
    ensures AlphaPow(d) != 1
  {
    hide AlphaPow;
    if d % 3 != 0 {
      NotMultipleOf3(d);
    } else if d % 5 != 0 {
      NotMultipleOf5(d);
    } else {
      NotMultipleOf17(d);
    }
  }

  lemma AlphaInverse(i: nat)
    requires i <= 255
    ensures Mul(AlphaPow(i), AlphaPow(255 - i)) == 1
  {
    hide AlphaPow, Mul;
    AlphaTo255();
    AlphaPowAdd(i, 255 - i);
  }

  lemma AlphaInjective(i: nat, j: nat)
    requires i < j < 255
    ensures AlphaPow(i) != AlphaPow(j)
  {
    hide AlphaPow, Mul;
    if AlphaPow(i) == AlphaPow(j) {
      AlphaInverse(i);
      AlphaPowAdd(j, 255 - i);
      AlphaPeriod(j - i, 1);
      AlphaOrder(j - i);
    }
  }

  lemma AlphaNonzero(i: nat)
    ensures AlphaPow(i) != 0
  {
  }

  // ---- every non-zero byte is a power of alpha (255 distinct powers, 255 non-zero bytes)

  ghost function Powers(n: nat): set<int> {
    set i | 0 <= i < n :: AlphaPow(i) as int
  }

  lemma {:induction false} PowersCount(n: nat)
    requires n <= 255
    ensures |Powers(n)| == n
  {
    hide AlphaPow;
    if n != 0 {
      PowersCount(n - 1);
      var last := AlphaPow(n - 1) as int;
      assert last !in Powers(n - 1) by {
        forall i | 0 <= i < n - 1
          ensures AlphaPow(i) != AlphaPow(n - 1)
        {
          AlphaInjective(i, n - 1);
        }
      }
      assert Powers(n) == Powers(n - 1) + {last};
    }
  }

  ghost function Interval(lo: int, hi: int): (s: set<int>)
    requires lo <= hi
    ensures forall x :: x in s <==> lo <= x < hi
    ensures |s| == hi - lo
    decreases hi - lo
  {
    if lo == hi then {} else Interval(lo, hi - 1) + {hi - 1}
  }

  lemma SubsetOfSameSize<T>(a: set<T>, b: set<T>)
    requires a <= b && |a| == |b|
    ensures a == b
  {
    assert |b - a| == |b| - |a|;
    assert b == a + (b - a);
  }

  lemma LogExists(a: Byte)
    requires a != 0
    ensures exists i: nat :: i < 255 && AlphaPow(i) == a
  {
    hide AlphaPow;
    var nonzero := Interval(1, 256);
    PowersCount(255);
    assert Powers(255) <= nonzero by {
      forall i: nat | i < 255
        ensures AlphaPow(i) as int in nonzero
      {
        AlphaNonzero(i);
      }
    }
    SubsetOfSameSize(Powers(255), nonzero);
    assert a as int in Powers(255);
  }

  ghost function Log(a: Byte): (i: nat)
    requires a != 0
    ensures i < 255 && AlphaPow(i) == a
  {
    LogExists(a);
    var i: nat :| i < 255 && AlphaPow(i) == a;
    i
  }

  ghost function Inv(a: Byte): (r: Byte)
    requires a != 0
    ensures Mul(a, r) == 1 && Mul(r, a) == 1 && r != 0
  {
    AlphaInverse(Log(a));
    MulComm(a, AlphaPow(255 - Log(a)));
    AlphaNonzero(255 - Log(a));
    AlphaPow(255 - Log(a))
  }

  lemma MulNonzero(a: Byte, b: Byte)
    requires a != 0 && b != 0
    ensures Mul(a, b) != 0
  {
    hide Mul, Inv;
    MulAssoc(Inv(a), a, b);
    MulOne(b);
    MulZero(Inv(a));
  }
}

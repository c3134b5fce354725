// The fractional-rate PPM slicer (components/demod1090/demod1090.c): a 32.32 fixed-point phase
// picks one sample in each half of every bit. Positions are unbounded here; NoOverflow shows
// that the 64-bit accumulator holds them for every block of up to 2^31 samples.
module PpmSlicer {
  import opened Bits
  import opened Bytes

  const FP_ONE := 0x1_0000_0000
  const FP_HALF := 0x8000_0000
  const PREAMBLE_US := 8
  const LONG_BITS := 112
  const LONG_BYTES := 14
  const MIN_RATE_HZ := 2000000
  const HZ_PER_MHZ := 1000000

  // Samples per microsecond, in 32.32 fixed point.
  function SamplesPerUs(rateHz: nat): nat {
    rateHz * FP_ONE / HZ_PER_MHZ
  }

  function Half(sp: nat): nat {
    sp / 2
  }

  function Quarter(sp: nat): nat {
    Half(sp) / 2
  }

  // The phase at the start of bit b.
  function Phase(sp: nat, start: nat, b: nat): nat {
    start * FP_ONE + PREAMBLE_US * sp + b * sp
  }

  // The samples read for bit b, rounded to nearest.
  function FirstIndex(sp: nat, start: nat, b: nat): nat {
    (Phase(sp, start, b) + Quarter(sp) + FP_HALF) / FP_ONE
  }

  function SecondIndex(sp: nat, start: nat, b: nat): nat {
    (Phase(sp, start, b) + Half(sp) + Quarter(sp) + FP_HALF) / FP_ONE
  }

  // ---- the air

  // Sample k falls in half-bit j of the frame whose preamble starts at sample start: its time
  // (k - start) / rate is in [8 + j/2, 8 + (j+1)/2) microseconds.
  predicate InHalfBit(rateHz: nat, start: nat, j: nat, k: nat) {
    (16 + j) * rateHz <= 2 * HZ_PER_MHZ * (k - start) < (17 + j) * rateHz
  }

  // An ideal envelope: in each bit the half that carries the pulse is louder, whatever the
  // amplitude of the bit.
  ghost predicate Carries(m: seq<nat>, rateHz: nat, start: nat, bits: seq<bool>) {
    forall b: nat, k: nat, l: nat | b < |bits| && OfBit(|m|, rateHz, start, b, k, l) :: m[k] > m[l] <==> bits[b]
  }

  predicate OfBit(n: nat, rateHz: nat, start: nat, b: nat, k: nat, l: nat) {
    k < n && l < n && InHalfBit(rateHz, start, 2 * b, k) && InHalfBit(rateHz, start, 2 * b + 1, l)
  }

  // ---- the sampling instants

  lemma Scale(c: nat, sp: nat, rateHz: nat)
    requires HZ_PER_MHZ * sp <= rateHz * FP_ONE < HZ_PER_MHZ * (sp + 1)
    ensures HZ_PER_MHZ * (c * sp) <= FP_ONE * (c * rateHz) <= HZ_PER_MHZ * (c * sp) + HZ_PER_MHZ * c
  {
  }

  lemma Stretch(c: nat, x: int, y: int)
    requires x <= y
    ensures c * x <= c * y
  {
  }

  lemma IndexBounds(x: nat)
    ensures FP_ONE * (x / FP_ONE) <= x < FP_ONE * (x / FP_ONE) + FP_ONE
  {
  }

  // Above 2 Msps both samples of every bit of a frame lie in their own halves: truncating the
  // phase to 2^-32 samples never drifts out, over all 112 bits.
  lemma SamplesInTheirHalves(rateHz: nat, start: nat, b: nat)
    requires rateHz > MIN_RATE_HZ && b < LONG_BITS
    ensures InHalfBit(rateHz, start, 2 * b, FirstIndex(SamplesPerUs(rateHz), start, b))
    ensures InHalfBit(rateHz, start, 2 * b + 1, SecondIndex(SamplesPerUs(rateHz), start, b))
  {
    var sp := SamplesPerUs(rateHz);
    RateBounds(rateHz);
    Scale(PREAMBLE_US + b, sp, rateHz);
    FirstInHalf(rateHz, sp, start, b);
    SecondInHalf(rateHz, sp, start, b);
  }

  lemma RateBounds(rateHz: nat)
    ensures
      var sp := SamplesPerUs(rateHz);
      HZ_PER_MHZ * sp <= rateHz * FP_ONE < HZ_PER_MHZ * (sp + 1)
  {
  }

  lemma Factor(sp: nat, b: nat)
    ensures (PREAMBLE_US + b) * sp == PREAMBLE_US * sp + b * sp
  {
  }

  lemma Instant(rateHz: nat, start: nat, b: nat)
    ensures (PREAMBLE_US + b) * rateHz * 2 == (16 + 2 * b) * rateHz
    ensures (17 + 2 * b) * rateHz == (16 + 2 * b) * rateHz + rateHz
    ensures (18 + 2 * b) * rateHz == (16 + 2 * b) * rateHz + 2 * rateHz
  {
  }

  // t is the bit's start in samples times 10^6, p the phase accumulated for it.
  lemma FirstInHalf(rateHz: nat, sp: nat, start: nat, b: nat)
    requires rateHz > MIN_RATE_HZ && b < LONG_BITS
    requires HZ_PER_MHZ * sp <= rateHz * FP_ONE < HZ_PER_MHZ * (sp + 1)
    requires
      var p, t := (PREAMBLE_US + b) * sp, (PREAMBLE_US + b) * rateHz;
      HZ_PER_MHZ * p <= FP_ONE * t <= HZ_PER_MHZ * p + HZ_PER_MHZ * (PREAMBLE_US + b)
    ensures InHalfBit(rateHz, start, 2 * b, FirstIndex(sp, start, b))
  {
    var p, t := (PREAMBLE_US + b) * sp, (PREAMBLE_US + b) * rateHz;
    Factor(sp, b);
    Instant(rateHz, start, b);
    var k := FirstIndex(sp, start, b);
    IndexBounds(Phase(sp, start, b) + Quarter(sp) + FP_HALF);
    InWindow(rateHz, sp, p, t, b, Quarter(sp), k - start);
  }

  lemma InWindow(rateHz: nat, sp: nat, p: nat, t: nat, b: nat, q: nat, k: int)
    requires rateHz > MIN_RATE_HZ && b < LONG_BITS && 4 * q <= sp < 4 * q + 4
    requires HZ_PER_MHZ * sp <= rateHz * FP_ONE < HZ_PER_MHZ * (sp + 1)
    requires HZ_PER_MHZ * p <= FP_ONE * t <= HZ_PER_MHZ * p + HZ_PER_MHZ * (PREAMBLE_US + b)
    requires FP_ONE * k <= p + q + FP_HALF < FP_ONE * k + FP_ONE
    ensures 2 * t <= 2 * HZ_PER_MHZ * k < 2 * t + rateHz
  {
  }

  lemma SecondInHalf(rateHz: nat, sp: nat, start: nat, b: nat)
    requires rateHz > MIN_RATE_HZ && b < LONG_BITS
    requires HZ_PER_MHZ * sp <= rateHz * FP_ONE < HZ_PER_MHZ * (sp + 1)
    requires
      var p, t := (PREAMBLE_US + b) * sp, (PREAMBLE_US + b) * rateHz;
      HZ_PER_MHZ * p <= FP_ONE * t <= HZ_PER_MHZ * p + HZ_PER_MHZ * (PREAMBLE_US + b)
    ensures InHalfBit(rateHz, start, 2 * b + 1, SecondIndex(sp, start, b))
  {
    var p, t := (PREAMBLE_US + b) * sp, (PREAMBLE_US + b) * rateHz;
    Factor(sp, b);
    Instant(rateHz, start, b);
    var k := SecondIndex(sp, start, b);
    IndexBounds(Phase(sp, start, b) + Half(sp) + Quarter(sp) + FP_HALF);
    InSecondWindow(rateHz, sp, p, t, b, Half(sp) + Quarter(sp), k - start);
  }

  lemma InSecondWindow(rateHz: nat, sp: nat, p: nat, t: nat, b: nat, q: nat, k: int)
    requires rateHz > MIN_RATE_HZ && b < LONG_BITS && 4 * q <= 3 * sp < 4 * q + 8
    requires HZ_PER_MHZ * sp <= rateHz * FP_ONE < HZ_PER_MHZ * (sp + 1)
    requires HZ_PER_MHZ * p <= FP_ONE * t <= HZ_PER_MHZ * p + HZ_PER_MHZ * (PREAMBLE_US + b)
    requires FP_ONE * k <= p + q + FP_HALF < FP_ONE * k + FP_ONE
    ensures 2 * t + rateHz <= 2 * HZ_PER_MHZ * k < 2 * t + 2 * rateHz
  {
  }

  predicate Aligned(rateHz: nat, start: nat, b: nat) {
    && InHalfBit(rateHz, start, 2 * b, FirstIndex(SamplesPerUs(rateHz), start, b))
    && InHalfBit(rateHz, start, 2 * b + 1, SecondIndex(SamplesPerUs(rateHz), start, b))
  }

  // Initialisation also accepts exactly 2 Msps. There every sample lands one half-bit late: the
  // first on the second half, the second on the next bit.
  lemma TwoMspsIsLate(start: nat, b: nat)
    ensures InHalfBit(MIN_RATE_HZ, start, 2 * b + 1, FirstIndex(SamplesPerUs(MIN_RATE_HZ), start, b))
    ensures InHalfBit(MIN_RATE_HZ, start, 2 * b + 2, SecondIndex(SamplesPerUs(MIN_RATE_HZ), start, b))
  {
    assert SamplesPerUs(MIN_RATE_HZ) == 2 * FP_ONE;
    assert FirstIndex(2 * FP_ONE, start, b) == start + 17 + 2 * b;
    assert SecondIndex(2 * FP_ONE, start, b) == start + 18 + 2 * b;
  }

  // Among the rates initialisation accepts, the slicer is aligned at exactly those above 2 Msps.
  lemma RateCondition(rateHz: nat, start: nat)
    requires rateHz >= MIN_RATE_HZ
    ensures (forall b: nat :: b < LONG_BITS ==> Aligned(rateHz, start, b)) <==> rateHz > MIN_RATE_HZ
  {
    hide FirstIndex, SecondIndex, SamplesPerUs;
    if rateHz > MIN_RATE_HZ {
      forall b: nat | b < LONG_BITS
        ensures Aligned(rateHz, start, b)
      {
        SamplesInTheirHalves(rateHz, start, b);
      }
    } else {
      TwoMspsIsLate(start, 0);
      assert !Aligned(rateHz, start, 0);
    }
  }

  // No 64-bit or index overflow for blocks of up to 2^31 samples at any 32-bit rate.
  lemma NoOverflow(rateHz: nat, start: nat, b: nat)
    requires rateHz < 0x1_0000_0000 && start < 0x8000_0000 && b <= LONG_BITS
    ensures
      var sp := SamplesPerUs(rateHz);
      Phase(sp, start, b) + Half(sp) + Quarter(sp) + FP_HALF < 0x1_0000_0000_0000_0000
      && SecondIndex(sp, start, b) < 0x1_0000_0000
  {
    var sp := SamplesPerUs(rateHz);
    assert sp <= 4295 * FP_ONE;
    Stretch(sp, b, LONG_BITS);
    assert b * sp <= LONG_BITS * sp;
  }

  // ---- the slicer

  function FrameBit(data: seq<Byte>, b: nat): nat
    requires b < 8 * |data|
  {
    BitAt(data[b / 8], 7 - b % 8)
  }

  // byte | (1 << k)
  function WithBit(byte: nat, k: nat): nat {
    if BitAt(byte, k) == 1 then byte else byte + Pow2(k)
  }

  lemma {:induction false} WithBitSets(byte: nat, k: nat, j: nat)
    ensures BitAt(WithBit(byte, k), j) == if j == k then 1 else BitAt(byte, j)
    decreases k
  {
    if k == 0 {
      if j > 0 && byte % 2 == 0 {
        assert (byte + 1) / 2 == byte / 2;
      }
    } else {
      WithBitHalves(byte, k);
      if j > 0 {
        WithBitSets(byte / 2, k - 1, j - 1);
      }
    }
  }

  lemma WithBitHalves(byte: nat, k: nat)
    requires k > 0
    ensures WithBit(byte, k) % 2 == byte % 2 && WithBit(byte, k) / 2 == WithBit(byte / 2, k - 1)
  {
  }

  lemma {:induction false} WithBitBound(byte: nat, k: nat, width: nat)
    requires byte < Pow2(width) && k < width
    ensures WithBit(byte, k) < Pow2(width)
    decreases k
  {
    if k > 0 {
      WithBitHalves(byte, k);
      WithBitBound(byte / 2, k - 1, width - 1);
      HalfBelow(WithBit(byte, k), Pow2(width - 1));
    } else if BitAt(byte, 0) == 0 {
      EvenBelow(byte, Pow2(width - 1));
    }
  }

  lemma HalfBelow(x: nat, p: nat)
    requires x / 2 < p
    ensures x < 2 * p
  {
  }

  lemma EvenBelow(x: nat, p: nat)
    requires x % 2 == 0 && x < 2 * p
    ensures x + 1 < 2 * p
  {
  }

  function WithFrameBit(data: seq<Byte>, b: nat): (r: seq<Byte>)
    requires b < 8 * |data|
    ensures |r| == |data|
  {
    WithBitIsByte(data[b / 8], 7 - b % 8);
    data[b / 8 := WithBit(data[b / 8], 7 - b % 8)]
  }

  lemma WithBitIsByte(byte: Byte, k: nat)
    requires k < 8
    ensures WithBit(byte, k) < 256
  {
    hide WithBit;
    assert Pow2(8) == 256;
    WithBitBound(byte, k, 8);
  }

  lemma WithFrameBitSets(data: seq<Byte>, b: nat, c: nat)
    requires b < 8 * |data| && c < 8 * |data|
    ensures FrameBit(WithFrameBit(data, b), c) == if c == b then 1 else FrameBit(data, c)
  {
    hide WithBit;
    if c / 8 == b / 8 {
      WithBitSets(data[b / 8], 7 - b % 8, 7 - c % 8);
    }
  }

  // What slice_bits leaves in the frame: the first `done` decisions, zeros after them.
  ghost predicate Sliced(data: seq<Byte>, m: seq<nat>, sp: nat, start: nat, done: nat)
    requires |data| == LONG_BYTES
  {
    forall b: nat | b < LONG_BITS :: FrameBit(data, b) == if b < done && Louder(m, sp, start, b) then 1 else 0
  }

  predicate Louder(m: seq<nat>, sp: nat, start: nat, b: nat) {
    var k, l := FirstIndex(sp, start, b), SecondIndex(sp, start, b);
    k < |m| && l < |m| && m[k] > m[l]
  }

  lemma FirstBeforeSecond(sp: nat, start: nat, b: nat)
    ensures FirstIndex(sp, start, b) <= SecondIndex(sp, start, b)
  {
    DivMonotone(Phase(sp, start, b) + Quarter(sp) + FP_HALF, Phase(sp, start, b) + Half(sp) + Quarter(sp) + FP_HALF);
  }

  lemma DivMonotone(x: nat, y: nat)
    requires x <= y
    ensures x / FP_ONE <= y / FP_ONE
  {
  }

  lemma PhaseNext(sp: nat, start: nat, b: nat)
    ensures Phase(sp, start, b + 1) == Phase(sp, start, b) + sp
  {
  }

  // One decision: set bit b or leave its zero.
  lemma SlicedNext(data: seq<Byte>, m: seq<nat>, sp: nat, start: nat, b: nat)
    requires |data| == LONG_BYTES && b < LONG_BITS && Sliced(data, m, sp, start, b)
    ensures Sliced(if Louder(m, sp, start, b) then WithFrameBit(data, b) else data, m, sp, start, b + 1)
  {
    hide FrameBit, Louder, WithFrameBit;
    if Louder(m, sp, start, b) {
      forall c: nat | c < LONG_BITS
        ensures FrameBit(WithFrameBit(data, b), c) == if c < b + 1 && Louder(m, sp, start, c) then 1 else 0
      {
        WithFrameBitSets(data, b, c);
      }
    }
  }

  // Slice up to wantBits; stops early where a sample would fall outside the block.
  method SliceBits(sp: nat, m: seq<nat>, start: nat, wantBits: nat, out: array<Byte>) returns (bitsDone: nat)
    requires out.Length == LONG_BYTES && wantBits <= LONG_BITS
    modifies out
    ensures bitsDone <= wantBits
    ensures forall b: nat | b < bitsDone :: SecondIndex(sp, start, b) < |m|
    ensures bitsDone < wantBits ==> SecondIndex(sp, start, bitsDone) >= |m|
    ensures Sliced(out[..], m, sp, start, bitsDone)
  {
    hide Sliced, FirstIndex, SecondIndex;
    var pos := start * FP_ONE + PREAMBLE_US * sp;
    ClearFrame(out, m, sp, start);
    bitsDone := 0;
    for b := 0 to wantBits
      invariant bitsDone == b && pos == Phase(sp, start, b)
      invariant forall c: nat | c < b :: SecondIndex(sp, start, c) < |m|
      invariant Sliced(out[..], m, sp, start, b)
    {
      var first, second := (pos + sp / 2 / 2 + FP_HALF) / FP_ONE, (pos + sp / 2 + sp / 2 / 2 + FP_HALF) / FP_ONE;
      IndicesOf(sp, start, b);
      if second >= |m| {
        break;
      }
      FirstBeforeSecond(sp, start, b);
      SlicedNext(out[..], m, sp, start, b);
      if m[first] > m[second] {
        SetFrameBit(out, b);
      }
      PhaseNext(sp, start, b);
      pos := pos + sp;
      bitsDone := bitsDone + 1;
    }
  }

  lemma IndicesOf(sp: nat, start: nat, b: nat)
    ensures FirstIndex(sp, start, b) == (Phase(sp, start, b) + sp / 2 / 2 + FP_HALF) / FP_ONE
    ensures SecondIndex(sp, start, b) == (Phase(sp, start, b) + sp / 2 + sp / 2 / 2 + FP_HALF) / FP_ONE
  {
  }

  method ClearFrame(out: array<Byte>, ghost m: seq<nat>, ghost sp: nat, ghost start: nat)
    requires out.Length == LONG_BYTES
    modifies out
    ensures Sliced(out[..], m, sp, start, 0)
  {
    forall i | 0 <= i < out.Length {
      out[i] := 0;
    }
    ghost var data := out[..];
    forall b: nat | b < LONG_BITS
      ensures FrameBit(data, b) == 0
    {
      ZeroBit(7 - b % 8);
    }
  }

  lemma {:induction false} ZeroBit(k: nat)
    ensures BitAt(0, k) == 0
  {
    if k != 0 {
      ZeroBit(k - 1);
    }
  }

  method SetFrameBit(out: array<Byte>, b: nat)
    requires out.Length == LONG_BYTES && b < LONG_BITS
    modifies out
    ensures out[..] == WithFrameBit(old(out[..]), b)
  {
    hide WithBit;
    WithBitIsByte(out[b / 8], 7 - b % 8);
    out[b / 8] := WithBit(out[b / 8], 7 - b % 8);
  }

  // ---- demodulation inverts modulation

  // The block holds every sample of the frame's bits.
  predicate Fits(n: nat, rateHz: nat, start: nat, bits: nat) {
    (16 + 2 * bits) * rateHz <= 2 * HZ_PER_MHZ * (n - start)
  }

  lemma FittingSamples(n: nat, rateHz: nat, start: nat, bits: nat, b: nat)
    requires rateHz > MIN_RATE_HZ && b < bits <= LONG_BITS && Fits(n, rateHz, start, bits)
    ensures SecondIndex(SamplesPerUs(rateHz), start, b) < n
  {
    hide SecondIndex, SamplesPerUs, FirstIndex;
    SamplesInTheirHalves(rateHz, start, b);
    Stretch(rateHz, 18 + 2 * b, 16 + 2 * bits);
    assert (18 + 2 * b) * rateHz == rateHz * (18 + 2 * b);
    assert (16 + 2 * bits) * rateHz == rateHz * (16 + 2 * bits);
  }

  // For every rate above 2 Msps, every start and every bit string that fits in the block, the
  // slicer returns all the bits and exactly those sent, with zeros after them.
  method DemodulateFrame(rateHz: nat, m: seq<nat>, start: nat, out: array<Byte>, ghost bits: seq<bool>, wantBits: nat)
    returns (bitsDone: nat)
    requires rateHz > MIN_RATE_HZ && out.Length == LONG_BYTES
    requires wantBits == |bits| <= LONG_BITS && Fits(|m|, rateHz, start, |bits|)
    requires Carries(m, rateHz, start, bits)
    modifies out
    ensures bitsDone == |bits|
    ensures forall b: nat | b < LONG_BITS :: MessageBits(out[..])[b] == if b < |bits| && bits[b] then 1 else 0
  {
    hide SecondIndex, FirstIndex, SamplesPerUs, FrameBit, Carries;
    var sp := SamplesPerUs(rateHz);
    bitsDone := SliceBits(sp, m, start, wantBits, out);
    if bitsDone < wantBits {
      FittingSamples(|m|, rateHz, start, |bits|, bitsDone);
    }
    forall b: nat | b < |bits|
      ensures Louder(m, sp, start, b) == bits[b]
    {
      DecisionIsBit(m, rateHz, start, bits, b);
    }
    forall b: nat | b < LONG_BITS
      ensures MessageBits(out[..])[b] == FrameBit(out[..], b)
    {
      FrameBitIs(out[..], b);
    }
  }

  // The frame is a message sent most significant bit first.
  lemma {:induction false} FrameBitIs(data: seq<Byte>, b: nat)
    requires b < 8 * |data|
    ensures FrameBit(data, b) == MessageBits(data)[b]
    decreases |data|
  {
    hide BitAt;
    var n := |data| - 1;
    if b < 8 * n {
      FrameBitIs(data[..n], b);
    } else {
      ByteBit(data[n], 8, b - 8 * n);
    }
  }

  lemma {:induction false} ByteBit(v: nat, k: nat, i: nat)
    requires i < k
    ensures BitsOf(v, k)[i] == BitAt(v, k - 1 - i)
    decreases k
  {
    if i < k - 1 {
      ByteBit(v / 2, k - 1, i);
    }
  }

  lemma DecisionIsBit(m: seq<nat>, rateHz: nat, start: nat, bits: seq<bool>, b: nat)
    requires rateHz > MIN_RATE_HZ && b < |bits| <= LONG_BITS && Fits(|m|, rateHz, start, |bits|)
    requires Carries(m, rateHz, start, bits)
    ensures Louder(m, SamplesPerUs(rateHz), start, b) == bits[b]
  {
    hide SecondIndex, FirstIndex, SamplesPerUs, InHalfBit;
    var sp := SamplesPerUs(rateHz);
    FittingSamples(|m|, rateHz, start, |bits|, b);
    FirstBeforeSecond(sp, start, b);
    SamplesInTheirHalves(rateHz, start, b);
    assert OfBit(|m|, rateHz, start, b, FirstIndex(sp, start, b), SecondIndex(sp, start, b));
  }
}

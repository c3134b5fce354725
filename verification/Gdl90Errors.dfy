// What the bench's deframer makes of bytes no encoder sent (tools/bench/gdl90.py): which chunks
// hold a frame, when its CRC is accepted, and which errors the CRC finds.
module Gdl90Errors {
  import opened Bits
  import opened BitStrings
  import opened Bytes
  import opened Gdl90
  import opened Gdl90Crc
  import opened Gdl90Deframe

  // ---- un-stuffing any bytes

  // The body with the marked bytes escaped.
  function Spelled(body: seq<Byte>, marked: seq<bool>): seq<Byte>
    requires |marked| == |body|
  {
    if |body| == 0 then []
    else (if marked[0] then [GDL90_ESC, XorByte(body[0])] else [body[0]]) + Spelled(body[1..], marked[1..])
  }

  // Un-stuffing reads any escaping of a body, whichever bytes were escaped without need.
  lemma {:induction false} UnstuffSpelled(body: seq<Byte>, marked: seq<bool>)
    requires |marked| == |body| && forall i :: 0 <= i < |body| && !marked[i] ==> body[i] != GDL90_ESC
    ensures Unstuff(Spelled(body, marked)) == Ok(body)
  {
    hide Xor, Unstuff;
    if |body| == 0 {
      UnstuffNothing();
    } else {
      var rest := Spelled(body[1..], marked[1..]);
      UnstuffSpelled(body[1..], marked[1..]);
      if marked[0] {
        UnstuffEscape(XorByte(body[0]), rest);
        XorByteTwice(body[0]);
      } else {
        UnstuffPlain(body[0], rest);
      }
      assert [body[0]] + body[1..] == body;
    }
  }

  // The encoder escapes the flag and the escape, and nothing else.
  lemma {:induction false} StuffIsSpelled(data: seq<Byte>)
    ensures Stuff(data) == Spelled(data, seq(|data|, i requires 0 <= i < |data| => data[i] == 0x7E || data[i] == 0x7D))
  {
    hide Xor, Stuff;
    if |data| == 0 {
      StuffEmpty(data);
      assert data[..0] == data;
    } else {
      StuffFirst(data);
      StuffIsSpelled(data[1..]);
      var marked := seq(|data|, i requires 0 <= i < |data| => data[i] == 0x7E || data[i] == 0x7D);
      assert marked[1..] == seq(|data| - 1, i requires 0 <= i < |data| - 1 => data[1..][i] == 0x7E || data[1..][i] == 0x7D);
    }
  }

  lemma UnstuffNothing()
    ensures Unstuff([]) == Ok([])
  {
  }

  lemma XorByteTwice(b: Byte)
    ensures XorByte(XorByte(b)) == b
  {
    hide Xor;
    XorAssoc(b, GDL90_ESC_XOR, GDL90_ESC_XOR);
    XorSelf(GDL90_ESC_XOR);
    XorZero(b);
  }

  // Escape bytes at the end of the data.
  function TrailingEscapes(data: seq<Byte>): nat {
    if |data| > 0 && data[|data| - 1] == GDL90_ESC then TrailingEscapes(data[..|data| - 1]) + 1 else 0
  }

  // An escape is left dangling exactly when the data ends in an odd number of them.
  lemma {:induction false} DanglingExactly(data: seq<Byte>)
    ensures Unstuff(data).DanglingEscape? <==> TrailingEscapes(data) % 2 == 1
    decreases |data|
  {
    hide Unstuff, TrailingEscapes, Before;
    if |data| == 0 {
      NoTrailing();
      UnstuffNothing();
    } else if data[0] != GDL90_ESC {
      DanglingAfter([data[0]], data[1..]);
      UnstuffPlain(data[0], data[1..]);
      DanglingExactly(data[1..]);
      assert data == [data[0]] + data[1..];
      BeforeKeeps([data[0]], Unstuff(data[1..]));
    } else if |data| == 1 {
      LoneEscape(data);
    } else {
      DanglingAfter([data[0], data[1]], data[2..]);
      UnstuffEscape(data[1], data[2..]);
      DanglingExactly(data[2..]);
      assert data == [data[0], data[1]] + data[2..];
      BeforeKeeps([XorByte(data[1])], Unstuff(data[2..]));
    }
  }

  lemma NoTrailing()
    ensures TrailingEscapes([]) == 0
  {
  }

  lemma LoneEscape(data: seq<Byte>)
    requires |data| == 1 && data[0] == GDL90_ESC
    ensures Unstuff(data).DanglingEscape? && TrailingEscapes(data) == 1
  {
    assert data[..0] == [];
  }

  lemma BeforeKeeps(s: seq<Byte>, r: Result<seq<Byte>>)
    ensures Before(s, r).DanglingEscape? <==> r.DanglingEscape?
  {
  }

  // A byte that is read alone, or an escape with the byte after it, keeps the parity.
  lemma DanglingAfter(head: seq<Byte>, tail: seq<Byte>)
    requires |head| == (if head != [] && head[0] == GDL90_ESC then 2 else 1)
    ensures TrailingEscapes(head + tail) % 2 == TrailingEscapes(tail) % 2
  {
    TrailingAfter(head, tail);
    assert |head| == 2 ==> TrailingEscapes(head[..1]) == 1 by {
      assert |head| == 2 ==> head[..1][..0] == [];
    }
  }

  // Only a tail made of nothing but escapes is continued by what precedes it.
  lemma {:induction false} TrailingAfter(head: seq<Byte>, tail: seq<Byte>)
    ensures TrailingEscapes(tail) <= |tail|
    ensures TrailingEscapes(head + tail) == if TrailingEscapes(tail) == |tail| then TrailingEscapes(head) + |tail| else TrailingEscapes(tail)
    decreases |tail|
  {
    if |tail| == 0 {
      assert head + tail == head;
    } else {
      var n := |tail| - 1;
      TrailingAfter(head, tail[..n]);
      assert (head + tail)[..|head| + n] == head + tail[..n];
    }
  }

  // ---- which chunks hold a frame

  // A chunk between two flags is reported as one frame when it un-stuffs to at least an id the
  // bench knows and two bytes more, and not at all otherwise.
  lemma ChunkReported(chunk: seq<Byte>)
    requires NoFlag(chunk)
    ensures
      var frames := Deframe([GDL90_FLAG] + chunk + [GDL90_FLAG]);
      match Unstuff(chunk)
      case DanglingEscape => frames == []
      case Ok(body) =>
        if |body| >= 3 && (body[0] == 0x00 || body[0] == 0x0A || body[0] == 0x14) then
          |frames| == 1 && Reports(frames[0], body)
        else frames == []
  {
    hide Deframe, Unstuff, FrameOfBody, Reports, ReadChunk;
    DeframeChunk(chunk);
    match Unstuff(chunk)
    case DanglingEscape =>
      ReadNothing(chunk);
    case Ok(body) =>
      ReadBody(chunk, body);
      if |body| >= 3 {
        BodyReported(body);
      }
  }

  // The id, the payload and all of the body, the CRC accepted exactly when the last two bytes, low
  // byte first, are the remainder of the rest.
  predicate Reports(frame: Frame, body: seq<Byte>)
    requires |body| >= 3
  {
    var n := |body| - 2;
    && frame.msgId == body[0] && frame.payload == body[1..n] && frame.raw == body
    && (frame.crcOk <==> body[n] as int + 256 * (body[n + 1] as int) == Remainder(0, MessageBits(body[..n])))
  }

  lemma BodyReported(body: seq<Byte>)
    requires |body| >= 3
    ensures Reports(FrameOfBody(body), body)
  {
    hide Crc16, Remainder, MessageBits;
    CrcIsRemainder(body[..|body| - 2]);
  }

  lemma DeframeChunk(chunk: seq<Byte>)
    requires NoFlag(chunk)
    ensures Deframe([GDL90_FLAG] + chunk + [GDL90_FLAG]) == ReadChunk(chunk)
  {
    hide Deframe, ReadChunk;
    assert [GDL90_FLAG] + chunk + [GDL90_FLAG] == [] + [GDL90_FLAG] + (chunk + [GDL90_FLAG] + []);
    DeframeAtFlag([], chunk + [GDL90_FLAG] + []);
    DeframeAtFlag(chunk, []);
    DeframeNothing();
    DeframeFlagFree(chunk);
    NothingFirst(ReadChunk(chunk));
    NothingFirst(ReadChunk(chunk) + []);
  }

  lemma ReadNothing(chunk: seq<Byte>)
    requires Unstuff(chunk).DanglingEscape?
    ensures ReadChunk(chunk) == []
  {
  }

  lemma ReadBody(chunk: seq<Byte>, body: seq<Byte>)
    requires Unstuff(chunk) == Ok(body)
    ensures ReadChunk(chunk) == if |body| < 3 || !KnownId(body[0]) then [] else [FrameOfBody(body)]
  {
    hide FrameOfBody;
    if |chunk| == 0 {
      UnstuffNothing();
    }
  }

  // ---- errors

  // The divisor of the remainder: what is shorter than 17 bits is its own remainder, and x^16
  // leaves x^12 + x^5 + 1.
  lemma DivisorIs(v: nat)
    requires v < Pow2(16)
    ensures Remainder(0, BitsOf(v, 16)) == v
    ensures Remainder(0, PowerBits(16)) == 0x1021
  {
    hide Remainder, TableSteps, Xor, Pow2, TableStep, BitsOf;
    OwnRemainder(v);
    Pow2Monotone(15, 16);
    Doubles(15);
    PowerBitsOf(15);
    OwnRemainder(Pow2(15));
    RemainderConcat(0, PowerBits(15), [0]);
    RemainderOfZero(Pow2(15));
    TopStep();
  }

  // The bits of x^k.
  function PowerBits(k: nat): seq<Bit> {
    if k == 0 then [1] else PowerBits(k - 1) + [0]
  }

  lemma {:induction false} PowerBitsOf(k: nat)
    ensures PowerBits(k) == BitsOf(Pow2(k), k + 1)
  {
    if k != 0 {
      PowerBitsOf(k - 1);
    }
  }

  lemma OwnRemainder(v: nat)
    requires v < Pow2(16)
    ensures Remainder(0, BitsOf(v, 16)) == v
  {
    hide Remainder, TableSteps, Xor, Pow2, BitsOf;
    WordAppended(0, v, 16);
    StepsOfZero(16);
    XorComm(0, v);
    XorZero(v);
  }

  lemma RemainderOfZero(r: nat)
    ensures Remainder(r, [0]) == TableStep(r)
  {
    hide Xor, TableStep;
    assert [0][..0] == [];
    XorZero(TableStep(r));
  }

  lemma TopStep()
    ensures TableStep(Pow2(15)) == 0x1021
  {
    hide Xor, Low, Shr;
    Doubles(15);
    ShlIsDouble(Pow2(15));
    PowerTop(15);
    LowXor(Pow2(16), 0x1021, 16);
    LowOfPower(16);
    assert Pow2(13) == 0x2000;
    Pow2Monotone(13, 16);
    LowOfSmall(0x1021, 16);
    XorComm(0, 0x1021);
    XorZero(0x1021);
  }

  lemma {:induction false} PowerTop(k: nat)
    ensures BitAt(Pow2(k), k) == 1
  {
    if k != 0 {
      PowerTop(k - 1);
    }
  }

  lemma {:induction false} LowOfPower(k: nat)
    ensures Low(Pow2(k), k) == 0
  {
    if k != 0 {
      LowOfPower(k - 1);
    }
  }

  lemma StepInjective(s: nat)
    requires s < Pow2(16) && TableStep(s) == 0
    ensures s == 0
  {
    hide Xor, Low, Pow2, Shr, Shl;
    ShlIsDouble(s);
    if BitAt(s, 15) == 1 {
      LowParity(Xor(2 * s, CRC_POLY), 16);
      XorParity(s);
    } else {
      TopClear(s);
      SmallStep(s);
    }
  }

  lemma ShlIsDouble(s: nat)
    ensures Shl(s, 1) == 2 * s
  {
  }

  lemma LowParity(a: nat, k: nat)
    requires k > 0
    ensures Low(a, k) % 2 == a % 2
  {
  }

  lemma XorParity(s: nat)
    ensures Xor(2 * s, CRC_POLY) % 2 == 1
  {
    hide Xor;
    XorSplit(2 * s, CRC_POLY);
  }

  lemma TopClear(s: nat)
    requires s < Pow2(16) && BitAt(s, 15) == 0
    ensures s < Pow2(15)
  {
    hide Shr, Pow2;
    ShrIsQuotient(s, 15);
    Doubles(15);
    QuotientEven(s, Pow2(15), Shr(s, 15));
  }

  lemma StepBound(s: nat)
    ensures TableStep(s) < Pow2(16)
  {
    hide Xor, Pow2, Shl, BitAt;
    LowBound(Xor(Shl(s, 1), if BitAt(s, 15) == 1 then CRC_POLY else 0), 16);
  }

  lemma {:induction false} StepsInjective(s: nat, k: nat)
    requires s < Pow2(16) && TableSteps(s, k) == 0
    ensures s == 0
  {
    hide TableStep, Pow2;
    if k != 0 {
      StepsBound(s, k - 1);
      StepInjective(TableSteps(s, k - 1));
      StepsInjective(s, k - 1);
    }
  }

  lemma {:induction false} StepsBound(s: nat, k: nat)
    requires s < Pow2(16)
    ensures TableSteps(s, k) < Pow2(16)
  {
    hide TableStep, Pow2;
    if k != 0 {
      StepBound(TableSteps(s, k - 1));
    }
  }

  lemma {:induction false} RemainderLinear(s: nat, t: nat, p: seq<Bit>, q: seq<Bit>)
    requires |p| == |q|
    ensures Remainder(Xor(s, t), XorBits(p, q)) == Xor(Remainder(s, p), Remainder(t, q))
    decreases |p|
  {
    hide Xor, TableStep;
    if |p| != 0 {
      var n := |p| - 1;
      var u, v := Remainder(s, p[..n]), Remainder(t, q[..n]);
      RemainderLinear(s, t, p[..n], q[..n]);
      assert XorBits(p, q)[..n] == XorBits(p[..n], q[..n]);
      TableStepLinear(u, v);
      BitXor(p[n], q[n]);
      XorExchange(TableStep(u), p[n], TableStep(v), q[n]);
    }
  }

  lemma {:induction false} RemainderZeros(s: nat, zeros: seq<Bit>)
    requires AllClear(zeros)
    ensures Remainder(s, zeros) == TableSteps(s, |zeros|)
    decreases |zeros|
  {
    hide Xor, TableStep;
    if |zeros| != 0 {
      RemainderZeros(s, zeros[..|zeros| - 1]);
      XorZero(TableStep(TableSteps(s, |zeros| - 1)));
    }
  }

  lemma {:induction false} StepsOfZero(k: nat)
    ensures TableSteps(0, k) == 0
  {
    hide TableStep;
    if k != 0 {
      StepsOfZero(k - 1);
      assert 0 < Pow2(15);
      SmallStep(0);
    }
  }

  // A non-zero burst of at most 16 bits, anywhere, leaves a non-zero remainder.
  lemma BurstRemainder(before: seq<Bit>, burst: seq<Bit>, after: seq<Bit>)
    requires AllClear(before) && AllClear(after) && |burst| <= 16 && !AllClear(burst)
    ensures Remainder(0, before + burst + after) != 0
  {
    hide Xor, Remainder, TableSteps, Pow2, BitsOf;
    var v := ValueOf(burst);
    RemainderConcat(0, before + burst, after);
    RemainderConcat(0, before, burst);
    RemainderZeros(0, before);
    StepsOfZero(|before|);
    BitsOfValue(burst);
    WordAppended(0, v, |burst|);
    StepsOfZero(|burst|);
    XorComm(0, v);
    XorZero(v);
    RemainderZeros(v, after);
    Pow2Monotone(|burst|, 16);
    if TableSteps(v, |after|) == 0 {
      StepsInjective(v, |after|);
    }
  }

  // The bits of p and q agree outside a window of len bits.
  predicate BurstApart(p: seq<Byte>, q: seq<Byte>, start: nat, len: nat) {
    && |p| == |q| && start + len <= 8 * |p|
    && forall i :: 0 <= i < 8 * |p| && !(start <= i < start + len) ==> MessageBits(p)[i] == MessageBits(q)[i]
  }

  lemma CrcTellsApart(p: seq<Byte>, q: seq<Byte>, start: nat, len: nat)
    requires BurstApart(p, q, start, len) && len <= 16 && p != q
    ensures Crc16(p) != Crc16(q)
  {
    hide Xor, Remainder, MessageBits, Crc16;
    var a, b := MessageBits(p), MessageBits(q);
    var e := XorBits(a, b);
    CrcIsRemainder(p);
    CrcIsRemainder(q);
    RemainderLinear(0, 0, a, b);
    XorSelf(0);
    if a == b {
      MessageBitsInjective(p, q);
    }
    BurstInWindow(e, start, len);
    if Crc16(p) == Crc16(q) {
      XorSelf(Crc16(p));
    }
  }

  lemma BurstInWindow(e: seq<Bit>, start: nat, len: nat)
    requires len <= 16 && start + len <= |e| && !AllClear(e)
    requires forall i :: 0 <= i < |e| && !(start <= i < start + len) ==> e[i] == 0
    ensures Remainder(0, e) != 0
  {
    hide Remainder, AllClear;
    SplitWindow(e, start, len);
    ClearOutside(e, start, len);
    BurstRemainder(e[..start], e[start..start + len], e[start + len..]);
  }

  // What arrives when the un-stuffed id and payload of a frame have changed to `received`.
  function Altered(msg: seq<Byte>, received: seq<Byte>): seq<Byte> {
    [GDL90_FLAG] + Stuff(received + [CrcLow(msg), CrcHigh(msg)]) + [GDL90_FLAG]
  }

  // A firmware frame whose id and payload changed in a burst of at most 16 bits is still reported
  // under a known id, as one frame whose CRC fails.
  lemma BurstFlagged(msg: seq<Byte>, received: seq<Byte>, start: nat, len: nat)
    requires Sendable(msg) && BurstApart(msg, received, start, len) && len <= 16 && received != msg
    requires received[0] == 0x00 || received[0] == 0x0A || received[0] == 0x14
    ensures
      var frames := Deframe(Altered(msg, received));
      |frames| == 1 && !frames[0].crcOk && frames[0].msgId == received[0] && frames[0].payload == received[1..]
  {
    hide Deframe, Crc16, MessageBits, Stuff, CrcLow, CrcHigh, BurstApart;
    SameLength(msg, received, start, len);
    WholeFrame(received, CrcLow(msg), CrcHigh(msg));
    CrcTellsApart(msg, received, start, len);
    CrcBytes(msg);
  }

  lemma SameLength(p: seq<Byte>, q: seq<Byte>, start: nat, len: nat)
    requires BurstApart(p, q, start, len)
    ensures |p| == |q|
  {
  }

  lemma WholeFrame(received: seq<Byte>, low: Byte, high: Byte)
    requires |received| > 0 && KnownId(received[0])
    ensures
      var body := received + [low, high];
      Deframe([GDL90_FLAG] + Stuff(body) + [GDL90_FLAG])
        == [Frame(received[0], received[1..], Crc16(received) == low as int + 256 * (high as int), body)]
  {
    hide Deframe, Unstuff, Crc16, Stuff;
    var body := received + [low, high];
    StuffedHasNoFlag(body);
    StuffRoundTrip(body);
    DeframeChunk(Stuff(body));
    ReadBody(Stuff(body), body);
    assert body[..|body| - 2] == received && body[1..|body| - 2] == received[1..];
  }

  // A frame whose last message byte and CRC low byte arrive with the same change.
  function Straddled(msg: seq<Byte>, v: Byte): (received: seq<Byte>)
    requires |msg| > 0
    ensures |received| == |msg|
  {
    msg[..|msg| - 1] + [XorBytes(msg[|msg| - 1], v)]
  }

  // A burst that straddles the message and the CRC can pass: the last byte enters the CRC
  // unmultiplied, so the same change of both goes unnoticed, a 9-bit burst when it is of one bit.
  lemma StraddlingBurstPasses(msg: seq<Byte>, v: Byte)
    requires Sendable(msg) && |msg| >= 2
    ensures
      var frames := Deframe([GDL90_FLAG] + Stuff(Straddled(msg, v) + [XorBytes(CrcLow(msg), v), CrcHigh(msg)]) + [GDL90_FLAG]);
      |frames| == 1 && frames[0].crcOk && frames[0].payload == Straddled(msg, v)[1..]
  {
    hide Deframe, Crc16, Stuff, CrcLow, CrcHigh, XorBytes;
    WholeFrame(Straddled(msg, v), XorBytes(CrcLow(msg), v), CrcHigh(msg));
    LastByteChange(msg, v);
    CrcBytes(Straddled(msg, v));
  }

  function XorBytes(a: Byte, b: Byte): Byte {
    XorFitsByte(a, b);
    Xor(a, b)
  }

  lemma XorFitsByte(a: Byte, b: Byte)
    ensures Xor(a, b) < 256
  {
    hide Xor;
    ByteBound(a);
    ByteBound(b);
    assert Pow2(8) == 256;
    XorBound(a, b, 8);
  }

  lemma LastByteChange(msg: seq<Byte>, v: Byte)
    requires |msg| > 0
    ensures CrcLow(Straddled(msg, v)) == XorBytes(CrcLow(msg), v) && CrcHigh(Straddled(msg, v)) == CrcHigh(msg)
  {
    hide Xor, Low, Shr, Fold, Crc16;
    var n := |msg| - 1;
    assert Straddled(msg, v)[..n] == msg[..n];
    CrcOfLast(msg);
    CrcOfLast(Straddled(msg, v));
    FoldChange(Crc16(msg[..n]), msg[n], v);
    LowXor(Crc16(msg), v, 8);
    XorShr(Crc16(msg), v, 8);
    ByteBound(v);
    LowOfSmall(v, 8);
    ShrOfSmall(v, 8);
    XorZero(Shr(Crc16(msg), 8));
  }

  lemma CrcOfLast(msg: seq<Byte>)
    requires |msg| > 0
    ensures Crc16(msg) == Fold(Crc16(msg[..|msg| - 1]), msg[|msg| - 1])
  {
  }

  lemma FoldChange(crc: nat, b: Byte, v: Byte)
    ensures Fold(crc, XorBytes(b, v)) == Xor(Fold(crc, b), v)
  {
    hide Xor, Low, Shl, TableEntry, HighByte;
    var x := Xor(TableEntry(HighByte(crc)), Shl(crc, 8));
    XorAssoc(x, b, v);
    LowXor(Xor(x, b), v, 16);
    ByteFits(v);
  }
}

// The bench's view of the byte link (tools/bench/gdl90.py): un-stuffing, and deframing a stream
// that may hold partial frames and noise between its flags.
module Gdl90Deframe {
  import opened Bits
  import opened Bytes
  import opened Gdl90

  datatype Result<T> = Ok(value: T) | DanglingEscape

  datatype Frame = Frame(msgId: Byte, payload: seq<Byte>, crcOk: bool, raw: seq<Byte>)

  predicate KnownId(id: Byte) {
    id == 0x00 || id == 0x0A || id == 0x14
  }

  // ---- un-stuffing

  function XorByte(b: Byte): Byte {
    XorFits(b);
    Xor(b, GDL90_ESC_XOR)
  }

  lemma XorFits(b: Byte)
    ensures Xor(b, GDL90_ESC_XOR) < 256
  {
    hide Xor;
    assert Pow2(8) == 256;
    XorBound(b, 0x20, 8);
  }

  function Unstuff(data: seq<Byte>): Result<seq<Byte>> {
    if |data| == 0 then Ok([])
    else if data[0] != GDL90_ESC then Before([data[0]], Unstuff(data[1..]))
    else if |data| == 1 then DanglingEscape
    else Before([XorByte(data[1])], Unstuff(data[2..]))
  }

  function Before(s: seq<Byte>, r: Result<seq<Byte>>): Result<seq<Byte>> {
    match r
    case Ok(rest) => Ok(s + rest)
    case DanglingEscape => DanglingEscape
  }

  lemma BeforeBefore(s: seq<Byte>, t: seq<Byte>, r: Result<seq<Byte>>)
    ensures Before(s, Before(t, r)) == Before(s + t, r)
  {
    if r.Ok? {
      assert s + (t + r.value) == s + t + r.value;
    }
  }

  lemma UnstuffPlain(b: Byte, rest: seq<Byte>)
    requires b != GDL90_ESC
    ensures Unstuff([b] + rest) == Before([b], Unstuff(rest))
  {
  }

  lemma UnstuffEscape(b: Byte, rest: seq<Byte>)
    ensures Unstuff([GDL90_ESC, b] + rest) == Before([XorByte(b)], Unstuff(rest))
  {
  }

  lemma UnstuffStuffByte(b: Byte, rest: seq<Byte>)
    ensures Unstuff(StuffByte(b) + rest) == Before([b], Unstuff(rest))
  {
    hide Xor, Unstuff;
    EscapedBytes();
    if b == GDL90_FLAG {
      UnstuffEscape(0x5E, rest);
    } else if b == GDL90_ESC {
      UnstuffEscape(0x5D, rest);
    } else {
      UnstuffPlain(b, rest);
    }
  }

  lemma StuffFirst(data: seq<Byte>)
    requires |data| > 0
    ensures Stuff(data) == StuffByte(data[0]) + Stuff(data[1..])
  {
    hide Stuff, StuffByte;
    assert data == data[..1] + data[1..];
    StuffConcat(data[..1], data[1..]);
    StuffEmpty(data);
    StuffNext(data, 0);
    NothingFirst(StuffByte(data[0]));
  }

  lemma NothingFirst<T>(s: seq<T>)
    ensures [] + s == s && s + [] == s
  {
  }

  // Un-stuffing undoes stuffing.
  lemma {:induction false} StuffRoundTrip(data: seq<Byte>)
    ensures Unstuff(Stuff(data)) == Ok(data)
  {
    hide StuffByte;
    if |data| != 0 {
      StuffFirst(data);
      StuffRoundTrip(data[1..]);
      UnstuffStuffByte(data[0], Stuff(data[1..]));
      assert [data[0]] + data[1..] == data;
    }
  }

  method ByteStuff(data: seq<Byte>) returns (out: seq<Byte>)
    ensures out == Stuff(data)
  {
    hide Xor;
    out := [];
    EscapedBytes();
    for i := 0 to |data|
      invariant out == Stuff(data[..i])
    {
      StuffNext(data, i);
      if data[i] == GDL90_FLAG || data[i] == GDL90_ESC {
        out := out + [GDL90_ESC] + [Xor(data[i], GDL90_ESC_XOR)];
      } else {
        out := out + [data[i]];
      }
    }
    assert data[..|data|] == data;
  }

  method ByteUnstuff(data: seq<Byte>) returns (r: Result<seq<Byte>>)
    ensures r == Unstuff(data)
  {
    hide Xor;
    var out: seq<Byte> := [];
    var i := 0;
    assert data[0..] == data;
    BeforeNothing(Unstuff(data));
    while i < |data|
      invariant i <= |data| && Unstuff(data) == Before(out, Unstuff(data[i..]))
    {
      if data[i] == GDL90_ESC {
        if i + 1 >= |data| {
          return DanglingEscape;
        }
        assert data[i..][2..] == data[i + 2..];
        BeforeBefore(out, [XorByte(data[i + 1])], Unstuff(data[i + 2..]));
        out := out + [XorByte(data[i + 1])];
        i := i + 2;
      } else {
        assert data[i..][1..] == data[i + 1..];
        BeforeBefore(out, [data[i]], Unstuff(data[i + 1..]));
        out := out + [data[i]];
        i := i + 1;
      }
    }
    assert data[i..] == [];
    NothingFirst(out);
    return Ok(out);
  }

  lemma BeforeNothing(r: Result<seq<Byte>>)
    ensures Before([], r) == r
  {
    if r.Ok? {
      assert [] + r.value == r.value;
    }
  }

  // ---- splitting a stream on its flags

  function Split(stream: seq<Byte>): (chunks: seq<seq<Byte>>)
    ensures |chunks| >= 1
  {
    if |stream| == 0 then [[]]
    else
      var rest := Split(stream[1..]);
      if stream[0] == GDL90_FLAG then [[]] + rest else [[stream[0]] + rest[0]] + rest[1..]
  }

  function Join(chunks: seq<seq<Byte>>): seq<Byte>
    requires |chunks| >= 1
  {
    if |chunks| == 1 then chunks[0] else chunks[0] + [GDL90_FLAG] + Join(chunks[1..])
  }

  // What splitting means: the chunks joined by flags are the stream, and no chunk holds a flag.
  lemma {:induction false} SplitIsJoinInverse(stream: seq<Byte>)
    ensures Join(Split(stream)) == stream
  {
    hide Join;
    if |stream| == 0 {
      JoinOne([]);
    } else {
      SplitIsJoinInverse(stream[1..]);
      HeadTail(stream);
      if stream[0] == GDL90_FLAG {
        JoinMore([], Split(stream[1..]));
      } else {
        JoinFirst(stream[0], Split(stream[1..]));
      }
    }
  }

  lemma HeadTail<T>(s: seq<T>)
    requires |s| > 0
    ensures s == [s[0]] + s[1..]
    ensures [] + [s[0]] + s[1..] == s
  {
  }

  lemma {:induction false} ChunksHaveNoFlag(stream: seq<Byte>, i: nat)
    requires i < |Split(stream)|
    ensures NoFlag(Split(stream)[i])
  {
    if |stream| != 0 {
      var rest := Split(stream[1..]);
      if stream[0] != GDL90_FLAG {
        ChunksHaveNoFlag(stream[1..], i);
      } else if i > 0 {
        ChunksHaveNoFlag(stream[1..], i - 1);
      }
    }
  }

  lemma JoinFirst(b: Byte, chunks: seq<seq<Byte>>)
    requires |chunks| >= 1
    ensures Join([[b] + chunks[0]] + chunks[1..]) == [b] + Join(chunks)
  {
    hide Join;
    if |chunks| == 1 {
      JoinOne(chunks[0]);
      JoinOne([b] + chunks[0]);
      assert chunks == [chunks[0]];
      NothingFirst([[b] + chunks[0]]);
    } else {
      JoinMore(chunks[0], chunks[1..]);
      JoinMore([b] + chunks[0], chunks[1..]);
      assert chunks == [chunks[0]] + chunks[1..];
      Regroup([b], chunks[0], [GDL90_FLAG], Join(chunks[1..]));
    }
  }

  lemma JoinOne(c: seq<Byte>)
    ensures Join([c]) == c
  {
  }

  lemma JoinMore(c: seq<Byte>, chunks: seq<seq<Byte>>)
    requires |chunks| >= 1
    ensures Join([c] + chunks) == c + [GDL90_FLAG] + Join(chunks)
  {
  }

  lemma Regroup<T>(a: seq<T>, b: seq<T>, c: seq<T>, d: seq<T>)
    ensures a + b + c + d == a + (b + c + d)
  {
  }

  lemma {:induction false} SplitAtFlag(a: seq<Byte>, b: seq<Byte>)
    ensures Split(a + [GDL90_FLAG] + b) == Split(a) + Split(b)
    decreases |a|
  {
    hide Split;
    SplitStep(a + [GDL90_FLAG] + b);
    if |a| == 0 {
      SplitNothing(a);
      assert (a + [GDL90_FLAG] + b)[1..] == b;
    } else {
      SplitAtFlag(a[1..], b);
      SplitStep(a);
      TailOfJoin(a, [GDL90_FLAG], b);
      Grow(a[0], Split(a[1..]), Split(b));
    }
  }

  lemma SplitStep(stream: seq<Byte>)
    requires |stream| > 0
    ensures Split(stream) == if stream[0] == GDL90_FLAG then [[]] + Split(stream[1..])
                             else Grown(stream[0], Split(stream[1..]))
  {
  }

  lemma SplitNothing(stream: seq<Byte>)
    requires |stream| == 0
    ensures Split(stream) == [[]]
  {
  }

  // A byte added at the front of the first chunk.
  function Grown(b: Byte, chunks: seq<seq<Byte>>): seq<seq<Byte>>
    requires |chunks| >= 1
  {
    [[b] + chunks[0]] + chunks[1..]
  }

  lemma Grow(b: Byte, p: seq<seq<Byte>>, q: seq<seq<Byte>>)
    requires |p| >= 1
    ensures Grown(b, p + q) == Grown(b, p) + q
    ensures [[]] + (p + q) == [[]] + p + q
  {
  }

  lemma TailOfJoin<T>(a: seq<T>, b: seq<T>, c: seq<T>)
    requires |a| > 0
    ensures (a + b + c)[1..] == a[1..] + b + c && (a + b + c)[0] == a[0]
  {
  }

  lemma {:induction false} SplitFlagFree(a: seq<Byte>)
    requires NoFlag(a)
    ensures Split(a) == [a]
  {
    if |a| != 0 {
      SplitFlagFree(a[1..]);
      assert a == [a[0]] + a[1..];
    }
  }

  // ---- deframing

  // The frame a chunk holds, if any: too short, badly escaped or unknown chunks are skipped.
  function ReadChunk(chunk: seq<Byte>): (frames: seq<Frame>)
    ensures |frames| <= 1
  {
    if |chunk| == 0 then []
    else
      match Unstuff(chunk)
      case DanglingEscape => []
      case Ok(body) =>
        if |body| < 3 || !KnownId(body[0]) then [] else [FrameOfBody(body)]
  }

  function FrameOfBody(body: seq<Byte>): Frame
    requires |body| >= 3
  {
    var n := |body|;
    Frame(body[0], body[1..n - 2], Crc16(body[..n - 2]) == body[n - 2] as int + 256 * (body[n - 1] as int), body)
  }

  function FramesIn(chunks: seq<seq<Byte>>): seq<Frame> {
    if |chunks| == 0 then [] else FramesIn(chunks[..|chunks| - 1]) + ReadChunk(chunks[|chunks| - 1])
  }

  function Deframe(stream: seq<Byte>): seq<Frame> {
    FramesIn(Split(stream))
  }

  lemma {:induction false} FramesInConcat(p: seq<seq<Byte>>, q: seq<seq<Byte>>)
    ensures FramesIn(p + q) == FramesIn(p) + FramesIn(q)
    decreases |q|
  {
    hide ReadChunk;
    if |q| == 0 {
      assert p + q == p;
    } else {
      assert (p + q)[..|p| + |q| - 1] == p + q[..|q| - 1];
      FramesInConcat(p, q[..|q| - 1]);
    }
  }

  // Resynchronisation: a flag cuts the stream into two halves that never affect each other.
  lemma DeframeAtFlag(a: seq<Byte>, b: seq<Byte>)
    ensures Deframe(a + [GDL90_FLAG] + b) == Deframe(a) + Deframe(b)
  {
    hide FramesIn, Split;
    SplitAtFlag(a, b);
    FramesInConcat(Split(a), Split(b));
  }

  lemma DeframeFlagFree(a: seq<Byte>)
    requires NoFlag(a)
    ensures Deframe(a) == ReadChunk(a)
  {
    hide ReadChunk;
    SplitFlagFree(a);
    assert [a][..0] == [];
  }

  method DeframeStream(stream: seq<Byte>) returns (frames: seq<Frame>)
    ensures frames == Deframe(stream)
  {
    hide Unstuff, Crc16, Split;
    frames := [];
    var chunks := Split(stream);
    for i := 0 to |chunks|
      invariant frames == FramesIn(chunks[..i])
    {
      FramesNext(chunks, i);
      var chunk := chunks[i];
      if |chunk| == 0 {
        continue;
      }
      var unstuffed := ByteUnstuff(chunk);
      if unstuffed.DanglingEscape? {
        continue;
      }
      var body := unstuffed.value;
      if |body| < 3 {
        continue;
      }
      var msgId := body[0];
      if !KnownId(msgId) {
        continue;
      }
      var crcPayload := body[..|body| - 2];
      var crcRx := body[|body| - 2] as int + 256 * (body[|body| - 1] as int);
      var crc := BenchCrc16(crcPayload);
      frames := frames + [Frame(msgId, body[1..|body| - 2], crc == crcRx, body)];
    }
    assert chunks[..|chunks|] == chunks;
  }

  lemma FramesNext(chunks: seq<seq<Byte>>, i: nat)
    requires i < |chunks|
    ensures FramesIn(chunks[..i + 1]) == FramesIn(chunks[..i]) + ReadChunk(chunks[i])
  {
    hide ReadChunk;
    assert chunks[..i + 1][..i] == chunks[..i];
  }

  // The bench's own CRC masks at every step; it is the firmware's CRC.
  method BenchCrc16(payload: seq<Byte>) returns (crc: nat)
    ensures crc == Crc16(payload)
  {
    hide Xor, Low, Shl, Shr, TableEntry, Crc16;
    crc := 0;
    Crc16Empty();
    assert payload[..0] == [];
    for i := 0 to |payload|
      invariant crc == Crc16(payload[..i])
    {
      Crc16Next(payload, i);
      BenchStep(crc, payload[i]);
      crc := Low(Xor(Xor(TableEntry(HighByte(crc)), Low(Shl(crc, 8), 16)), payload[i]), 16);
    }
    assert payload[..|payload|] == payload;
    Crc16Bound(payload);
    MaskIsIdle(crc);
    crc := Low(crc, 16);
  }

  lemma BenchStep(crc: nat, b: Byte)
    ensures Low(Xor(Xor(TableEntry(HighByte(crc)), Low(Shl(crc, 8), 16)), b), 16) == Fold(crc, b)
  {
    hide Xor, Low, Shl, Shr, TableEntry;
    var e, s := TableEntry(HighByte(crc)), Shl(crc, 8);
    LowXor(Xor(e, Low(s, 16)), b, 16);
    LowXor(e, Low(s, 16), 16);
    LowLow(s, 16, 16);
    LowXor(e, s, 16);
    LowXor(Xor(e, s), b, 16);
  }

  lemma MaskIsIdle(crc: nat)
    requires crc < 0x1_0000
    ensures Low(crc, 16) == crc
  {
    hide Low;
    assert Pow2(12) == 0x1000;
    assert Pow2(16) == 16 * Pow2(12);
    LowOfSmall(crc, 16);
  }

  // ---- the bench reads what the firmware wrote

  function Frames(msgs: seq<seq<Byte>>): seq<Byte> {
    if |msgs| == 0 then [] else FrameOf(msgs[0]) + Frames(msgs[1..])
  }

  predicate Sendable(msg: seq<Byte>) {
    |msg| > 0 && KnownId(msg[0])
  }

  predicate AllSendable(msgs: seq<seq<Byte>>) {
    forall i :: 0 <= i < |msgs| ==> Sendable(msgs[i])
  }

  function Received(msg: seq<Byte>): Frame
    requires |msg| > 0
  {
    Frame(msg[0], msg[1..], true, msg + [CrcLow(msg), CrcHigh(msg)])
  }

  // Every message once, in order.
  function Delivered(msgs: seq<seq<Byte>>): (frames: seq<Frame>)
    requires AllSendable(msgs)
    ensures |frames| == |msgs| && forall i :: 0 <= i < |msgs| ==> frames[i] == Received(msgs[i])
  {
    if |msgs| == 0 then [] else [Received(msgs[0])] + Delivered(msgs[1..])
  }

  lemma CrcBytes(msg: seq<Byte>)
    ensures CrcLow(msg) as int + 256 * (CrcHigh(msg) as int) == Crc16(msg)
  {
    hide Crc16;
    Crc16Bound(msg);
    assert Pow2(8) == 256;
    ShrLowAreDivMod(Crc16(msg), 8);
    LowOfSmall(Shr(Crc16(msg), 8), 8);
  }

  lemma BodyRead(msg: seq<Byte>)
    requires Sendable(msg)
    ensures FrameOfBody(msg + [CrcLow(msg), CrcHigh(msg)]) == Received(msg)
  {
    hide Crc16, CrcLow, CrcHigh;
    CrcBytes(msg);
    var body := msg + [CrcLow(msg), CrcHigh(msg)];
    assert body[..|body| - 2] == msg;
    assert body[1..|body| - 2] == msg[1..];
  }

  lemma FrameRead(msg: seq<Byte>)
    requires Sendable(msg)
    ensures ReadChunk(Stuff(msg + [CrcLow(msg), CrcHigh(msg)])) == [Received(msg)]
  {
    hide CrcLow, CrcHigh, Stuff, Unstuff, FrameOfBody;
    var body := msg + [CrcLow(msg), CrcHigh(msg)];
    StuffRoundTrip(body);
    StuffFirst(body);
    BodyRead(msg);
  }

  lemma DeframeFrame(msg: seq<Byte>, rest: seq<Byte>)
    requires Sendable(msg)
    ensures Deframe(FrameOf(msg) + rest) == [Received(msg)] + Deframe(rest)
  {
    hide CrcLow, CrcHigh, Stuff, Deframe, ReadChunk;
    var body := Stuff(msg + [CrcLow(msg), CrcHigh(msg)]);
    StuffedHasNoFlag(msg + [CrcLow(msg), CrcHigh(msg)]);
    assert FrameOf(msg) + rest == [] + [GDL90_FLAG] + (body + [GDL90_FLAG] + rest);
    DeframeAtFlag([], body + [GDL90_FLAG] + rest);
    DeframeAtFlag(body, rest);
    DeframeNothing();
    DeframeFlagFree(body);
    FrameRead(msg);
  }

  lemma DeframeNothing()
    ensures Deframe([]) == []
  {
  }

  // Deframing the concatenation of the firmware's frames returns every message, in order and
  // with its CRC accepted.
  lemma {:induction false} StreamRoundTrip(msgs: seq<seq<Byte>>)
    requires AllSendable(msgs)
    ensures Deframe(Frames(msgs)) == Delivered(msgs)
  {
    hide FrameOf, Deframe, Received;
    if |msgs| == 0 {
      DeframeNothing();
    } else {
      StreamRoundTrip(msgs[1..]);
      DeframeFrame(msgs[0], Frames(msgs[1..]));
    }
  }

  // Joining a stream part-way costs at most the cut frame: whatever precedes the first whole
  // frame contributes at most what it would alone, and every later message is delivered.
  lemma ResyncAfterNoise(noise: seq<Byte>, msgs: seq<seq<Byte>>)
    requires NoFlag(noise)
    ensures Deframe(noise + Frames(msgs)) == ReadChunk(noise) + Deframe(Frames(msgs))
  {
    hide Deframe, ReadChunk, FrameOf, FramesIn, Split;
    if |msgs| == 0 {
      assert noise + Frames(msgs) == noise;
      DeframeNothing();
      DeframeFlagFree(noise);
    } else {
      var rest := FramesAfterFlag(msgs);
      DeframeAtFlag(noise, rest);
      DeframeAtFlag([], rest);
      DeframeNothing();
      DeframeFlagFree(noise);
      assert noise + ([GDL90_FLAG] + rest) == noise + [GDL90_FLAG] + rest;
      assert [] + [GDL90_FLAG] + rest == [GDL90_FLAG] + rest;
    }
  }

  lemma FramesAfterFlag(msgs: seq<seq<Byte>>) returns (rest: seq<Byte>)
    requires |msgs| > 0
    ensures Frames(msgs) == [GDL90_FLAG] + rest
  {
    hide Stuff, CrcLow, CrcHigh;
    rest := Frames(msgs)[1..];
  }
}

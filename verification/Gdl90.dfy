// GDL90 framing (Garmin GDL 90 Data Interface Specification 560-1058-00 section 2.2): the
// firmware's encoder (components/sinks/gdl90_encoder.c) against the bench's deframer
// (tools/bench/gdl90.py).
module Gdl90 {
  import opened Bits
  import opened Bytes

  const GDL90_FLAG: Byte := 0x7E
  const GDL90_ESC: Byte := 0x7D
  const GDL90_ESC_XOR: Byte := 0x20
  const CRC_POLY := 0x1021
  const ERR_INVALID_ARG := 0x102
  const ERR_INVALID_SIZE := 0x104

  // ---- CRC-16

  function TableStep(crc: nat): nat {
    Low(Xor(Shl(crc, 1), if BitAt(crc, 15) == 1 then CRC_POLY else 0), 16)
  }

  function TableSteps(crc: nat, k: nat): nat {
    if k == 0 then crc else TableStep(TableSteps(crc, k - 1))
  }

  function TableEntry(i: Byte): (e: nat)
  {
    TableSteps(Shl(i, 8), 8)
  }

  // table[crc >> 8] ^ (crc << 8) ^ byte, in 16 bits.
  function Fold(crc: nat, b: Byte): nat {
    Low(Xor(Xor(TableEntry(HighByte(crc)), Shl(crc, 8)), b), 16)
  }

  function HighByte(crc: nat): Byte {
    ByteRange(Shr(crc, 8));
    Low(Shr(crc, 8), 8)
  }

  lemma ByteRange(a: nat)
    ensures Low(a, 8) < 256
  {
  }

  function Crc16(payload: seq<Byte>): nat {
    if |payload| == 0 then 0 else Fold(Crc16(payload[..|payload| - 1]), payload[|payload| - 1])
  }

  lemma {:induction false} Crc16Bound(payload: seq<Byte>)
    ensures Crc16(payload) < 0x1_0000
  {
    hide Xor, Low, TableEntry;
    if |payload| != 0 {
      var n := |payload| - 1;
      var crc := Crc16(payload[..n]);
      LowBound(Xor(Xor(TableEntry(HighByte(crc)), Shl(crc, 8)), payload[n]), 16);
      assert Pow2(12) == 0x1000;
      assert Pow2(16) == 16 * Pow2(12);
    }
  }

  function CrcLow(payload: seq<Byte>): Byte {
    ByteRange(Crc16(payload));
    Low(Crc16(payload), 8)
  }

  function CrcHigh(payload: seq<Byte>): Byte {
    HighByte(Crc16(payload))
  }

  // ---- byte stuffing

  function StuffByte(b: Byte): (s: seq<Byte>)
    ensures 1 <= |s| <= 2
  {
    if b == GDL90_FLAG || b == GDL90_ESC then
      EscapedBytes();
      [GDL90_ESC, Xor(b, GDL90_ESC_XOR)]
    else [b]
  }

  lemma EscapedBytes()
    ensures Xor(GDL90_FLAG, GDL90_ESC_XOR) == 0x5E && Xor(GDL90_ESC, GDL90_ESC_XOR) == 0x5D
    ensures Xor(0x5E, GDL90_ESC_XOR) == GDL90_FLAG && Xor(0x5D, GDL90_ESC_XOR) == GDL90_ESC
  {
    hide Xor;
    var f, e := 0x7E, 0x7D;
    SetBit5(f);
    SetBit5(e);
    XorAssoc(f, 0x20, 0x20);
    XorAssoc(e, 0x20, 0x20);
    XorSelf(0x20);
    XorZero(f);
    XorZero(e);
  }

  // 0x5E and 0x5D plus 0x20.
  lemma SetBit5(b: nat)
    requires b == 0x7E || b == 0x7D
    ensures Xor(b, 0x20) == b - 0x20
  {
    hide Xor;
    XorSplit(b, 0x20);
    XorSplit(b / 2, 0x10);
    XorSplit(b / 4, 8);
    XorSplit(b / 8, 4);
    XorSplit(b / 16, 2);
    XorSplit(b / 32, 1);
    XorSelf(1);
    XorZero(1);
  }

  function Stuff(data: seq<Byte>): seq<Byte> {
    if |data| == 0 then [] else Stuff(data[..|data| - 1]) + StuffByte(data[|data| - 1])
  }

  predicate NoFlag(data: seq<Byte>) {
    GDL90_FLAG !in data
  }

  lemma {:induction false} StuffedHasNoFlag(data: seq<Byte>)
    ensures NoFlag(Stuff(data)) && |Stuff(data)| <= 2 * |data|
  {
    hide Xor;
    if |data| != 0 {
      StuffedHasNoFlag(data[..|data| - 1]);
      EscapedBytes();
    }
  }

  lemma {:induction false} StuffConcat(p: seq<Byte>, q: seq<Byte>)
    ensures Stuff(p + q) == Stuff(p) + Stuff(q)
    decreases |q|
  {
    hide StuffByte;
    if |q| == 0 {
      assert p + q == p;
    } else {
      assert (p + q)[..|p| + |q| - 1] == p + q[..|q| - 1];
      StuffConcat(p, q[..|q| - 1]);
    }
  }

  // The frame of a message: flags around the stuffed message and its CRC, low byte first.
  function FrameOf(msg: seq<Byte>): seq<Byte> {
    [GDL90_FLAG] + Stuff(msg + [CrcLow(msg), CrcHigh(msg)]) + [GDL90_FLAG]
  }

  lemma FrameSize(msg: seq<Byte>)
    ensures |FrameOf(msg)| <= 2 * (|msg| + 2) + 2
  {
    hide CrcLow, CrcHigh, Stuff;
    StuffedHasNoFlag(msg + [CrcLow(msg), CrcHigh(msg)]);
  }

  // ---- firmware encoder

  class Encoder {
    const crcTable: array<nat>
    var ready: bool

    ghost predicate Valid()
      reads this, crcTable
    {
      crcTable.Length == 256 && (ready ==> forall i :: 0 <= i < 256 ==> crcTable[i] == TableEntry(i))
    }

    constructor ()
      ensures Valid() && !ready && fresh(crcTable)
    {
      crcTable := new nat[256](_ => 0);
      ready := false;
    }

    method CrcInit()
      requires Valid()
      modifies this, crcTable
      ensures Valid() && ready
    {
      hide TableEntry;
      for i := 0 to 256
        invariant forall j :: 0 <= j < i ==> crcTable[j] == TableEntry(j)
      {
        var e := BuildEntry(i);
        crcTable[i] := e;
      }
      ready := true;
    }

    method Crc(payload: seq<Byte>) returns (crc: nat)
      requires Valid()
      modifies this, crcTable
      ensures Valid() && ready && crc == Crc16(payload)
    {
      hide TableEntry, Xor, Low, Shl, Shr;
      if !ready {
        CrcInit();
      }
      Crc16Empty();
      if |payload| == 0 {
        assert payload == [];
        return 0;
      }
      crc := 0;
      assert payload[..0] == [];
      for i := 0 to |payload|
        invariant Valid() && ready && crc == Crc16(payload[..i])
      {
        Crc16Next(payload, i);
        crc := Low(Xor(Xor(crcTable[HighByte(crc)], Shl(crc, 8)), payload[i]), 16);
      }
      assert payload[..|payload|] == payload;
    }

    // Write one message's frame into out[..outCap]: its length, or a negative error. Bytes from
    // outCap on are never touched.
    method FrameMessage(out: array<Byte>, outCap: nat, msg: seq<Byte>) returns (r: int)
      requires Valid() && outCap <= out.Length && out as object != crcTable as object
      modifies this, crcTable, out
      ensures Valid()
      ensures out[outCap..] == old(out[outCap..])
      ensures r == if |msg| == 0 then -ERR_INVALID_ARG
                   else if |FrameOf(msg)| > outCap then -ERR_INVALID_SIZE
                   else |FrameOf(msg)|
      ensures r >= 0 ==> out[..r] == FrameOf(msg)
    {
      hide TableEntry, Xor, Low, Shl, Shr, Crc16, Stuff;
      if |msg| == 0 {
        return -ERR_INVALID_ARG;
      }
      var crc := Crc(msg);
      FrameLength(msg);
      if 1 > outCap {
        return -ERR_INVALID_SIZE;
      }
      out[0] := GDL90_FLAG;
      var ok, pos := EmitAll(out, outCap, 1, msg + [CrcLow(msg), CrcHigh(msg)]);
      if !ok {
        return -ERR_INVALID_SIZE;
      }
      if pos + 1 > outCap {
        return -ERR_INVALID_SIZE;
      }
      out[pos] := GDL90_FLAG;
      assert out[..pos + 1] == out[..1] + out[1..pos] + [GDL90_FLAG];
      return pos + 1;
    }
  }

  lemma FrameLength(msg: seq<Byte>)
    ensures |FrameOf(msg)| == |Stuff(msg + [CrcLow(msg), CrcHigh(msg)])| + 2
  {
  }

  method BuildEntry(i: Byte) returns (crc: nat)
    ensures crc == TableEntry(i)
  {
    hide TableStep;
    crc := Shl(i, 8);
    for bit := 0 to 8
      invariant crc == TableSteps(Shl(i, 8), bit)
    {
      TableStepIs(crc);
      crc := Low(Xor(Shl(crc, 1), if BitAt(crc, 15) == 1 then CRC_POLY else 0), 16);
    }
  }

  lemma TableStepIs(crc: nat)
    ensures TableStep(crc) == Low(Xor(Shl(crc, 1), if BitAt(crc, 15) == 1 then CRC_POLY else 0), 16)
  {
  }

  lemma Crc16Empty()
    ensures Crc16([]) == 0
  {
  }

  lemma Crc16Next(payload: seq<Byte>, i: nat)
    requires i < |payload|
    ensures Crc16(payload[..i + 1]) == Fold(Crc16(payload[..i]), payload[i])
  {
    hide Fold;
    assert payload[..i + 1][..i] == payload[..i];
  }

  // Append one byte, escaped if it must be; fails when it does not fit.
  method EmitStuffed(out: array<Byte>, outCap: nat, pos: nat, b: Byte) returns (ok: bool, next: nat)
    requires pos <= outCap <= out.Length
    modifies out
    ensures out[..pos] == old(out[..pos]) && out[outCap..] == old(out[outCap..])
    ensures ok <==> pos + |StuffByte(b)| <= outCap
    ensures ok ==> next == pos + |StuffByte(b)| && out[pos..next] == StuffByte(b)
  {
    hide Xor;
    if b == GDL90_FLAG || b == GDL90_ESC {
      if pos + 2 > outCap {
        return false, pos;
      }
      EscapedBytes();
      out[pos] := GDL90_ESC;
      out[pos + 1] := Xor(b, GDL90_ESC_XOR);
      return true, pos + 2;
    }
    if pos + 1 > outCap {
      return false, pos;
    }
    out[pos] := b;
    return true, pos + 1;
  }

  method EmitAll(out: array<Byte>, outCap: nat, start: nat, data: seq<Byte>) returns (ok: bool, pos: nat)
    requires start <= outCap <= out.Length
    modifies out
    ensures out[..start] == old(out[..start]) && out[outCap..] == old(out[outCap..])
    ensures ok <==> start + |Stuff(data)| <= outCap
    ensures ok ==> pos == start + |Stuff(data)| && out[start..pos] == Stuff(data)
  {
    hide StuffByte;
    pos := start;
    ok := true;
    StuffEmpty(data);
    for i := 0 to |data|
      invariant start <= pos <= outCap && pos == start + |Stuff(data[..i])|
      invariant out[..start] == old(out[..start]) && out[outCap..] == old(out[outCap..])
      invariant out[start..pos] == Stuff(data[..i])
    {
      StuffNext(data, i);
      ghost var done := out[..pos];
      var next;
      ok, next := EmitStuffed(out, outCap, pos, data[i]);
      if !ok {
        StuffGrows(data, i + 1);
        return;
      }
      assert out[..pos] == done;
      assert out[start..next] == out[..pos][start..] + out[pos..next];
      assert out[..start] == out[..pos][..start];
      pos := next;
    }
    assert data[..|data|] == data;
  }

  lemma StuffEmpty(data: seq<Byte>)
    ensures Stuff(data[..0]) == []
  {
  }

  lemma StuffNext(data: seq<Byte>, i: nat)
    requires i < |data|
    ensures Stuff(data[..i + 1]) == Stuff(data[..i]) + StuffByte(data[i])
  {
    hide StuffByte;
    assert data[..i + 1][..i] == data[..i];
  }

  lemma StuffGrows(data: seq<Byte>, i: nat)
    requires i <= |data|
    ensures |Stuff(data[..i])| <= |Stuff(data)|
  {
    hide Stuff;
    assert data == data[..i] + data[i..];
    StuffConcat(data[..i], data[i..]);
  }
}

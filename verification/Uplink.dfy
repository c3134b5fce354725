// What interleaving buys the uplink: a burst of up to 60 on-air bytes reaches each of the six
// codewords in at most 10 bytes, which its code repairs.
module Uplink {
  import opened Bytes
  import opened RsCode
  import opened RsDecoding
  import opened UatFec

  const BURST := 60

  // The frame carries the payload: block b is a codeword starting with payload bytes
  // [72 b, 72 (b + 1)).
  predicate Carries(frame: seq<Byte>, payload: seq<Byte>) {
    && |frame| == UPLINK_FRAME_BYTES && |payload| == UPLINK_DATA_BYTES
    && forall b :: 0 <= b < UPLINK_BLOCKS ==>
         IsCodeword(Block(frame, b), UPLINK_NROOTS)
         && Block(frame, b)[..UPLINK_K] == payload[b * UPLINK_K..(b + 1) * UPLINK_K]
  }

  predicate SameOutside(p: seq<Byte>, q: seq<Byte>, start: int, len: nat) {
    |p| == |q| && forall i :: 0 <= i < |p| && !(start <= i < start + len) ==> p[i] == q[i]
  }

  lemma {:induction false} WindowDistance(p: seq<Byte>, q: seq<Byte>, start: int, len: nat)
    requires SameOutside(p, q, start, len)
    ensures Distance(p, q) <= if |p| <= start then 0 else if |p| < start + len then |p| - start else len
    decreases |p|
  {
    if start < 0 {
      WindowDistanceNonneg(p, q, start, len);
    } else if |p| != 0 {
      WindowDistance(p[..|p| - 1], q[..|p| - 1], start, len);
    }
  }

  lemma {:induction false} WindowDistanceNonneg(p: seq<Byte>, q: seq<Byte>, start: int, len: nat)
    requires SameOutside(p, q, start, len) && start < 0
    ensures Distance(p, q) <= if |p| < start + len then |p| - start else len
    decreases |p|
  {
    if |p| != 0 {
      WindowDistanceNonneg(p[..|p| - 1], q[..|p| - 1], start, len);
    }
  }

  // A burst of 60 on-air bytes covers at most 10 consecutive bytes of a block.
  lemma BurstInBlock(sent: seq<Byte>, received: seq<Byte>, start: int, b: nat)
    requires |sent| == UPLINK_FRAME_BYTES && SameOutside(received, sent, start, BURST) && b < UPLINK_BLOCKS
    ensures Distance(Block(received, b), Block(sent, b)) <= BURST / UPLINK_BLOCKS
  {
    hide Distance;
    var first := (start - b + UPLINK_BLOCKS - 1) / UPLINK_BLOCKS;
    WindowDistance(Block(received, b), Block(sent, b), first, BURST / UPLINK_BLOCKS);
  }

  lemma BlockRepaired(sent: seq<Byte>, received: seq<Byte>, word: seq<Byte>)
    requires |received| == |sent| <= 255 && IsCodeword(sent, UPLINK_NROOTS)
    requires 2 * Distance(received, sent) <= UPLINK_NROOTS && DecodedBlock(received, word)
    ensures Correctable(received, UPLINK_NROOTS) && word == sent
  {
    hide Distance, IsCodeword;
    assert Near(received, sent, UPLINK_NROOTS);
    DecodesToSent(sent, received, word, Distance(received, word), UPLINK_NROOTS);
  }

  lemma {:induction false} SumOfChanges(received: seq<Byte>, sent: seq<Byte>, words: seq<seq<Byte>>)
    requires |received| == |sent| == UPLINK_FRAME_BYTES && |words| <= UPLINK_BLOCKS && DecodedBlocks(received, words)
    requires forall b :: 0 <= b < |words| ==> words[b] == Block(sent, b)
    ensures SymbolsChanged(received, words) == DistanceSum(received, sent, |words|)
    decreases |words|
  {
    hide Distance, DecodedBlock, Block;
    if |words| != 0 {
      SumOfChanges(received, sent, words[..|words| - 1]);
    }
  }

  function DistanceSum(p: seq<Byte>, q: seq<Byte>, blocks: nat): nat
    requires |p| == |q| == UPLINK_FRAME_BYTES && blocks <= UPLINK_BLOCKS
  {
    if blocks == 0 then 0
    else DistanceSum(p, q, blocks - 1) + Distance(Block(p, blocks - 1), Block(q, blocks - 1))
  }

  // Differences of block c within the first 6 i + b bytes of the frame.
  function Share(p: seq<Byte>, q: seq<Byte>, i: nat, b: nat, c: nat): nat
    requires |p| == |q| == UPLINK_FRAME_BYTES && i + (if c < b then 1 else 0) <= UPLINK_N && c < UPLINK_BLOCKS
  {
    var m := if c < b then i + 1 else i;
    Distance(Block(p, c)[..m], Block(q, c)[..m])
  }

  lemma ShareNext(p: seq<Byte>, q: seq<Byte>, i: nat, b: nat)
    requires |p| == |q| == UPLINK_FRAME_BYTES && i < UPLINK_N && b < UPLINK_BLOCKS
    ensures Share(p, q, i, b + 1, b) == Share(p, q, i, b, b) + (if p[i * 6 + b] != q[i * 6 + b] then 1 else 0)
  {
    assert Block(p, b)[..i + 1][..i] == Block(p, b)[..i];
    assert Block(q, b)[..i + 1][..i] == Block(q, b)[..i];
  }

  lemma {:induction false} SharesAddUp(p: seq<Byte>, q: seq<Byte>, i: nat, b: nat)
    requires |p| == |q| == UPLINK_FRAME_BYTES && b <= UPLINK_BLOCKS && i < UPLINK_N
    ensures Distance(p[..i * 6 + b], q[..i * 6 + b]) ==
      Share(p, q, i, b, 0) + Share(p, q, i, b, 1) + Share(p, q, i, b, 2) +
      Share(p, q, i, b, 3) + Share(p, q, i, b, 4) + Share(p, q, i, b, 5)
    decreases i, b
  {
    hide Distance, Block;
    if b != 0 {
      SharesAddUp(p, q, i, b - 1);
      DistanceNext(p, q, i * 6 + b - 1);
      ShareNext(p, q, i, b - 1);
      forall c | 0 <= c < UPLINK_BLOCKS && c != b - 1
        ensures Share(p, q, i, b, c) == Share(p, q, i, b - 1, c)
      {
      }
      hide Share;
    } else if i != 0 {
      SharesAddUp(p, q, i - 1, 6);
    } else {
      assert p[..0] == q[..0] == [];
      forall c | 0 <= c < UPLINK_BLOCKS
        ensures Share(p, q, 0, 0, c) == 0
      {
        DistanceSelf(Block(p, c)[..0]);
        assert Block(p, c)[..0] == Block(q, c)[..0];
      }
      DistanceSelf([]);
    }
  }

  lemma DistanceNext(p: seq<Byte>, q: seq<Byte>, n: nat)
    requires |p| == |q| && n < |p|
    ensures Distance(p[..n + 1], q[..n + 1]) == Distance(p[..n], q[..n]) + (if p[n] != q[n] then 1 else 0)
  {
    assert p[..n + 1][..n] == p[..n] && q[..n + 1][..n] == q[..n];
  }

  // The block distances add up to the number of corrupted frame bytes.
  lemma DistanceOfFrame(p: seq<Byte>, q: seq<Byte>)
    requires |p| == |q| == UPLINK_FRAME_BYTES
    ensures DistanceSum(p, q, UPLINK_BLOCKS) == Distance(p, q)
  {
    hide Distance;
    SharesAddUp(p, q, UPLINK_N - 1, UPLINK_BLOCKS);
    assert p[..UPLINK_FRAME_BYTES] == p && q[..UPLINK_FRAME_BYTES] == q;
    forall c | 0 <= c < UPLINK_BLOCKS
      ensures Share(p, q, UPLINK_N - 1, UPLINK_BLOCKS, c) == Distance(Block(p, c), Block(q, c))
    {
      assert Block(p, c)[..UPLINK_N] == Block(p, c) && Block(q, c)[..UPLINK_N] == Block(q, c);
    }
    SumOfSix(p, q);
  }

  lemma SumOfSix(p: seq<Byte>, q: seq<Byte>)
    requires |p| == |q| == UPLINK_FRAME_BYTES
    ensures DistanceSum(p, q, 6) ==
      Distance(Block(p, 0), Block(q, 0)) + Distance(Block(p, 1), Block(q, 1)) + Distance(Block(p, 2), Block(q, 2)) +
      Distance(Block(p, 3), Block(q, 3)) + Distance(Block(p, 4), Block(q, 4)) + Distance(Block(p, 5), Block(q, 5))
  {
    hide Distance, Block;
    assert DistanceSum(p, q, 1) == Distance(Block(p, 0), Block(q, 0));
    assert DistanceSum(p, q, 2) == DistanceSum(p, q, 1) + Distance(Block(p, 1), Block(q, 1));
    assert DistanceSum(p, q, 3) == DistanceSum(p, q, 2) + Distance(Block(p, 2), Block(q, 2));
    assert DistanceSum(p, q, 4) == DistanceSum(p, q, 3) + Distance(Block(p, 3), Block(q, 3));
    assert DistanceSum(p, q, 5) == DistanceSum(p, q, 4) + Distance(Block(p, 4), Block(q, 4));
    assert DistanceSum(p, q, 6) == DistanceSum(p, q, 5) + Distance(Block(p, 5), Block(q, 5));
  }

  // Any burst of up to 60 consecutive on-air bytes is repaired: every block is correctable and
  // comes out as sent, its data part the payload's, and the count of corrected symbols is the
  // number of corrupted bytes.
  lemma BurstRepaired(sent: seq<Byte>, received: seq<Byte>, payload: seq<Byte>, start: int, words: seq<seq<Byte>>)
    requires Carries(sent, payload) && SameOutside(received, sent, start, BURST)
    requires |words| == UPLINK_BLOCKS && DecodedBlocks(received, words)
    ensures forall b :: 0 <= b < UPLINK_BLOCKS ==>
              Correctable(Block(received, b), UPLINK_NROOTS)
              && words[b][..UPLINK_K] == payload[b * UPLINK_K..(b + 1) * UPLINK_K]
    ensures SymbolsChanged(received, words) == Distance(received, sent)
  {
    hide Distance, Correctable, DecodedBlock, IsCodeword, SymbolsChanged;
    forall b | 0 <= b < UPLINK_BLOCKS
      ensures Correctable(Block(received, b), UPLINK_NROOTS) && words[b] == Block(sent, b)
    {
      BurstInBlock(sent, received, start, b);
      BlockRepaired(Block(sent, b), Block(received, b), words[b]);
    }
    SumOfChanges(received, sent, words);
    DistanceOfFrame(received, sent);
  }

  // The whole path: a frame received with such a burst gives back its payload.
  method ReceiveBurst(codec: Codec, frame: array<Byte>, dataOut: array<Byte>, ghost sent: seq<Byte>,
                      ghost payload: seq<Byte>, ghost start: int)
      returns (ok: bool, totalCorrected: int, blockErrors: int)
    requires codec.Valid() && frame != codec.gfExp && frame != codec.gfLog
    requires dataOut != codec.gfExp && dataOut != codec.gfLog && frame != dataOut
    requires frame.Length == UPLINK_FRAME_BYTES && dataOut.Length == UPLINK_DATA_BYTES
    requires Carries(sent, payload) && SameOutside(frame[..], sent, start, BURST)
    modifies codec, codec.gfExp, codec.gfLog, dataOut
    ensures ok && blockErrors == 0 && dataOut[..] == payload
    ensures totalCorrected == Distance(frame[..], sent)
  {
    hide Distance, Correctable, DecodedBlocks, IsCodeword, SymbolsChanged, Carries;
    ghost var words;
    ok, totalCorrected, blockErrors, words := codec.UplinkDecode(frame, dataOut);
    CarriesLength(sent, payload);
    BurstRepaired(sent, frame[..], payload, start, words);
    forall b | 0 <= b < UPLINK_BLOCKS
      ensures dataOut[..][b * UPLINK_K..(b + 1) * UPLINK_K] == payload[b * UPLINK_K..(b + 1) * UPLINK_K]
    {
      assert dataOut[b * UPLINK_K..(b + 1) * UPLINK_K] == words[b][..UPLINK_K];
    }
    SlicesDecide(dataOut[..], payload);
    assert Uncorrectable(frame[..], UPLINK_BLOCKS) == {};
  }

  lemma CarriesLength(sent: seq<Byte>, payload: seq<Byte>)
    requires Carries(sent, payload)
    ensures |sent| == UPLINK_FRAME_BYTES && |payload| == UPLINK_DATA_BYTES
  {
  }

  lemma SlicesDecide(p: seq<Byte>, q: seq<Byte>)
    requires |p| == |q| == UPLINK_DATA_BYTES
    requires forall b :: 0 <= b < UPLINK_BLOCKS ==> p[b * UPLINK_K..(b + 1) * UPLINK_K] == q[b * UPLINK_K..(b + 1) * UPLINK_K]
    ensures p == q
  {
    forall i | 0 <= i < |p|
      ensures p[i] == q[i]
    {
      var b := i / UPLINK_K;
      var k := i % UPLINK_K;
      assert p[b * UPLINK_K..(b + 1) * UPLINK_K][k] == q[b * UPLINK_K..(b + 1) * UPLINK_K][k];
    }
  }
}

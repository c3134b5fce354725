// Strings of bits: sums, values, and what a message's bits determine.
module BitStrings {
  import opened Bits
  import opened Bytes

  function XorBits(p: seq<Bit>, q: seq<Bit>): (r: seq<Bit>)
    requires |p| == |q|
    ensures |r| == |p|
    ensures forall i :: 0 <= i < |r| ==> r[i] == BitSum(p[i], q[i])
  {
    seq(|p|, i requires 0 <= i < |p| => BitSum(p[i], q[i]))
  }

  function BitSum(a: Bit, b: Bit): Bit {
    if a == b then 0 else 1
  }

  lemma BitXor(a: Bit, b: Bit)
    ensures Xor(a, b) == BitSum(a, b)
  {
  }

  function ValueOf(bits: seq<Bit>): nat {
    if |bits| == 0 then 0 else 2 * ValueOf(bits[..|bits| - 1]) + bits[|bits| - 1]
  }

  lemma {:induction false} BitsOfValue(bits: seq<Bit>)
    ensures BitsOf(ValueOf(bits), |bits|) == bits && ValueOf(bits) < Pow2(|bits|)
    ensures ValueOf(bits) == 0 ==> forall i :: 0 <= i < |bits| ==> bits[i] == 0
  {
    if |bits| != 0 {
      BitsOfValue(bits[..|bits| - 1]);
    }
  }

  predicate AllClear(bits: seq<Bit>) {
    forall i :: 0 <= i < |bits| ==> bits[i] == 0
  }

  lemma {:induction false} MessageBitsInjective(p: seq<Byte>, q: seq<Byte>)
    requires |p| == |q| && MessageBits(p) == MessageBits(q)
    ensures p == q
    decreases |p|
  {
    hide BitsOf;
    if |p| != 0 {
      var n := |p| - 1;
      var bp, bq := MessageBits(p[..n]), MessageBits(q[..n]);
      assert bp == MessageBits(p)[..8 * n] == MessageBits(q)[..8 * n] == bq;
      assert BitsOf(p[n], 8) == MessageBits(p)[8 * n..] == MessageBits(q)[8 * n..] == BitsOf(q[n], 8);
      MessageBitsInjective(p[..n], q[..n]);
      ByteBound(p[n]);
      ByteBound(q[n]);
      BitsOfInjective(p[n], q[n], 8);
      assert p == p[..n] + [p[n]] && q == q[..n] + [q[n]];
    }
  }

  lemma {:induction false} BitsOfInjective(v: nat, w: nat, k: nat)
    requires v < Pow2(k) && w < Pow2(k) && BitsOf(v, k) == BitsOf(w, k)
    ensures v == w
    decreases k
  {
    if k != 0 {
      assert BitsOf(v, k)[..k - 1] == BitsOf(v / 2, k - 1) && BitsOf(w, k)[..k - 1] == BitsOf(w / 2, k - 1);
      assert BitsOf(v, k)[k - 1] == v % 2 && BitsOf(w, k)[k - 1] == w % 2;
      BitsOfInjective(v / 2, w / 2, k - 1);
    }
  }

  lemma SplitWindow<T>(e: seq<T>, start: nat, len: nat)
    requires start + len <= |e|
    ensures e == e[..start] + e[start..start + len] + e[start + len..]
  {
  }

  // All that is set lies in the window.
  lemma ClearOutside(e: seq<Bit>, start: nat, len: nat)
    requires start + len <= |e| && !AllClear(e)
    requires forall i :: 0 <= i < |e| && !(start <= i < start + len) ==> e[i] == 0
    ensures AllClear(e[..start]) && AllClear(e[start + len..]) && !AllClear(e[start..start + len])
  {
    var i :| 0 <= i < |e| && e[i] != 0;
    assert e[start..start + len][i - start] != 0;
  }
}

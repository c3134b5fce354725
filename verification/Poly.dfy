// Polynomials over GF(256), stored low degree first, and the two counting facts Reed-Solomon
// decoding rests on: a non-zero polynomial of degree < n has fewer than n roots, and a
// Vandermonde system with distinct nodes has only the trivial solution.
module Poly {
  import opened Bytes
  import opened Gf256

  predicate AllZero(p: seq<Byte>) {
    forall i :: 0 <= i < |p| ==> p[i] == 0
  }

  predicate Distinct(xs: seq<Byte>) {
    forall i, j :: 0 <= i < j < |xs| ==> xs[i] != xs[j]
  }

  function Eval(p: seq<Byte>, x: Byte): Byte {
    if |p| == 0 then 0 else Add(p[0], Mul(x, Eval(p[1..], x)))
  }

  function AddSeq(p: seq<Byte>, q: seq<Byte>): (r: seq<Byte>)
    requires |p| == |q|
    ensures |r| == |p|
    ensures forall i :: 0 <= i < |r| ==> r[i] == Add(p[i], q[i])
  {
    seq(|p|, i requires 0 <= i < |p| => Add(p[i], q[i]))
  }

  function Scale(a: Byte, p: seq<Byte>): (r: seq<Byte>)
    ensures |r| == |p|
    ensures forall i :: 0 <= i < |r| ==> r[i] == Mul(a, p[i])
  {
    seq(|p|, i requires 0 <= i < |p| => Mul(a, p[i]))
  }

  function Zeros(n: nat): (r: seq<Byte>)
    ensures |r| == n && AllZero(r)
  {
    seq(n, _ => 0)
  }

  function Pow(x: Byte, n: nat): Byte {
    if n == 0 then 1 else Mul(x, Pow(x, n - 1))
  }

  // ---- ring identities used below

  lemma MulSwap(a: Byte, b: Byte, c: Byte)
    ensures Mul(a, Mul(b, c)) == Mul(b, Mul(a, c))
  {
    hide Mul;
    MulAssoc(a, b, c);
    MulComm(a, b);
    MulAssoc(b, a, c);
  }

  lemma AddSwap(a: Byte, b: Byte, c: Byte)
    ensures Add(a, Add(b, c)) == Add(b, Add(a, c))
  {
    hide Add;
    AddAssoc(a, b, c);
    AddComm(a, b);
    AddAssoc(b, a, c);
  }

  // ---- evaluation

  lemma {:induction false} EvalAdd(p: seq<Byte>, q: seq<Byte>, x: Byte)
    requires |p| == |q|
    ensures Eval(AddSeq(p, q), x) == Add(Eval(p, x), Eval(q, x))
  {
    hide Add, Mul;
    if |p| == 0 {
      AddZero(0);
    } else {
      var s, t := Eval(p[1..], x), Eval(q[1..], x);
      EvalAdd(p[1..], q[1..], x);
      assert AddSeq(p, q)[1..] == AddSeq(p[1..], q[1..]);
      MulAddRight(x, s, t);
      AddExchange(p[0], q[0], Mul(x, s), Mul(x, t));
    }
  }

  lemma {:induction false} EvalScale(a: Byte, p: seq<Byte>, x: Byte)
    ensures Eval(Scale(a, p), x) == Mul(a, Eval(p, x))
  {
    hide Add, Mul;
    if |p| == 0 {
      MulZero(a);
    } else {
      var s := Eval(p[1..], x);
      EvalScale(a, p[1..], x);
      assert Scale(a, p)[1..] == Scale(a, p[1..]);
      MulSwap(x, a, s);
      MulAddRight(a, p[0], Mul(x, s));
    }
  }

  lemma {:induction false} EvalAllZero(p: seq<Byte>, x: Byte)
    requires AllZero(p)
    ensures Eval(p, x) == 0
  {
    hide Add, Mul;
    if |p| != 0 {
      EvalAllZero(p[1..], x);
      MulZero(x);
      AddZero(0);
    }
  }

  lemma {:induction false} EvalAppendZeros(p: seq<Byte>, z: seq<Byte>, x: Byte)
    requires AllZero(z)
    ensures Eval(p + z, x) == Eval(p, x)
  {
    hide Add, Mul;
    if |p| == 0 {
      assert p + z == z;
      EvalAllZero(z, x);
    } else {
      assert (p + z)[1..] == p[1..] + z;
      EvalAppendZeros(p[1..], z, x);
    }
  }

  // ---- synthetic division by (x - a)

  function Quot(p: seq<Byte>, a: Byte): (q: seq<Byte>)
    ensures |q| == if |p| == 0 then 0 else |p| - 1
  {
    if |p| <= 1 then [] else [Eval(p[1..], a)] + Quot(p[1..], a)
  }

  lemma {:induction false} QuotAt(p: seq<Byte>, a: Byte, i: nat)
    requires i + 1 < |p|
    ensures Quot(p, a)[i] == Eval(p[i + 1..], a)
  {
    hide Eval;
    if i != 0 {
      QuotAt(p[1..], a, i - 1);
      assert p[1..][i..] == p[i + 1..];
    }
  }

  // p(x) = p(a) + (x - a) q(x)
  lemma {:induction false} EvalQuot(p: seq<Byte>, a: Byte, x: Byte)
    ensures Eval(p, x) == Add(Eval(p, a), Mul(Add(x, a), Eval(Quot(p, a), x)))
  {
    hide Add, Mul;
    if |p| <= 1 {
      EvalShort(p, a);
      EvalShort(p, x);
      MulZero(Add(x, a));
      AddZero(Eval(p, a));
    } else {
      var t := p[1..];
      EvalQuot(t, a, x);
      var e, f, q := Eval(t, a), Eval(t, x), Eval(Quot(t, a), x);
      assert Quot(p, a)[1..] == Quot(t, a);
      assert Eval(Quot(p, a), x) == Add(e, Mul(x, q));
      EvalQuotStep(p[0], e, q, a, x);
    }
  }

  lemma EvalShort(p: seq<Byte>, x: Byte)
    requires |p| <= 1
    ensures Eval(p, x) == if |p| == 0 then 0 else p[0]
  {
  }

  lemma EvalQuotStep(p0: Byte, e: Byte, q: Byte, a: Byte, x: Byte)
    ensures Add(p0, Mul(x, Add(e, Mul(Add(x, a), q))))
         == Add(Add(p0, Mul(a, e)), Mul(Add(x, a), Add(e, Mul(x, q))))
  {
    hide Add, Mul;
    var d := Add(x, a);
    // right-hand side: (p0 + a e) + (d e + x d q), and a e + d e = x e
    MulAddRight(d, e, Mul(x, q));
    MulSwap(d, x, q);
    MulAddLeft(x, a, e);
    var xe, ae, r := Mul(x, e), Mul(a, e), Mul(x, Mul(d, q));
    AddAssoc(p0, ae, Add(Mul(d, e), r));
    AddAssoc(ae, Mul(d, e), r);
    AddComm(xe, ae);
    AddCancel(ae, xe);
    // left-hand side: p0 + (x e + x d q)
    MulAddRight(x, e, Mul(d, q));
  }

  lemma RootOfQuot(p: seq<Byte>, a: Byte, x: Byte)
    requires Eval(p, a) == 0 && Eval(p, x) == 0 && x != a
    ensures Eval(Quot(p, a), x) == 0
  {
    hide Add, Mul;
    var q := Eval(Quot(p, a), x);
    EvalQuot(p, a, x);
    AddZero(Mul(Add(x, a), q));
    if q != 0 {
      if Add(x, a) == 0 {
        AddZeroOnlyEqual(x, a);
      }
      MulNonzero(Add(x, a), q);
    }
  }

  lemma {:induction false} QuotZero(p: seq<Byte>, a: Byte)
    requires Eval(p, a) == 0 && AllZero(Quot(p, a))
    ensures AllZero(p)
  {
    hide Add, Mul;
    if |p| == 1 {
      EvalShort(p, a);
    } else if |p| > 1 {
      assert Quot(p, a)[0] == Eval(p[1..], a);
      assert Quot(p, a)[1..] == Quot(p[1..], a);
      QuotZero(p[1..], a);
      MulZero(a);
      AddZero(p[0]);
      assert p == [p[0]] + p[1..];
    }
  }

  // A polynomial with at least as many distinct roots as coefficients is zero.
  lemma {:induction false} RootBound(p: seq<Byte>, xs: seq<Byte>)
    requires Distinct(xs) && |p| <= |xs|
    requires forall i :: 0 <= i < |xs| ==> Eval(p, xs[i]) == 0
    ensures AllZero(p)
    decreases |p|
  {
    hide Eval, Quot;
    if |p| != 0 {
      var a, rest := xs[|xs| - 1], xs[..|xs| - 1];
      forall i | 0 <= i < |rest|
        ensures Eval(Quot(p, a), rest[i]) == 0
      {
        RootOfQuot(p, a, rest[i]);
      }
      RootBound(Quot(p, a), rest);
      QuotZero(p, a);
    }
  }

  // ---- power sums and the Vandermonde argument

  function PowSum(z: seq<Byte>, xs: seq<Byte>, k: nat): Byte
    requires |z| == |xs|
  {
    if |z| == 0 then 0
    else Add(Mul(z[0], Pow(xs[0], k)), PowSum(z[1..], xs[1..], k))
  }

  function Weighted(z: seq<Byte>, xs: seq<Byte>, a: Byte): (w: seq<Byte>)
    requires |z| == |xs|
    ensures |w| == |z|
    ensures forall i :: 0 <= i < |w| ==> w[i] == Mul(z[i], Add(xs[i], a))
  {
    seq(|z|, i requires 0 <= i < |z| => Mul(z[i], Add(xs[i], a)))
  }

  lemma {:induction false} PowSumWeighted(z: seq<Byte>, xs: seq<Byte>, a: Byte, k: nat)
    requires |z| == |xs|
    ensures PowSum(Weighted(z, xs, a), xs, k) == Add(PowSum(z, xs, k + 1), Mul(a, PowSum(z, xs, k)))
  {
    hide Add, Mul;
    if |z| == 0 {
      MulZero(a);
      AddZero(0);
    } else {
      var w := Weighted(z, xs, a);
      assert w[1..] == Weighted(z[1..], xs[1..], a);
      PowSumWeighted(z[1..], xs[1..], a, k);
      var s, s1 := PowSum(z[1..], xs[1..], k), PowSum(z[1..], xs[1..], k + 1);
      var z0, x0, p := z[0], xs[0], Pow(xs[0], k);
      WeightedTerm(z0, x0, a, p);
      MulAddRight(a, Mul(z0, p), s);
      AddExchange(Mul(z0, Mul(x0, p)), Mul(a, Mul(z0, p)), s1, Mul(a, s));
    }
  }

  lemma WeightedTerm(z: Byte, x: Byte, a: Byte, p: Byte)
    ensures Mul(Mul(z, Add(x, a)), p) == Add(Mul(z, Mul(x, p)), Mul(a, Mul(z, p)))
  {
    hide Add, Mul;
    MulAssoc(z, Add(x, a), p);
    MulAddLeft(x, a, p);
    MulAddRight(z, Mul(x, p), Mul(a, p));
    MulSwap(z, a, p);
  }

  lemma PowSumCons(z: seq<Byte>, xs: seq<Byte>, k: nat)
    requires |z| == |xs| > 0
    ensures PowSum(z, xs, k) == Add(Mul(z[0], Pow(xs[0], k)), PowSum(z[1..], xs[1..], k))
  {
  }

  // If the first |xs| power sums vanish and the nodes are distinct, every weight is zero.
  lemma {:induction false} Vandermonde(z: seq<Byte>, xs: seq<Byte>)
    requires |z| == |xs| && Distinct(xs)
    requires forall k :: 0 <= k < |xs| ==> PowSum(z, xs, k) == 0
    ensures AllZero(z)
    decreases |z|
  {
    hide Add, Mul, Pow, PowSum;
    if |z| != 0 {
      var a, w := xs[0], Weighted(z[1..], xs[1..], xs[0]);
      forall k | 0 <= k < |w|
        ensures PowSum(w, xs[1..], k) == 0
      {
        VandermondeStep(z, xs, k);
      }
      Vandermonde(w, xs[1..]);
      forall i | 0 < i < |z|
        ensures z[i] == 0
      {
        assert w[i - 1] == Mul(z[i], Add(xs[i], a));
        if Add(xs[i], a) == 0 {
          AddZeroOnlyEqual(xs[i], a);
        }
        if z[i] != 0 {
          MulNonzero(z[i], Add(xs[i], a));
        }
      }
      assert AllZero(z[1..]);
      PowSumCons(z, xs, 0);
      PowSumAllZero(z[1..], xs[1..], 0);
      AddZero(Mul(z[0], Pow(xs[0], 0)));
      PowZero(a);
      MulOne(z[0]);
    }
  }

  lemma PowZero(x: Byte)
    ensures Pow(x, 0) == 1
  {
  }

  lemma {:induction false} PowSumAllZero(z: seq<Byte>, xs: seq<Byte>, k: nat)
    requires |z| == |xs| && AllZero(z)
    ensures PowSum(z, xs, k) == 0
  {
    hide Add, Mul;
    if |z| != 0 {
      PowSumAllZero(z[1..], xs[1..], k);
      MulZero(Pow(xs[0], k));
      AddZero(0);
    }
  }

  lemma VandermondeStep(z: seq<Byte>, xs: seq<Byte>, k: nat)
    requires |z| == |xs| > 0
    requires PowSum(z, xs, k) == 0 && PowSum(z, xs, k + 1) == 0
    ensures PowSum(Weighted(z[1..], xs[1..], xs[0]), xs[1..], k) == 0
  {
    hide Add, Mul, PowSum, Weighted;
    var a := xs[0];
    var s, s1 := PowSum(z[1..], xs[1..], k), PowSum(z[1..], xs[1..], k + 1);
    var t := Mul(z[0], Pow(a, k));
    PowSumWeighted(z[1..], xs[1..], a, k);
    PowSumCons(z, xs, k);
    PowSumCons(z, xs, k + 1);
    assert Mul(z[0], Pow(a, k + 1)) == Mul(a, t) by {
      MulSwap(z[0], a, Pow(a, k));
    }
    AddZeroOnlyEqual(t, s);
    AddZeroOnlyEqual(Mul(a, t), s1);
    AddSelf(s1);
  }
}

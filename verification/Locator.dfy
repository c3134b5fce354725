// Error locators: what the syndromes of a sparse error look like, why its locator generates
// them, and why Forney's formula recovers the magnitudes.
module Locator {
  import opened Bytes
  import opened Gf256
  import opened Poly
  import opened Lfsr

  // The sequence y, y x, y x^2, ...
  function Geo(y: Byte, x: Byte, n: nat): (s: seq<Byte>)
    ensures |s| == n
    ensures forall k :: 0 <= k < n ==> s[k] == Mul(y, Pow(x, k))
  {
    seq(n, k requires 0 <= k < n => Mul(y, Pow(x, k)))
  }

  // The power sums of weights ys at nodes xs: the syndromes of an error with these locators.
  function PowSeq(ys: seq<Byte>, xs: seq<Byte>, n: nat): (s: seq<Byte>)
    requires |ys| == |xs|
    ensures |s| == n
    ensures forall k :: 0 <= k < n ==> s[k] == PowSum(ys, xs, k)
  {
    seq(n, k requires 0 <= k < n => PowSum(ys, xs, k))
  }

  lemma PowSeqCons(ys: seq<Byte>, xs: seq<Byte>, n: nat)
    requires |ys| == |xs| > 0
    ensures PowSeq(ys, xs, n) == AddSeq(Geo(ys[0], xs[0], n), PowSeq(ys[1..], xs[1..], n))
  {
  }

  lemma PowSeqEmpty(ys: seq<Byte>, xs: seq<Byte>, n: nat)
    requires |ys| == |xs| == 0
    ensures AllZero(PowSeq(ys, xs, n))
  {
  }

  // ---- the true locator generates the syndromes

  // p(x) (1 + a x)
  function MulLinear(p: seq<Byte>, a: Byte): seq<Byte> {
    AddSeq(p + [0], Scale(a, [0] + p))
  }

  // prod (1 + x_l x)
  function LocatorOf(xs: seq<Byte>): (c: seq<Byte>)
    ensures |c| == |xs| + 1
  {
    if |xs| == 0 then [1] else MulLinear(LocatorOf(xs[1..]), xs[0])
  }

  lemma {:induction false} LocatorConstantTerm(xs: seq<Byte>)
    ensures LocatorOf(xs)[0] == 1
  {
    hide Add, Mul;
    if |xs| != 0 {
      LocatorConstantTerm(xs[1..]);
      MulZero(xs[0]);
      AddZero(1);
    }
  }

  lemma DiscMulLinear(p: seq<Byte>, a: Byte, s: seq<Byte>, k: int)
    ensures Disc(MulLinear(p, a), s, k) == Add(Disc(p, s, k), Mul(a, Disc(p, s, k - 1)))
  {
    hide Add, Mul, Disc;
    DiscAdd(p + [0], Scale(a, [0] + p), s, k);
    DiscAppendZeros(p, [0], s, k);
    DiscScale(a, [0] + p, s, k);
    assert Zeros(1) == [0];
    DiscShift(1, p, s, k);
  }

  lemma GeoNext(y: Byte, x: Byte, n: nat, k: int)
    requires 1 <= k < n
    ensures At(Geo(y, x, n), k) == Mul(x, At(Geo(y, x, n), k - 1))
  {
    hide Mul;
    MulSwap(y, x, Pow(x, k - 1));
  }

  lemma {:induction false} DiscGeoNext(c: seq<Byte>, y: Byte, x: Byte, n: nat, k: int)
    requires |c| <= k < n
    ensures Disc(c, Geo(y, x, n), k) == Mul(x, Disc(c, Geo(y, x, n), k - 1))
    decreases |c|
  {
    hide Add, Mul, Geo;
    var g := Geo(y, x, n);
    if |c| == 0 {
      MulZero(x);
    } else {
      GeoNext(y, x, n, k);
      DiscGeoNext(c[1..], y, x, n, k - 1);
      MulSwap(c[0], x, At(g, k - 1));
      MulAddRight(x, Mul(c[0], At(g, k - 1)), Disc(c[1..], g, k - 2));
    }
  }

  lemma {:induction false} LocatorAnnihilates(ys: seq<Byte>, xs: seq<Byte>, n: nat, k: int)
    requires |ys| == |xs| <= k < n
    ensures Disc(LocatorOf(xs), PowSeq(ys, xs, n), k) == 0
    decreases |xs|
  {
    hide Add, Mul, Disc, Geo, MulLinear;
    if |xs| == 0 {
      PowSeqEmpty(ys, xs, n);
      DiscOne(PowSeq(ys, xs, n), k);
    } else {
      var p, g, t := LocatorOf(xs[1..]), Geo(ys[0], xs[0], n), PowSeq(ys[1..], xs[1..], n);
      PowSeqCons(ys, xs, n);
      DiscAddSequences(LocatorOf(xs), g, t, k);
      DiscMulLinear(p, xs[0], g, k);
      DiscMulLinear(p, xs[0], t, k);
      DiscGeoNext(p, ys[0], xs[0], n, k);
      AddSelf(Disc(p, g, k));
      LocatorAnnihilates(ys[1..], xs[1..], n, k);
      LocatorAnnihilates(ys[1..], xs[1..], n, k - 1);
      MulZero(xs[0]);
      AddZero(0);
    }
  }

  lemma DiscOne(s: seq<Byte>, k: int)
    ensures Disc([1], s, k) == At(s, k)
  {
    hide Add, Mul;
    assert ([1])[1..] == [];
    MulOne(At(s, k));
    AddZero(At(s, k));
  }

  lemma LocatorGenerates(ys: seq<Byte>, xs: seq<Byte>, n: nat)
    requires |ys| == |xs|
    ensures Generates(LocatorOf(xs), |xs|, PowSeq(ys, xs, n), n)
  {
    hide Disc, LocatorOf;
    LocatorConstantTerm(xs);
    forall k | |xs| <= k < n
      ensures Disc(LocatorOf(xs), PowSeq(ys, xs, n), k) == 0
    {
      LocatorAnnihilates(ys, xs, n, k);
    }
  }

  // ---- every short generator vanishes at the inverse locators

  predicate Inverses(xs: seq<Byte>, xi: seq<Byte>) {
    |xs| == |xi| && forall l :: 0 <= l < |xs| ==> Mul(xs[l], xi[l]) == 1
  }

  lemma {:induction false} DiscGeo(c: seq<Byte>, y: Byte, x: Byte, a: Byte, n: nat, k: int)
    requires Mul(x, a) == 1 && |c| - 1 <= k < n && k >= 0
    ensures Disc(c, Geo(y, x, n), k) == Mul(Mul(y, Pow(x, k)), Eval(c, a))
    decreases |c|
  {
    hide Add, Mul, Geo;
    var g, t := Geo(y, x, n), Mul(y, Pow(x, k));
    if |c| == 0 {
      MulZero(t);
    } else if |c| == 1 {
      assert c[1..] == [];
      EvalShort(c, a);
      MulComm(c[0], t);
      AddZero(Mul(t, c[0]));
    } else {
      var e, t' := Eval(c[1..], a), Mul(y, Pow(x, k - 1));
      DiscGeo(c[1..], y, x, a, n, k - 1);
      MulComm(c[0], t);
      assert Mul(t, Mul(a, e)) == Mul(t', e) by {
        MulSwap(y, x, Pow(x, k - 1));
        assert t == Mul(x, t');
        MulComm(x, t');
        MulAssoc(t', x, Mul(a, e));
        MulAssoc(x, a, e);
        MulOne(e);
      }
      MulAddRight(t, c[0], Mul(a, e));
    }
  }

  function Evals(c: seq<Byte>, ys: seq<Byte>, xi: seq<Byte>): (w: seq<Byte>)
    requires |ys| == |xi|
    ensures |w| == |ys|
    ensures forall l :: 0 <= l < |w| ==> w[l] == Mul(ys[l], Eval(c, xi[l]))
  {
    seq(|ys|, l requires 0 <= l < |ys| => Mul(ys[l], Eval(c, xi[l])))
  }

  lemma {:induction false} DiscPowSeq(c: seq<Byte>, ys: seq<Byte>, xs: seq<Byte>, xi: seq<Byte>, n: nat, k: int)
    requires |ys| == |xs| && Inverses(xs, xi)
    requires |c| - 1 <= k < n && k >= 0
    ensures Disc(c, PowSeq(ys, xs, n), k) == PowSum(Evals(c, ys, xi), xs, k)
    decreases |xs|
  {
    hide Add, Mul, Disc, Eval, Geo;
    if |xs| == 0 {
      PowSeqEmpty(ys, xs, n);
      DiscOfZeros(c, PowSeq(ys, xs, n), k);
    } else {
      var g, t := Geo(ys[0], xs[0], n), PowSeq(ys[1..], xs[1..], n);
      PowSeqCons(ys, xs, n);
      DiscAddSequences(c, g, t, k);
      DiscGeo(c, ys[0], xs[0], xi[0], n, k);
      DiscPowSeq(c, ys[1..], xs[1..], xi[1..], n, k);
      assert Evals(c, ys, xi)[1..] == Evals(c, ys[1..], xi[1..]);
      var e, p := Eval(c, xi[0]), Pow(xs[0], k);
      MulAssoc(ys[0], p, e);
      MulComm(p, e);
      MulAssoc(ys[0], e, p);
    }
  }

  lemma {:induction false} DiscOfZeros(c: seq<Byte>, s: seq<Byte>, k: int)
    requires AllZero(s)
    ensures Disc(c, s, k) == 0
    decreases |c|
  {
    hide Add, Mul;
    if |c| != 0 {
      DiscOfZeros(c[1..], s, k - 1);
      MulZero(c[0]);
      AddZero(0);
    }
  }

  lemma {:induction false} PowAdd(x: Byte, i: nat, j: nat)
    ensures Pow(x, i + j) == Mul(Pow(x, i), Pow(x, j))
    decreases i
  {
    hide Mul;
    if i == 0 {
      MulOne(Pow(x, j));
    } else {
      PowAdd(x, i - 1, j);
      MulAssoc(x, Pow(x, i - 1), Pow(x, j));
    }
  }

  lemma {:induction false} PowNonzero(x: Byte, i: nat)
    requires x != 0
    ensures Pow(x, i) != 0
  {
    hide Mul;
    if i != 0 {
      PowNonzero(x, i - 1);
      MulNonzero(x, Pow(x, i - 1));
    }
  }

  function Delayed(w: seq<Byte>, xs: seq<Byte>, d: nat): (z: seq<Byte>)
    requires |w| == |xs|
    ensures |z| == |w|
    ensures forall l :: 0 <= l < |z| ==> z[l] == Mul(w[l], Pow(xs[l], d))
  {
    seq(|w|, l requires 0 <= l < |w| => Mul(w[l], Pow(xs[l], d)))
  }

  lemma {:induction false} PowSumDelayed(w: seq<Byte>, xs: seq<Byte>, d: nat, k: nat)
    requires |w| == |xs|
    ensures PowSum(Delayed(w, xs, d), xs, k) == PowSum(w, xs, d + k)
    decreases |xs|
  {
    hide Add, Mul, Pow;
    if |xs| != 0 {
      assert Delayed(w, xs, d)[1..] == Delayed(w[1..], xs[1..], d);
      PowSumDelayed(w[1..], xs[1..], d, k);
      PowAdd(xs[0], d, k);
      MulAssoc(w[0], Pow(xs[0], d), Pow(xs[0], k));
    }
  }

  lemma EvalTrimmed(c: seq<Byte>, l: nat, x: Byte)
    requires DegreeAtMost(c, l)
    ensures Eval(Trimmed(c, l), x) == Eval(c, x)
  {
    if l < |c| {
      assert c == c[..l + 1] + c[l + 1..];
      EvalAppendZeros(c[..l + 1], c[l + 1..], x);
    }
  }

  // If c generates the syndromes of |xs| errors with length at most |xs|, and there are at
  // least 2 |xs| syndromes, then c vanishes at every inverse locator.
  lemma RecurrenceVanishes(c: seq<Byte>, l: nat, ys: seq<Byte>, xs: seq<Byte>, xi: seq<Byte>, n: nat)
    requires |ys| == |xs| && Inverses(xs, xi) && Distinct(xs)
    requires forall i :: 0 <= i < |ys| ==> ys[i] != 0
    requires l <= |xs| && 2 * |xs| <= n
    requires Generates(c, l, PowSeq(ys, xs, n), n)
    ensures forall i :: 0 <= i < |xi| ==> Eval(c, xi[i]) == 0
  {
    hide Mul, Disc, Eval, Pow, PowSum, PowSeq;
    var v := |xs|;
    var t := Trimmed(c, l);
    var z := Delayed(Evals(t, ys, xi), xs, v);
    forall k | 0 <= k < v
      ensures PowSum(z, xs, k) == 0
    {
      DiscPowSeq(t, ys, xs, xi, n, v + k);
      PowSumDelayed(Evals(t, ys, xi), xs, v, k);
      TrimmedDisc(c, l, PowSeq(ys, xs, n));
      assert Disc(c, PowSeq(ys, xs, n), v + k) == 0;
    }
    Vandermonde(z, xs);
    forall i | 0 <= i < v
      ensures Eval(c, xi[i]) == 0
    {
      EvalTrimmed(c, l, xi[i]);
      assert z[i] == 0;
      if Eval(t, xi[i]) != 0 {
        assert xs[i] != 0 by { MulZero(xi[i]); }
        MulNonzero(ys[i], Eval(t, xi[i]));
        PowNonzero(xs[i], v);
        MulNonzero(Mul(ys[i], Eval(t, xi[i])), Pow(xs[i], v));
      }
    }
  }

  // ---- Forney's formula

  // The error evaluator: the first l coefficients of c(x) s(x).
  function Evaluator(c: seq<Byte>, s: seq<Byte>, l: nat): (w: seq<Byte>)
    ensures |w| == l
    ensures forall k :: 0 <= k < l ==> w[k] == Disc(c, s, k)
  {
    seq(l, k requires 0 <= k < l => Disc(c, s, k))
  }

  // p[0] + p[2] a^2 + p[4] a^4 + ...
  function EvenEval(p: seq<Byte>, a: Byte): Byte
    decreases |p|
  {
    if |p| == 0 then 0
    else Add(p[0], Mul(Mul(a, a), EvenEval(if |p| == 1 then [] else p[2..], a)))
  }

  // The formal derivative c'(a): only odd-degree terms survive in characteristic two.
  function Deriv(c: seq<Byte>, a: Byte): Byte {
    if |c| == 0 then 0 else EvenEval(c[1..], a)
  }

  lemma {:induction false} EvenOdd(p: seq<Byte>, a: Byte)
    ensures Eval(p, a) == Add(EvenEval(p, a), Mul(a, Deriv(p, a)))
    decreases |p|
  {
    hide Add, Mul;
    if |p| == 0 {
      MulZero(a);
      AddZero(0);
    } else {
      var t := p[1..];
      EvenOdd(t, a);
      assert |p| > 1 ==> t[1..] == p[2..];
      assert EvenEval(if |p| == 1 then [] else p[2..], a) == Deriv(t, a);
      var e, d := EvenEval(t, a), Deriv(t, a);
      // p0 + a (e + a d) == (p0 + a a d) + a e
      MulAddRight(a, e, Mul(a, d));
      MulAssoc(a, a, d);
      AddComm(Mul(a, e), Mul(a, Mul(a, d)));
      AddAssoc(p[0], Mul(a, Mul(a, d)), Mul(a, e));
    }
  }

  // At its own root the synthetic quotient takes the value of the derivative.
  lemma {:induction false} QuotIsDeriv(c: seq<Byte>, a: Byte)
    ensures Eval(Quot(c, a), a) == Deriv(c, a)
    decreases |c|
  {
    hide Add, Mul;
    if |c| == 1 {
      assert c[1..] == [];
    } else if |c| > 1 {
      var t := c[1..];
      QuotIsDeriv(t, a);
      assert Quot(c, a)[1..] == Quot(t, a);
      EvenOdd(t, a);
      // (even + a d) + a d == even
      AddAssoc(EvenEval(t, a), Mul(a, Deriv(t, a)), Mul(a, Deriv(t, a)));
      AddSelf(Mul(a, Deriv(t, a)));
      AddZero(EvenEval(t, a));
    }
  }

  lemma {:induction false} EvalAppend(p: seq<Byte>, q: seq<Byte>, a: Byte)
    ensures Eval(p + q, a) == Add(Eval(p, a), Mul(Pow(a, |p|), Eval(q, a)))
    decreases |p|
  {
    hide Add, Mul;
    if |p| == 0 {
      assert p + q == q;
      MulOne(Eval(q, a));
      AddZero(Eval(q, a));
    } else {
      assert (p + q)[1..] == p[1..] + q;
      EvalAppend(p[1..], q, a);
      var e, r := Eval(p[1..], a), Mul(Pow(a, |p| - 1), Eval(q, a));
      MulAddRight(a, e, r);
      MulAssoc(a, Pow(a, |p| - 1), Eval(q, a));
      AddAssoc(p[0], Mul(a, e), Mul(a, r));
    }
  }

  lemma {:induction false} DiscConcat(c: seq<Byte>, d: seq<Byte>, s: seq<Byte>, k: int)
    ensures Disc(c + d, s, k) == Add(Disc(c, s, k), Disc(d, s, k - |c|))
    decreases |c|
  {
    hide Add, Mul;
    if |c| == 0 {
      assert c + d == d;
      AddZero(Disc(d, s, k));
    } else {
      assert (c + d)[1..] == c[1..] + d;
      DiscConcat(c[1..], d, s, k - 1);
      AddAssoc(Mul(c[0], At(s, k)), Disc(c[1..], s, k - 1), Disc(d, s, k - |c|));
    }
  }

  lemma {:induction false} DiscBeforeStart(c: seq<Byte>, s: seq<Byte>, k: int)
    requires k < 0
    ensures Disc(c, s, k) == 0
    decreases |c|
  {
    hide Add, Mul;
    if |c| != 0 {
      DiscBeforeStart(c[1..], s, k - 1);
      MulZero(c[0]);
      AddZero(0);
    }
  }

  lemma {:induction false} PowInverse(x: Byte, a: Byte, k: nat)
    requires Mul(x, a) == 1
    ensures Mul(Pow(x, k), Pow(a, k)) == 1
  {
    hide Mul;
    if k == 0 {
      MulOne(1);
    } else {
      PowInverse(x, a, k - 1);
      var p, q := Pow(x, k - 1), Pow(a, k - 1);
      // (x p)(a q) == (x a)(p q)
      MulAssoc(x, p, Mul(a, q));
      MulSwap(p, a, q);
      MulAssoc(x, a, Mul(p, q));
      MulOne(1);
    }
  }

  // The evaluator of a single error is a multiple of the quotient of c by its root.
  lemma EvaluatorOfGeo(c: seq<Byte>, y: Byte, x: Byte, a: Byte, n: nat, k: nat)
    requires Mul(x, a) == 1 && Eval(c, a) == 0
    requires k + 1 < |c| <= n + 1
    ensures Disc(c, Geo(y, x, n), k) == Mul(Mul(y, a), Quot(c, a)[k])
  {
    hide Add, Mul, Disc, Eval, Quot, Geo;
    var p, q := c[..k + 1], c[k + 1..];
    var g, e := Geo(y, x, n), Eval(q, a);
    assert c == p + q;
    DiscConcat(p, q, g, k);
    DiscBeforeStart(q, g, k - |p|);
    AddZero(Disc(p, g, k));
    DiscGeo(p, y, x, a, n, k);
    EvalAppend(p, q, a);
    AddZeroOnlyEqual(Eval(p, a), Mul(Pow(a, k + 1), e));
    QuotAt(c, a, k);
    // (y x^k) (a^(k+1) e) == (y a) e
    var xk, ak := Pow(x, k), Pow(a, k);
    PowInverse(x, a, k);
    MulAssoc(y, xk, Mul(Mul(a, ak), e));
    MulComm(a, ak);
    MulAssoc(ak, a, e);
    MulAssoc(xk, ak, Mul(a, e));
    MulOne(Mul(a, e));
    MulAssoc(y, a, e);
  }

  lemma EvalEvaluatorGeo(c: seq<Byte>, y: Byte, x: Byte, a: Byte, n: nat, z: Byte)
    requires |c| > 0 && Mul(x, a) == 1 && Eval(c, a) == 0 && |c| <= n + 1
    ensures Eval(Evaluator(c, Geo(y, x, n), |c| - 1), z) == Mul(Mul(y, a), Eval(Quot(c, a), z))
  {
    hide Add, Mul, Disc, Eval, Quot, Geo;
    var w := Evaluator(c, Geo(y, x, n), |c| - 1);
    forall k | 0 <= k < |w|
      ensures w[k] == Mul(Mul(y, a), Quot(c, a)[k])
    {
      EvaluatorOfGeo(c, y, x, a, n, k);
    }
    assert w == Scale(Mul(y, a), Quot(c, a));
    EvalScale(Mul(y, a), Quot(c, a), z);
  }

  lemma EvaluatorAdd(c: seq<Byte>, s: seq<Byte>, t: seq<Byte>, l: nat, z: Byte)
    requires |s| == |t|
    ensures Eval(Evaluator(c, AddSeq(s, t), l), z) == Add(Eval(Evaluator(c, s, l), z), Eval(Evaluator(c, t, l), z))
  {
    hide Add, Mul, Disc, Eval;
    forall k | 0 <= k < l
      ensures Evaluator(c, AddSeq(s, t), l)[k] == AddSeq(Evaluator(c, s, l), Evaluator(c, t, l))[k]
    {
      DiscAddSequences(c, s, t, k);
    }
    assert Evaluator(c, AddSeq(s, t), l) == AddSeq(Evaluator(c, s, l), Evaluator(c, t, l));
    EvalAdd(Evaluator(c, s, l), Evaluator(c, t, l), z);
  }

  predicate Roots(c: seq<Byte>, xi: seq<Byte>) {
    forall l :: 0 <= l < |xi| ==> Eval(c, xi[l]) == 0
  }

  // Away from every root in xi, all single-error evaluators vanish at z.
  lemma {:induction false} EvaluatorElsewhere(c: seq<Byte>, ys: seq<Byte>, xs: seq<Byte>, xi: seq<Byte>, n: nat, z: Byte)
    requires |ys| == |xs| && Inverses(xs, xi) && Roots(c, xi)
    requires 0 < |c| <= n + 1 && Eval(c, z) == 0 && z !in xi
    ensures Eval(Evaluator(c, PowSeq(ys, xs, n), |c| - 1), z) == 0
    decreases |xs|
  {
    hide Add, Mul, Disc, Eval, Quot, Geo;
    var l := |c| - 1;
    if |xs| == 0 {
      PowSeqEmpty(ys, xs, n);
      forall k | 0 <= k < l
        ensures Evaluator(c, PowSeq(ys, xs, n), l)[k] == 0
      {
        DiscOfZeros(c, PowSeq(ys, xs, n), k);
      }
      EvalAllZero(Evaluator(c, PowSeq(ys, xs, n), l), z);
    } else {
      PowSeqCons(ys, xs, n);
      EvaluatorAdd(c, Geo(ys[0], xs[0], n), PowSeq(ys[1..], xs[1..], n), l, z);
      EvaluatorElsewhere(c, ys[1..], xs[1..], xi[1..], n, z);
      assert xi[0] in xi;
      EvalEvaluatorGeo(c, ys[0], xs[0], xi[0], n, z);
      RootOfQuot(c, xi[0], z);
      MulZero(Mul(ys[0], xi[0]));
      AddZero(0);
    }
  }

  // At the inverse locator of error m only that error contributes.
  lemma {:induction false} EvaluatorAtRoot(c: seq<Byte>, ys: seq<Byte>, xs: seq<Byte>, xi: seq<Byte>, n: nat, m: nat)
    requires |ys| == |xs| && Inverses(xs, xi) && Roots(c, xi) && Distinct(xi)
    requires 0 < |c| <= n + 1 && m < |xi|
    ensures Eval(Evaluator(c, PowSeq(ys, xs, n), |c| - 1), xi[m]) == Mul(Mul(ys[m], xi[m]), Deriv(c, xi[m]))
    decreases |xs|
  {
    hide Add, Mul, Disc, Eval, Quot, Geo, Deriv;
    var l, z := |c| - 1, xi[m];
    PowSeqCons(ys, xs, n);
    EvaluatorAdd(c, Geo(ys[0], xs[0], n), PowSeq(ys[1..], xs[1..], n), l, z);
    EvalEvaluatorGeo(c, ys[0], xs[0], xi[0], n, z);
    if m == 0 {
      QuotIsDeriv(c, z);
      assert z !in xi[1..];
      EvaluatorElsewhere(c, ys[1..], xs[1..], xi[1..], n, z);
      AddZero(Mul(Mul(ys[0], z), Deriv(c, z)));
    } else {
      RootOfQuot(c, xi[0], z);
      MulZero(Mul(ys[0], xi[0]));
      EvaluatorAtRoot(c, ys[1..], xs[1..], xi[1..], n, m - 1);
      AddZero(Mul(Mul(ys[m], z), Deriv(c, z)));
    }
  }

  // A locator with as many distinct roots as its degree has only simple roots.
  lemma DerivNonzero(c: seq<Byte>, xi: seq<Byte>, m: nat)
    requires |c| == |xi| + 1 && c[0] != 0 && Distinct(xi) && Roots(c, xi) && m < |xi|
    ensures Deriv(c, xi[m]) != 0
  {
    hide Add, Mul, Eval, Quot, Deriv;
    var a, q := xi[m], Quot(c, xi[m]);
    QuotIsDeriv(c, a);
    if Deriv(c, a) == 0 {
      forall i | 0 <= i < |xi|
        ensures Eval(q, xi[i]) == 0
      {
        if i != m {
          RootOfQuot(c, a, xi[i]);
        }
      }
      RootBound(q, xi);
      QuotZero(c, a);
    }
  }

  lemma {:induction false} ZeroFromDisc(c: seq<Byte>, s: seq<Byte>, k: nat)
    requires |c| > 0 && c[0] == 1 && k <= |s| && Annihilates(c, s, 0, |s|)
    ensures forall j :: 0 <= j < k ==> s[j] == 0
  {
    hide Add, Mul;
    if k != 0 {
      ZeroFromDisc(c, s, k - 1);
      DiscTail(c[1..], s, k - 2);
      assert Disc(c, s, k - 1) == 0;
      MulOne(At(s, k - 1));
      AddZero(At(s, k - 1));
    }
  }

  lemma {:induction false} DiscTail(c: seq<Byte>, s: seq<Byte>, k: int)
    requires k < |s| && forall j :: 0 <= j <= k ==> s[j] == 0
    ensures Disc(c, s, k) == 0
    decreases |c|
  {
    hide Add, Mul;
    if |c| != 0 {
      DiscTail(c[1..], s, k - 1);
      MulZero(c[0]);
      AddZero(0);
    }
  }

  // Forney: if c generates s and splits completely over xi, the weights computed from the
  // evaluator and the derivative reproduce s exactly.
  lemma Forney(c: seq<Byte>, s: seq<Byte>, ys: seq<Byte>, xs: seq<Byte>, xi: seq<Byte>)
    requires |ys| == |xs| && Inverses(xs, xi) && Distinct(xi) && Roots(c, xi)
    requires |c| == |xi| + 1 && c[0] == 1 && |xi| <= |s|
    requires Annihilates(c, s, |xi|, |s|)
    requires forall m :: 0 <= m < |xi| ==>
      Mul(Mul(ys[m], xi[m]), Deriv(c, xi[m])) == Eval(Evaluator(c, s, |xi|), xi[m])
    ensures s == PowSeq(ys, xs, |s|)
  {
    hide Add, Mul, Disc, Eval, Deriv, PowSum, PowSeq;
    var n, l := |s|, |xi|;
    var p := PowSeq(ys, xs, n);
    var t := AddSeq(s, p);
    forall m | 0 <= m < l
      ensures Eval(Evaluator(c, t, l), xi[m]) == 0
    {
      EvaluatorAdd(c, s, p, l, xi[m]);
      EvaluatorAtRoot(c, ys, xs, xi, n, m);
      AddSelf(Eval(Evaluator(c, s, l), xi[m]));
    }
    RootBound(Evaluator(c, t, l), xi);
    forall k | 0 <= k < n
      ensures Disc(c, t, k) == 0
    {
      if k < l {
        assert Evaluator(c, t, l)[k] == 0;
      } else {
        DiscAddSequences(c, s, p, k);
        PowSeqAnnihilated(c, ys, xs, xi, n, k);
        assert Disc(c, s, k) == 0;
        AddZero(0);
      }
    }
    ZeroFromDisc(c, t, n);
    forall k | 0 <= k < n
      ensures s[k] == p[k]
    {
      assert t[k] == 0;
      AddZeroOnlyEqual(s[k], p[k]);
    }
  }

  lemma PowSeqAnnihilated(c: seq<Byte>, ys: seq<Byte>, xs: seq<Byte>, xi: seq<Byte>, n: nat, k: nat)
    requires |ys| == |xs| && Inverses(xs, xi) && Roots(c, xi) && |c| == |xi| + 1
    requires |xi| <= k < n
    ensures Disc(c, PowSeq(ys, xs, n), k) == 0
  {
    hide Add, Mul, Disc, Eval, PowSum, PowSeq;
    DiscPowSeq(c, ys, xs, xi, n, k);
    forall l | 0 <= l < |ys|
      ensures Evals(c, ys, xi)[l] == 0
    {
      MulZero(ys[l]);
    }
    PowSumAllZero(Evals(c, ys, xi), xs, k);
  }
}

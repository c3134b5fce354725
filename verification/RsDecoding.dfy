// What the stages of the decoder establish together: the specification of bounded-distance
// decoding, and the lemmas carrying the locator through the root search and the correction.
module RsDecoding {
  import opened Bytes
  import opened Gf256
  import opened Poly
  import opened Lfsr
  import opened Locator
  import opened BerlekampMassey
  import opened RsCode

  // Bounded-distance decoding of r with nroots parity symbols: a result c >= 0 means d is a
  // codeword exactly c symbols away, within the correction capability; -1 means that d is the
  // unchanged input and no codeword is that near.
  ghost predicate DecodesTo(r: seq<Byte>, d: seq<Byte>, c: int, nroots: nat) {
    && |d| == |r|
    && (c >= 0 ==> IsCodeword(d, nroots) && Distance(r, d) == c && 2 * c <= nroots)
    && (c < 0 ==> c == -1 && d == r && !Correctable(r, nroots))
  }

  ghost predicate Correctable(r: seq<Byte>, nroots: nat) {
    exists w: seq<Byte> :: Near(r, w, nroots)
  }

  ghost predicate Near(r: seq<Byte>, w: seq<Byte>, nroots: nat) {
    |w| == |r| && IsCodeword(w, nroots) && 2 * Distance(r, w) <= nroots
  }

  // Any at most nroots / 2 symbol errors on a codeword are undone, and counted exactly.
  lemma DecodesToSent(sent: seq<Byte>, r: seq<Byte>, d: seq<Byte>, c: int, nroots: nat)
    requires |r| == |sent| <= 255 && IsCodeword(sent, nroots)
    requires 2 * Distance(r, sent) <= nroots
    requires DecodesTo(r, d, c, nroots)
    ensures d == sent && c == Distance(r, sent)
  {
    hide IsCodeword, Distance;
    assert Near(r, sent, nroots);
    Triangle(d, r, sent);
    MinimumDistance(d, sent, nroots);
  }

  // A clean codeword, such as a fresh encoding, comes back unchanged with count 0.
  lemma CodewordDecodesToItself(w: seq<Byte>, d: seq<Byte>, c: int, nroots: nat)
    requires |w| <= 255 && IsCodeword(w, nroots) && DecodesTo(w, d, c, nroots)
    ensures d == w && c == 0
  {
    hide IsCodeword, Distance;
    DistanceSelf(w);
    DecodesToSent(w, w, d, c, nroots);
  }

  // The outcome is determined by the received word.
  lemma DecodesToUnique(r: seq<Byte>, d: seq<Byte>, c: int, d': seq<Byte>, c': int, nroots: nat)
    requires |r| <= 255 && DecodesTo(r, d, c, nroots) && DecodesTo(r, d', c', nroots)
    ensures d == d' && c == c'
  {
    hide IsCodeword, Distance;
    assert c' >= 0 ==> Near(r, d', nroots);
    if c >= 0 {
      DecodesToSent(d, r, d', c', nroots);
    }
  }

  // ---- root search

  // Byte positions before `upto` whose inverse locator is a root of c.
  function RootPositions(c: seq<Byte>, n: nat, upto: nat): (pos: seq<nat>)
    requires upto <= n
    ensures Increasing(pos, upto)
    ensures forall l :: 0 <= l < |pos| ==> Eval(c, AlphaInt(-(n - 1 - pos[l]))) == 0
  {
    hide Eval, AlphaInt;
    if upto == 0 then []
    else RootPositions(c, n, upto - 1) +
         (if Eval(c, AlphaInt(-(n - 1 - (upto - 1)))) == 0 then [upto - 1] else [])
  }

  lemma RootCount(c: seq<Byte>, l: nat, n: nat)
    requires n <= 255 && |c| > 0 && c[0] == 1 && DegreeAtMost(c, l)
    ensures |RootPositions(c, n, n)| <= l
  {
    hide Eval, AlphaInt;
    var pos := RootPositions(c, n, n);
    var xi, t := InversesAt(n, pos), Trimmed(c, l);
    LocatorFacts(n, pos);
    assert t[0] == 1;
    if |pos| > l {
      forall i | 0 <= i < |xi|
        ensures Eval(t, xi[i]) == 0
      {
        EvalTrimmed(c, l, xi[i]);
      }
      RootBound(t, xi);
    }
  }

  lemma {:induction false} SupportCovered(e: seq<Byte>, c: seq<Byte>, upto: nat)
    requires upto <= |e|
    requires forall i :: 0 <= i < upto && e[i] != 0 ==> Eval(c, AlphaInt(-(|e| - 1 - i))) == 0
    ensures |Support(e, upto)| <= |RootPositions(c, |e|, upto)|
    decreases upto
  {
    hide Eval, AlphaInt;
    if upto != 0 {
      SupportCovered(e, c, upto - 1);
    }
  }

  lemma InEither(p: seq<nat>, q: seq<nat>, x: nat)
    ensures x in p + q <==> x in p || x in q
  {
  }

  lemma {:induction false} InSupport(e: seq<Byte>, upto: nat, i: nat)
    requires i < upto <= |e| && e[i] != 0
    ensures i in Support(e, upto)
    decreases upto
  {
    if i < upto - 1 {
      InSupport(e, upto - 1, i);
    }
    InEither(Support(e, upto - 1), if e[upto - 1] != 0 then [upto - 1] else [], i);
  }

  // A generator no longer than the number of errors vanishes at every error position.
  lemma LocatorCoversError(e: seq<Byte>, nroots: nat, lambda: seq<Byte>, l: nat)
    requires |e| <= 255 && l <= |Support(e, |e|)| && 2 * |Support(e, |e|)| <= nroots
    requires Generates(lambda, l, Syndromes(e, nroots), nroots)
    ensures |Support(e, |e|)| <= |RootPositions(lambda, |e|, |e|)|
  {
    hide Eval, AlphaInt, AlphaPow, Syndromes, PowSeq, Support, ErrorWeights, Generates, RootPositions;
    var n, pos := |e|, Support(e, |e|);
    var xs, xi, ys := LocatorsAt(n, pos), InversesAt(n, pos), ErrorWeights(e, n);
    SyndromesOfError(e, nroots);
    LocatorFacts(n, pos);
    ErrorWeightsNonzero(e);
    RecurrenceVanishes(lambda, l, ys, xs, xi, nroots);
    forall i | 0 <= i < n && e[i] != 0
      ensures Eval(lambda, AlphaInt(-(n - 1 - i))) == 0
    {
      InSupport(e, n, i);
      var k :| 0 <= k < |pos| && pos[k] == i;
      assert Eval(lambda, xi[k]) == 0;
    }
    SupportCovered(e, lambda, n);
  }

  lemma MinimalAtMostErrors(e: seq<Byte>, nroots: nat, l: nat)
    requires Minimal(l, Syndromes(e, nroots), nroots)
    ensures l <= |Support(e, |e|)|
  {
    hide AlphaPow, Syndromes, PowSeq, Support, ErrorWeights, LocatorOf, Generates;
    var xs, ys := LocatorsAt(|e|, Support(e, |e|)), ErrorWeights(e, |e|);
    SyndromesOfError(e, nroots);
    LocatorGenerates(ys, xs, nroots);
    assert Generates(LocatorOf(xs), |xs|, Syndromes(e, nroots), nroots);
  }

  // If some codeword is near enough, the minimal locator is no longer than the number of errors
  // and has exactly as many roots inside the word as its length.
  lemma NearCodewordLocated(r: seq<Byte>, w: seq<Byte>, nroots: nat, lambda: seq<Byte>, l: nat)
    requires |r| <= 255 && Near(r, w, nroots)
    requires Generates(lambda, l, Syndromes(r, nroots), nroots) && Minimal(l, Syndromes(r, nroots), nroots)
    ensures l <= Distance(r, w) && |RootPositions(lambda, |r|, |r|)| == l
  {
    hide Add, Eval, Support, Disc, RootPositions, Horner;
    var e := AddSeq(r, w);
    assert Syndromes(e, nroots) == Syndromes(r, nroots) by {
      SyndromesAdd(r, w, nroots);
      forall j | 0 <= j < nroots
        ensures Syndromes(e, nroots)[j] == Syndromes(r, nroots)[j]
      {
        assert Syndromes(w, nroots)[j] == 0;
        AddZero(Syndromes(r, nroots)[j]);
      }
    }
    SupportCount(r, w, |r|);
    assert r[..|r|] == r && w[..|w|] == w;
    hide Syndromes;
    MinimalAtMostErrors(e, nroots, l);
    LocatorCoversError(e, nroots, lambda, l);
    RootCount(lambda, l, |r|);
  }

  // ---- correction

  // data with mags[l] added at pos[l], for every l < upto.
  function Apply(data: seq<Byte>, pos: seq<nat>, mags: seq<Byte>, upto: nat): (r: seq<Byte>)
    requires upto <= |pos| && upto <= |mags|
    requires forall l :: 0 <= l < |pos| ==> pos[l] < |data|
    ensures |r| == |data|
  {
    if upto == 0 then data
    else
      var r := Apply(data, pos, mags, upto - 1);
      var i := pos[upto - 1];
      r[i := Add(r[i], mags[upto - 1])]
  }

  lemma {:induction false} DistanceUpdate(p: seq<Byte>, q: seq<Byte>, i: nat, v: Byte)
    requires |p| == |q| && i < |p|
    ensures Distance(p, q[i := v]) <= Distance(p, q) + 1
    decreases |p|
  {
    var last := |p| - 1;
    if i == last {
      assert q[i := v][..last] == q[..last];
    } else {
      assert q[i := v][..last] == q[..last][i := v];
      DistanceUpdate(p[..last], q[..last], i, v);
    }
  }

  lemma {:induction false} ApplyDistance(data: seq<Byte>, pos: seq<nat>, mags: seq<Byte>, upto: nat)
    requires upto <= |pos| && upto <= |mags|
    requires forall l :: 0 <= l < |pos| ==> pos[l] < |data|
    ensures Distance(data, Apply(data, pos, mags, upto)) <= upto
    decreases upto
  {
    hide Add, Distance;
    if upto == 0 {
      DistanceSelf(data);
    } else {
      var r, i := Apply(data, pos, mags, upto - 1), pos[upto - 1];
      ApplyDistance(data, pos, mags, upto - 1);
      DistanceUpdate(data, r, i, Add(r[i], mags[upto - 1]));
    }
  }

  // What the corrections contribute to syndrome j.
  function CorrectionSum(n: nat, pos: seq<nat>, mags: seq<Byte>, j: nat): Byte
    requires |pos| == |mags| && forall l :: 0 <= l < |pos| ==> pos[l] < n
  {
    PowSum(Shifted(mags, LocatorsAt(n, pos)), LocatorsAt(n, pos), j)
  }

  lemma {:induction false} ApplyHorner(data: seq<Byte>, pos: seq<nat>, mags: seq<Byte>, upto: nat, j: nat)
    requires upto <= |pos| == |mags| && Increasing(pos, |data|)
    ensures Horner(Apply(data, pos, mags, upto), Root(j))
         == Add(Horner(data, Root(j)), CorrectionSum(|data|, pos[..upto], mags[..upto], j))
    decreases upto
  {
    hide Add, Mul, Horner, Root, AlphaPow, Pow;
    var n := |data|;
    var xs := LocatorsAt(n, pos[..upto]);
    var ys := Shifted(mags[..upto], xs);
    if upto == 0 {
      AddZero(Horner(data, Root(j)));
    } else {
      var last := upto - 1;
      var r, i, v := Apply(data, pos, mags, last), pos[last], mags[last];
      var xs0 := LocatorsAt(n, pos[..last]);
      var ys0 := Shifted(mags[..last], xs0);
      var x := AlphaPow(n - 1 - i);
      ApplyHorner(data, pos, mags, last, j);
      HornerUpdate(r, i, v, Root(j));
      TermOfSyndrome(v, n - 1 - i, j);
      assert xs == xs0 + [x];
      assert ys == ys0 + [Mul(v, Pow(x, GF_FCR))];
      hide PowSum;
      PowSumAppend(ys0, xs0, Mul(v, Pow(x, GF_FCR)), x, j);
      AddAssoc(Horner(data, Root(j)), PowSum(ys0, xs0, j), Mul(v, Pow(Root(j), n - 1 - i)));
    }
  }

  // The magnitude the decoder computes for power p, with locator c and syndromes s:
  // X^(1 - 120) Omega(X^-1) / c'(X^-1).
  ghost predicate MagnitudeAt(c: seq<Byte>, s: seq<Byte>, l: nat, p: int, mag: Byte) {
    var d := Deriv(c, AlphaInt(-p));
    d != 0 && mag == Mul(AlphaInt(p * (1 - GF_FCR)), Mul(Eval(Evaluator(c, s, l), AlphaInt(-p)), Inv(d)))
  }

  // Its weight mag X^120 satisfies Forney's equation.
  lemma MagnitudeSolves(c: seq<Byte>, s: seq<Byte>, l: nat, p: int, mag: Byte)
    requires p >= 0 && MagnitudeAt(c, s, l, p, mag)
    ensures Mul(Mul(Mul(mag, Pow(AlphaPow(p), GF_FCR)), AlphaInt(-p)), Deriv(c, AlphaInt(-p)))
         == Eval(Evaluator(c, s, l), AlphaInt(-p))
  {
    hide Mul, AlphaPow, AlphaInt, Pow, Inv, Eval, Deriv, Evaluator;
    var w, d := Eval(Evaluator(c, s, l), AlphaInt(-p)), Deriv(c, AlphaInt(-p));
    var t := AlphaInt(p * (1 - GF_FCR));
    var u := Pow(AlphaPow(p), GF_FCR);
    var wg := Mul(w, Inv(d));
    ScaleTimesShift(p);
    // (t wg) u == (t u) wg
    MulAssoc(t, wg, u);
    MulComm(wg, u);
    MulAssoc(t, u, wg);
    // ((t u) wg) a == wg, since (t u) a == 1
    MulComm(Mul(t, u), wg);
    MulAssoc(wg, Mul(t, u), AlphaInt(-p));
    AlphaIntInverse(p);
    MulOne(wg);
    MulAssoc(w, Inv(d), d);
    MulOne(w);
  }

  lemma ScaleTimesShift(p: int)
    requires p >= 0
    ensures Mul(AlphaInt(p * (1 - GF_FCR)), Pow(AlphaPow(p), GF_FCR)) == AlphaInt(p)
  {
    hide Mul, AlphaPow, AlphaInt, Pow;
    PowAlpha(p, GF_FCR);
    AlphaIntNat(p * GF_FCR);
    AlphaIntAdd(p * (1 - GF_FCR), p * GF_FCR);
    assert p * (1 - GF_FCR) + p * GF_FCR == p;
  }

  ghost predicate Magnitudes(c: seq<Byte>, s: seq<Byte>, n: nat, pos: seq<nat>, mags: seq<Byte>) {
    |mags| == |pos| && forall m :: 0 <= m < |pos| ==> MagnitudeAt(c, s, |pos|, n - 1 - pos[m], mags[m])
  }

  // With as many root positions as the locator is long, the magnitudes explain every syndrome.
  lemma MagnitudesExplain(s: seq<Byte>, n: nat, lambda: seq<Byte>, l: nat, pos: seq<nat>, mags: seq<Byte>)
    requires n <= 255 && l <= |s| && l < |lambda|
    requires Generates(lambda, l, s, |s|)
    requires pos == RootPositions(lambda, n, n) && |pos| == l
    requires Magnitudes(Trimmed(lambda, l), s, n, pos, mags)
    ensures s == PowSeq(Shifted(mags, LocatorsAt(n, pos)), LocatorsAt(n, pos), |s|)
  {
    hide Mul, Eval, Disc, AlphaPow, AlphaInt, Pow, PowSeq, Deriv, RootPositions, Evaluator, MagnitudeAt;
    var c := Trimmed(lambda, l);
    var xs, xi := LocatorsAt(n, pos), InversesAt(n, pos);
    var ys := Shifted(mags, xs);
    LocatorFacts(n, pos);
    TrimmedDisc(lambda, l, s);
    forall m | 0 <= m < l
      ensures Eval(c, xi[m]) == 0
    {
      EvalTrimmed(lambda, l, xi[m]);
    }
    forall m | 0 <= m < l
      ensures Mul(Mul(ys[m], xi[m]), Deriv(c, xi[m])) == Eval(Evaluator(c, s, l), xi[m])
    {
      MagnitudeSolves(c, s, l, n - 1 - pos[m], mags[m]);
    }
    Forney(c, s, ys, xs, xi);
  }

  // The corrected word is a codeword, for any received word on which the root count came out.
  lemma CorrectionSound(data: seq<Byte>, nroots: nat, lambda: seq<Byte>, l: nat, pos: seq<nat>, mags: seq<Byte>)
    requires |data| <= 255 && l <= nroots && l < |lambda|
    requires Generates(lambda, l, Syndromes(data, nroots), nroots)
    requires pos == RootPositions(lambda, |data|, |data|) && |pos| == l
    requires Magnitudes(Trimmed(lambda, l), Syndromes(data, nroots), |data|, pos, mags)
    ensures IsCodeword(Apply(data, pos, mags, l), nroots)
  {
    hide Add, Horner, Root, PowSum, RootPositions, Generates, Magnitudes, Apply;
    var s := Syndromes(data, nroots);
    MagnitudesSize(Trimmed(lambda, l), s, |data|, pos, mags);
    MagnitudesExplain(s, |data|, lambda, l, pos, mags);
    assert pos[..l] == pos && mags[..l] == mags;
    forall j | 0 <= j < nroots
      ensures Horner(Apply(data, pos, mags, l), Root(j)) == 0
    {
      ApplyHorner(data, pos, mags, l, j);
      assert s[j] == CorrectionSum(|data|, pos, mags, j);
      AddSelf(s[j]);
    }
  }

  lemma MagnitudesSize(c: seq<Byte>, s: seq<Byte>, n: nat, pos: seq<nat>, mags: seq<Byte>)
    requires Magnitudes(c, s, n, pos, mags)
    ensures |mags| == |pos|
  {
  }

  // ---- the decoder's three exits

  lemma CleanOutcome(r: seq<Byte>, nroots: nat)
    requires IsCodeword(r, nroots)
    ensures DecodesTo(r, r, 0, nroots)
  {
    DistanceSelf(r);
  }

  // A zero-length locator means that every syndrome is zero.
  lemma ZeroLength(lambda: seq<Byte>, s: seq<Byte>)
    requires Generates(lambda, 0, s, |s|)
    ensures AllZero(s)
  {
    hide Disc;
    ZeroFromDisc(lambda, s, |s|);
  }

  lemma RejectedOutcome(r: seq<Byte>, nroots: nat, lambda: seq<Byte>, l: nat)
    requires |r| <= 255
    requires Generates(lambda, l, Syndromes(r, nroots), nroots) && Minimal(l, Syndromes(r, nroots), nroots)
    requires l > nroots / 2 || |RootPositions(lambda, |r|, |r|)| != l
    ensures DecodesTo(r, r, -1, nroots)
  {
    hide Generates, Minimal, RootPositions, Syndromes;
    forall w: seq<Byte> | Near(r, w, nroots)
      ensures false
    {
      NearCodewordLocated(r, w, nroots, lambda, l);
    }
  }

  lemma AcceptedOutcome(r: seq<Byte>, nroots: nat, lambda: seq<Byte>, l: nat, pos: seq<nat>, mags: seq<Byte>)
    requires |r| <= 255 && l <= nroots / 2 && l < |lambda|
    requires Generates(lambda, l, Syndromes(r, nroots), nroots) && Minimal(l, Syndromes(r, nroots), nroots)
    requires pos == RootPositions(lambda, |r|, |r|) && |pos| == l
    requires Magnitudes(Trimmed(lambda, l), Syndromes(r, nroots), |r|, pos, mags)
    ensures l <= |mags| && DecodesTo(r, Apply(r, pos, mags, l), l, nroots)
  {
    hide Generates, Minimal, RootPositions, Syndromes, Magnitudes, Apply, IsCodeword, Distance;
    MagnitudesSize(Trimmed(lambda, l), Syndromes(r, nroots), |r|, pos, mags);
    var d := Apply(r, pos, mags, l);
    CorrectionSound(r, nroots, lambda, l, pos, mags);
    ApplyDistance(r, pos, mags, l);
    assert Near(r, d, nroots);
    NearCodewordLocated(r, d, nroots, lambda, l);
  }

  // Dividing by the derivative is always possible once the root count equals the length.
  lemma DerivativeNonzero(lambda: seq<Byte>, l: nat, n: nat, pos: seq<nat>, m: nat)
    requires n <= 255 && l < |lambda| && lambda[0] == 1 && DegreeAtMost(lambda, l)
    requires pos == RootPositions(lambda, n, n) && |pos| == l && m < l
    ensures Deriv(Trimmed(lambda, l), AlphaInt(-(n - 1 - pos[m]))) != 0
  {
    hide Eval, AlphaInt, Deriv, RootPositions;
    var c, xi := Trimmed(lambda, l), InversesAt(n, pos);
    LocatorFacts(n, pos);
    forall i | 0 <= i < l
      ensures Eval(c, xi[i]) == 0
    {
      EvalTrimmed(lambda, l, xi[i]);
    }
    DerivNonzero(c, xi, m);
  }
}

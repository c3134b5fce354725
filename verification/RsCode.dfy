// The UAT Reed-Solomon code: words whose polynomial vanishes at alpha^120 .. alpha^(119 + nroots).
// data[0] is the coefficient of the highest power, as in the decoder's Horner loop.
module RsCode {
  import opened Bytes
  import opened Gf256
  import opened Poly
  import opened Locator

  const GF_FCR := 120

  function Root(j: nat): Byte {
    AlphaPow(GF_FCR + j)
  }

  function Horner(data: seq<Byte>, x: Byte): Byte {
    if |data| == 0 then 0
    else Add(Mul(Horner(data[..|data| - 1], x), x), data[|data| - 1])
  }

  function Syndromes(data: seq<Byte>, nroots: nat): (s: seq<Byte>)
    ensures |s| == nroots
    ensures forall j :: 0 <= j < nroots ==> s[j] == Horner(data, Root(j))
  {
    seq(nroots, j requires 0 <= j < nroots => Horner(data, Root(j)))
  }

  predicate IsCodeword(data: seq<Byte>, nroots: nat) {
    AllZero(Syndromes(data, nroots))
  }

  // The word's polynomial vanishes at alpha^(120 + j).
  predicate RootAt(data: seq<Byte>, j: nat) {
    Horner(data, AlphaPow(120 + j)) == 0
  }

  lemma CodewordRoots(data: seq<Byte>, nroots: nat)
    ensures IsCodeword(data, nroots) <==> forall j: nat :: j < nroots ==> RootAt(data, j)
  {
    hide Horner, AlphaPow;
    assert forall j: nat :: j < nroots ==> Syndromes(data, nroots)[j] == Horner(data, Root(j));
    if forall j: nat :: j < nroots ==> RootAt(data, j) {
      forall j | 0 <= j < nroots
        ensures Syndromes(data, nroots)[j] == 0
      {
        assert RootAt(data, j);
      }
    } else {
      var j: nat :| j < nroots && !RootAt(data, j);
      assert Syndromes(data, nroots)[j] != 0;
    }
  }

  // Number of positions in which two words differ.
  function Distance(p: seq<Byte>, q: seq<Byte>): (d: nat)
    requires |p| == |q|
    ensures d <= |p|
  {
    if |p| == 0 then 0
    else
      var last := |p| - 1;
      Distance(p[..last], q[..last]) + (if p[last] != q[last] then 1 else 0)
  }

  lemma {:induction false} DistanceSelf(p: seq<Byte>)
    ensures Distance(p, p) == 0
  {
    if |p| != 0 {
      DistanceSelf(p[..|p| - 1]);
    }
  }

  lemma {:induction false} DistanceZero(p: seq<Byte>, q: seq<Byte>)
    requires |p| == |q| && Distance(p, q) == 0
    ensures p == q
  {
    if |p| != 0 {
      var last := |p| - 1;
      DistanceZero(p[..last], q[..last]);
      assert p == p[..last] + [p[last]];
      assert q == q[..last] + [q[last]];
    }
  }

  lemma {:induction false} Triangle(p: seq<Byte>, q: seq<Byte>, r: seq<Byte>)
    requires |p| == |q| == |r|
    ensures Distance(p, r) <= Distance(q, p) + Distance(q, r)
  {
    if |p| != 0 {
      var last := |p| - 1;
      Triangle(p[..last], q[..last], r[..last]);
    }
  }

  // ---- Horner evaluation

  lemma HornerSnoc(p: seq<Byte>, b: Byte, x: Byte)
    ensures Horner(p + [b], x) == Add(Mul(Horner(p, x), x), b)
  {
  }

  lemma {:induction false} HornerAdd(p: seq<Byte>, q: seq<Byte>, x: Byte)
    requires |p| == |q|
    ensures Horner(AddSeq(p, q), x) == Add(Horner(p, x), Horner(q, x))
  {
    hide Add, Mul;
    if |p| == 0 {
      AddZero(0);
    } else {
      var n := |p| - 1;
      var s, t := Horner(p[..n], x), Horner(q[..n], x);
      HornerAdd(p[..n], q[..n], x);
      assert AddSeq(p, q)[..n] == AddSeq(p[..n], q[..n]);
      MulAddLeft(s, t, x);
      AddExchange(Mul(s, x), Mul(t, x), p[n], q[n]);
    }
  }

  lemma {:induction false} HornerConcat(p: seq<Byte>, q: seq<Byte>, x: Byte)
    ensures Horner(p + q, x) == Add(Mul(Horner(p, x), Pow(x, |q|)), Horner(q, x))
    decreases |q|
  {
    hide Add, Mul;
    var h := Horner(p, x);
    if |q| == 0 {
      assert p + q == p;
      MulOne(h);
      AddZero(h);
    } else {
      var n := |q| - 1;
      var t, b := Horner(q[..n], x), q[n];
      HornerConcat(p, q[..n], x);
      assert (p + q)[..|p| + n] == p + q[..n];
      // (h x^n + t) x + b == h x^(n+1) + (t x + b)
      var w := Mul(h, Pow(x, n));
      MulAddLeft(w, t, x);
      MulAssoc(h, Pow(x, n), x);
      MulComm(Pow(x, n), x);
      AddAssoc(Mul(w, x), Mul(t, x), b);
    }
  }

  // Adding v to one byte adds v x^(its power).
  lemma HornerUpdate(p: seq<Byte>, i: nat, v: Byte, x: Byte)
    requires i < |p|
    ensures Horner(p[i := Add(p[i], v)], x) == Add(Horner(p, x), Mul(v, Pow(x, |p| - 1 - i)))
  {
    hide Add, Mul, Horner;
    var q := p[i := Add(p[i], v)];
    var head, tail := p[..i], p[i + 1..];
    assert p == head + [p[i]] + tail;
    assert q == head + [q[i]] + tail;
    var h, w, t := Horner(head, x), Pow(x, |tail|), Horner(tail, x);
    HornerConcat(head + [p[i]], tail, x);
    HornerConcat(head + [q[i]], tail, x);
    HornerSnoc(head, p[i], x);
    HornerSnoc(head, q[i], x);
    var a := Add(Mul(h, x), p[i]);
    AddAssoc(Mul(h, x), p[i], v);
    MulAddLeft(a, v, w);
    AddAssoc(Mul(a, w), Mul(v, w), t);
    AddComm(Mul(v, w), t);
    AddAssoc(Mul(a, w), t, Mul(v, w));
  }

  // ---- powers of alpha as locators

  lemma {:induction false} PowAlpha(i: nat, j: nat)
    ensures Pow(AlphaPow(i), j) == AlphaPow(i * j)
    decreases j
  {
    hide Mul, AlphaPow;
    if j == 0 {
      AlphaStart();
    } else {
      PowAlpha(i, j - 1);
      AlphaPowAdd(i, i * (j - 1));
      assert i * j == i + i * (j - 1);
    }
  }

  lemma AlphaStart()
    ensures AlphaPow(0) == 1
  {
  }

  // alpha^p for any integer p.
  function AlphaInt(p: int): Byte {
    AlphaPow(p % 255)
  }

  lemma AlphaIntNat(p: nat)
    ensures AlphaInt(p) == AlphaPow(p)
  {
    hide AlphaPow;
    AlphaPeriod(p % 255, p / 255);
  }

  lemma AlphaIntAdd(p: int, q: int)
    ensures AlphaInt(p + q) == Mul(AlphaInt(p), AlphaInt(q))
  {
    hide Mul, AlphaPow;
    AlphaPowAdd(p % 255, q % 255);
    AlphaIntNat(p % 255 + q % 255);
    ModSum(p / 255, p % 255, q / 255, q % 255);
  }

  lemma ModSum(a: int, r: nat, b: int, s: nat)
    requires r < 255 && s < 255
    ensures (255 * a + r + (255 * b + s)) % 255 == (r + s) % 255
  {
  }

  lemma AlphaIntInverse(p: int)
    ensures Mul(AlphaInt(p), AlphaInt(-p)) == 1 && Mul(AlphaInt(-p), AlphaInt(p)) == 1
  {
    hide Mul, AlphaPow;
    AlphaIntAdd(p, -p);
    AlphaIntAdd(-p, p);
    AlphaStart();
  }

  // The locator of byte idx is alpha^p with p = n - 1 - idx its power; Chien's search evaluates at
  // the inverse.
  function LocatorsAt(n: nat, pos: seq<nat>): (xs: seq<Byte>)
    requires forall l :: 0 <= l < |pos| ==> pos[l] < n
    ensures |xs| == |pos|
    ensures forall l :: 0 <= l < |xs| ==> xs[l] == AlphaPow(n - 1 - pos[l])
  {
    seq(|pos|, l requires 0 <= l < |pos| => AlphaPow(n - 1 - pos[l]))
  }

  function InversesAt(n: nat, pos: seq<nat>): (xi: seq<Byte>)
    requires forall l :: 0 <= l < |pos| ==> pos[l] < n
    ensures |xi| == |pos|
    ensures forall l :: 0 <= l < |xi| ==> xi[l] == AlphaInt(-(n - 1 - pos[l]))
  {
    seq(|pos|, l requires 0 <= l < |pos| => AlphaInt(-(n - 1 - pos[l])))
  }

  predicate Increasing(pos: seq<nat>, n: nat) {
    && (forall l :: 0 <= l < |pos| ==> pos[l] < n)
    && (forall l, m :: 0 <= l < m < |pos| ==> pos[l] < pos[m])
  }

  lemma LocatorFacts(n: nat, pos: seq<nat>)
    requires n <= 255 && Increasing(pos, n)
    ensures Distinct(LocatorsAt(n, pos)) && Distinct(InversesAt(n, pos))
    ensures Inverses(LocatorsAt(n, pos), InversesAt(n, pos))
  {
    hide Mul, AlphaPow, AlphaInt;
    var xs, xi := LocatorsAt(n, pos), InversesAt(n, pos);
    forall l | 0 <= l < |xs|
      ensures Mul(xs[l], xi[l]) == 1
    {
      AlphaIntNat(n - 1 - pos[l]);
      AlphaIntInverse(n - 1 - pos[l]);
    }
    forall l, m | 0 <= l < m < |xs|
      ensures xs[l] != xs[m] && xi[l] != xi[m]
    {
      AlphaInjective(n - 1 - pos[m], n - 1 - pos[l]);
      if xi[l] == xi[m] {
        // x_l = x_l (xi_m x_m) = x_m
        MulComm(xs[m], xi[m]);
        MulAssoc(xs[l], xi[m], xs[m]);
        MulOne(xs[l]);
        MulOne(xs[m]);
      }
    }
  }

  // ---- the error of a received word

  // Positions before `upto` where e is non-zero.
  function Support(e: seq<Byte>, upto: nat): (pos: seq<nat>)
    requires upto <= |e|
    ensures Increasing(pos, upto)
    ensures forall l :: 0 <= l < |pos| ==> e[pos[l]] != 0
  {
    if upto == 0 then []
    else Support(e, upto - 1) + (if e[upto - 1] != 0 then [upto - 1] else [])
  }

  function Picked(e: seq<Byte>, pos: seq<nat>): (v: seq<Byte>)
    requires forall l :: 0 <= l < |pos| ==> pos[l] < |e|
    ensures |v| == |pos|
    ensures forall l :: 0 <= l < |v| ==> v[l] == e[pos[l]]
  {
    seq(|pos|, l requires 0 <= l < |pos| => e[pos[l]])
  }

  // The weight of error value v at a locator: v X^120.
  function Shifted(vs: seq<Byte>, xs: seq<Byte>): (ys: seq<Byte>)
    requires |vs| == |xs|
    ensures |ys| == |vs|
    ensures forall l :: 0 <= l < |ys| ==> ys[l] == Mul(vs[l], Pow(xs[l], GF_FCR))
  {
    seq(|vs|, l requires 0 <= l < |vs| => Mul(vs[l], Pow(xs[l], GF_FCR)))
  }

  lemma {:induction false} PowSumAppend(z: seq<Byte>, xs: seq<Byte>, a: Byte, x: Byte, k: nat)
    requires |z| == |xs|
    ensures PowSum(z + [a], xs + [x], k) == Add(PowSum(z, xs, k), Mul(a, Pow(x, k)))
    decreases |z|
  {
    hide Add, Mul, Pow;
    if |z| == 0 {
      assert z + [a] == [a] && xs + [x] == [x];
      assert PowSum([a][1..], [x][1..], k) == 0;
      AddZero(Mul(a, Pow(x, k)));
    } else {
      assert (z + [a])[1..] == z[1..] + [a];
      assert (xs + [x])[1..] == xs[1..] + [x];
      PowSumAppend(z[1..], xs[1..], a, x, k);
      AddAssoc(Mul(z[0], Pow(xs[0], k)), PowSum(z[1..], xs[1..], k), Mul(a, Pow(x, k)));
    }
  }

  // v root_j^p, the contribution of value v at power p, is a term of the power sum.
  lemma TermOfSyndrome(v: Byte, p: nat, j: nat)
    ensures Mul(v, Pow(Root(j), p)) == Mul(Mul(v, Pow(AlphaPow(p), GF_FCR)), Pow(AlphaPow(p), j))
  {
    hide Mul, AlphaPow, Pow;
    PowAlpha(GF_FCR + j, p);
    PowAlpha(p, GF_FCR + j);
    assert (GF_FCR + j) * p == p * (GF_FCR + j);
    PowAdd(AlphaPow(p), GF_FCR, j);
    MulAssoc(v, Pow(AlphaPow(p), GF_FCR), Pow(AlphaPow(p), j));
  }

  // The syndrome weights of the error values before `upto`.
  function ErrorWeights(e: seq<Byte>, upto: nat): (ys: seq<Byte>)
    requires upto <= |e|
    ensures |ys| == |Support(e, upto)|
  {
    Shifted(Picked(e, Support(e, upto)), LocatorsAt(|e|, Support(e, upto)))
  }

  function ErrorSum(e: seq<Byte>, upto: nat, j: nat): Byte
    requires upto <= |e|
  {
    PowSum(ErrorWeights(e, upto), LocatorsAt(|e|, Support(e, upto)), j)
  }

  lemma ErrorSumStep(e: seq<Byte>, i: nat, j: nat)
    requires i < |e|
    ensures ErrorSum(e, i + 1, j) == Add(ErrorSum(e, i, j), Mul(e[i], Pow(Root(j), |e| - 1 - i)))
  {
    hide Add, Mul, AlphaPow, Root, Pow, PowSum;
    var n, pos, pos' := |e|, Support(e, i), Support(e, i + 1);
    if e[i] == 0 {
      assert pos' == pos;
      MulZero(Pow(Root(j), n - 1 - i));
      AddZero(ErrorSum(e, i, j));
    } else {
      var x := AlphaPow(n - 1 - i);
      var y := Mul(e[i], Pow(x, GF_FCR));
      assert pos' == pos + [i];
      assert LocatorsAt(n, pos') == LocatorsAt(n, pos) + [x];
      assert ErrorWeights(e, i + 1) == ErrorWeights(e, i) + [y];
      TermOfSyndrome(e[i], n - 1 - i, j);
      PowSumAppend(ErrorWeights(e, i), LocatorsAt(n, pos), y, x, j);
    }
  }

  lemma {:induction false} HornerIsErrorSum(e: seq<Byte>, upto: nat, j: nat)
    requires upto <= |e|
    ensures Mul(Horner(e[..upto], Root(j)), Pow(Root(j), |e| - upto)) == ErrorSum(e, upto, j)
    decreases upto
  {
    hide Add, Mul, Root, ErrorSum;
    var n, x := |e|, Root(j);
    if upto == 0 {
      assert e[..0] == [];
      MulZero(Pow(x, n));
      ErrorSumEmpty(e, j);
    } else {
      var i := upto - 1;
      var h, w := Horner(e[..i], x), Pow(x, n - upto);
      HornerIsErrorSum(e, i, j);
      ErrorSumStep(e, i, j);
      assert e[..upto] == e[..i] + [e[i]];
      HornerSnoc(e[..i], e[i], x);
      MulAddLeft(Mul(h, x), e[i], w);
      MulAssoc(h, x, w);
    }
  }

  lemma ErrorSumEmpty(e: seq<Byte>, j: nat)
    ensures ErrorSum(e, 0, j) == 0
  {
  }

  lemma SyndromesOfError(e: seq<Byte>, nroots: nat)
    ensures Syndromes(e, nroots) == PowSeq(ErrorWeights(e, |e|), LocatorsAt(|e|, Support(e, |e|)), nroots)
  {
    hide Horner, Mul, Root, PowSum, Pow, AlphaPow, Support, Shifted, ErrorWeights, LocatorsAt, Syndromes, PowSeq;
    forall j | 0 <= j < nroots
      ensures Horner(e, Root(j)) == PowSum(ErrorWeights(e, |e|), LocatorsAt(|e|, Support(e, |e|)), j)
    {
      SyndromeOfError(e, j);
    }
  }

  lemma SyndromeOfError(e: seq<Byte>, j: nat)
    ensures Horner(e, Root(j)) == ErrorSum(e, |e|, j)
  {
    hide Horner, Mul, Root, Pow, ErrorSum;
    HornerIsErrorSum(e, |e|, j);
    assert e[..|e|] == e;
    PowZero(Root(j));
    MulOne(Horner(e, Root(j)));
  }

  lemma ErrorWeightsNonzero(e: seq<Byte>)
    ensures forall l :: 0 <= l < |ErrorWeights(e, |e|)| ==> ErrorWeights(e, |e|)[l] != 0
  {
    hide Mul, AlphaPow, Pow;
    var pos := Support(e, |e|);
    forall l | 0 <= l < |pos|
      ensures ErrorWeights(e, |e|)[l] != 0
    {
      var x := AlphaPow(|e| - 1 - pos[l]);
      AlphaNonzero(|e| - 1 - pos[l]);
      PowNonzero(x, GF_FCR);
      MulNonzero(e[pos[l]], Pow(x, GF_FCR));
    }
  }

  lemma {:induction false} SupportCount(p: seq<Byte>, q: seq<Byte>, upto: nat)
    requires |p| == |q| && upto <= |p|
    ensures |Support(AddSeq(p, q), upto)| == Distance(p[..upto], q[..upto])
    decreases upto
  {
    hide Add;
    if upto != 0 {
      var i := upto - 1;
      SupportCount(p, q, i);
      assert p[..upto][..i] == p[..i] && q[..upto][..i] == q[..i];
      if p[i] == q[i] {
        AddSelf(p[i]);
      } else if Add(p[i], q[i]) == 0 {
        AddZeroOnlyEqual(p[i], q[i]);
      }
    }
  }

  lemma SyndromesAdd(p: seq<Byte>, q: seq<Byte>, nroots: nat)
    requires |p| == |q|
    ensures Syndromes(AddSeq(p, q), nroots) == AddSeq(Syndromes(p, nroots), Syndromes(q, nroots))
  {
    hide Add, Horner, Root;
    forall j | 0 <= j < nroots
      ensures Syndromes(AddSeq(p, q), nroots)[j] == AddSeq(Syndromes(p, nroots), Syndromes(q, nroots))[j]
    {
      HornerAdd(p, q, Root(j));
    }
  }

  // An error in at most nroots bytes with all syndromes zero is no error.
  lemma UndetectedIsEmpty(e: seq<Byte>, nroots: nat)
    requires |e| <= 255 && IsCodeword(e, nroots) && |Support(e, |e|)| <= nroots
    ensures |Support(e, |e|)| == 0
  {
    hide Horner, PowSum, ErrorWeights, AlphaPow, AlphaInt, Support;
    var xs, ys := LocatorsAt(|e|, Support(e, |e|)), ErrorWeights(e, |e|);
    SyndromesOfError(e, nroots);
    LocatorFacts(|e|, Support(e, |e|));
    forall k | 0 <= k < |xs|
      ensures PowSum(ys, xs, k) == 0
    {
      assert Syndromes(e, nroots)[k] == 0;
    }
    Vandermonde(ys, xs);
    assert |ys| > 0 ==> ys[0] == 0;
    ErrorWeightsNonzero(e);
  }

  // Two codewords of length at most 255 that differ in at most nroots bytes are equal.
  lemma MinimumDistance(p: seq<Byte>, q: seq<Byte>, nroots: nat)
    requires |p| == |q| <= 255
    requires IsCodeword(p, nroots) && IsCodeword(q, nroots)
    requires Distance(p, q) <= nroots
    ensures p == q
  {
    hide Add, Syndromes, Support;
    var e := AddSeq(p, q);
    SupportCount(p, q, |p|);
    assert p[..|p|] == p && q[..|q|] == q;
    SyndromesAdd(p, q, nroots);
    AddZero(0);
    UndetectedIsEmpty(e, nroots);
    DistanceZero(p, q);
  }

  // Two words whose first k bytes agree differ in at most n - k bytes.
  lemma {:induction false} DistanceSamePrefix(p: seq<Byte>, q: seq<Byte>, k: nat)
    requires |p| == |q| && k <= |p| && p[..k] == q[..k]
    ensures Distance(p, q) <= |p| - k
  {
    if |p| > k {
      var last := |p| - 1;
      assert p[..last][..k] == p[..k] && q[..last][..k] == q[..k];
      DistanceSamePrefix(p[..last], q[..last], k);
    } else {
      assert p == p[..k] && q == q[..k];
      DistanceSelf(p);
    }
  }

  // The systematic codeword of a message is unique.
  lemma SystematicUnique(p: seq<Byte>, q: seq<Byte>, k: nat)
    requires |p| == |q| <= 255 && k <= |p| && p[..k] == q[..k]
    requires IsCodeword(p, |p| - k) && IsCodeword(q, |q| - k)
    ensures p == q
  {
    DistanceSamePrefix(p, q, k);
    MinimumDistance(p, q, |p| - k);
  }
}

// The loop bodies of the codec, stated on prefixes: what one more term adds to a sum that a
// loop accumulates, and what the generator polynomial is.
module RsLoops {
  import opened Bytes
  import opened Gf256
  import opened Poly
  import opened Lfsr
  import opened Locator
  import opened RsCode

  lemma EvalSnoc(p: seq<Byte>, c: Byte, x: Byte)
    ensures Eval(p + [c], x) == Add(Eval(p, x), Mul(c, Pow(x, |p|)))
  {
    hide Add, Mul, Eval, Pow;
    EvalAppend(p, [c], x);
    EvalShort([c], x);
    MulComm(c, Pow(x, |p|));
  }

  lemma PowSnoc(x: Byte, k: nat)
    ensures Pow(x, k + 1) == Mul(Pow(x, k), x)
  {
    hide Mul;
    MulComm(x, Pow(x, k));
  }

  // Appending a pair of coefficients to an even-length prefix.
  lemma {:induction false} EvenEvalSnoc(p: seq<Byte>, a: Byte, x: Byte)
    requires |p| % 2 == 0
    ensures EvenEval(p + [a], x) == Add(EvenEval(p, x), Mul(a, Pow(x, |p|)))
    decreases |p|
  {
    hide Add, Mul;
    if |p| == 0 {
      assert p + [a] == [a];
      MulZero(Mul(x, x));
      MulOne(a);
      AddZero(a);
    } else {
      var t, xx := p[2..], Mul(x, x);
      assert (p + [a])[2..] == t + [a];
      EvenEvalSnoc(t, a, x);
      var e, w := EvenEval(t, x), Mul(a, Pow(x, |t|));
      MulAddRight(xx, e, w);
      assert Mul(xx, w) == Mul(a, Pow(x, |p|)) by {
        MulSwap(xx, a, Pow(x, |t|));
        MulAssoc(x, x, Pow(x, |t|));
        assert Pow(x, |p|) == Mul(x, Pow(x, |p| - 1));
        assert Pow(x, |p| - 1) == Mul(x, Pow(x, |t|));
      }
      AddAssoc(p[0], Mul(xx, e), Mul(xx, w));
    }
  }

  lemma {:induction false} EvenEvalSkip(p: seq<Byte>, b: Byte, x: Byte)
    requires |p| % 2 == 1
    ensures EvenEval(p + [b], x) == EvenEval(p, x)
    decreases |p|
  {
    hide Add, Mul;
    if |p| == 1 {
      assert (p + [b])[2..] == [];
    } else {
      assert (p + [b])[2..] == p[2..] + [b];
      EvenEvalSkip(p[2..], b, x);
    }
  }

  lemma DiscPrefix(c: seq<Byte>, s: seq<Byte>, k: nat)
    requires k < |c|
    ensures Disc(c[..k + 1], s, k) == Disc(c, s, k)
  {
    hide Add, Mul, Disc;
    var p, q := c[..k + 1], c[k + 1..];
    assert c == p + q;
    DiscConcat(p, q, s, k);
    DiscBeforeStart(q, s, k - |p|);
    AddZero(Disc(p, s, k));
  }

  // ---- generator polynomial, low degree first

  // g(x) (x - root)
  function TimesLinear(g: seq<Byte>, root: Byte): (r: seq<Byte>)
    ensures |r| == |g| + 1
  {
    AddSeq([0] + g, Scale(root, g + [0]))
  }

  // prod_{j < n} (x - alpha^(120 + j))
  function Generator(n: nat): (g: seq<Byte>)
    ensures |g| == n + 1
  {
    if n == 0 then [1] else TimesLinear(Generator(n - 1), Root(n - 1))
  }

  lemma TimesLinearAt(g: seq<Byte>, root: Byte, i: nat)
    requires i <= |g|
    ensures TimesLinear(g, root)[i] ==
      Add(if i == 0 then 0 else g[i - 1], Mul(root, if i == |g| then 0 else g[i]))
  {
  }

  lemma EvalTimesLinear(g: seq<Byte>, root: Byte, x: Byte)
    ensures Eval(TimesLinear(g, root), x) == Mul(Add(x, root), Eval(g, x))
  {
    hide Add, Mul;
    var e := Eval(g, x);
    EvalAdd([0] + g, Scale(root, g + [0]), x);
    EvalScale(root, g + [0], x);
    EvalAppendZeros(g, [0], x);
    assert ([0] + g)[1..] == g;
    AddZero(Mul(x, e));
    MulAddLeft(x, root, e);
  }

  lemma {:induction false} GeneratorVanishes(n: nat, j: nat)
    requires j < n
    ensures Eval(Generator(n), Root(j)) == 0
    decreases n
  {
    hide Add, Mul, Eval, Root, TimesLinear;
    EvalTimesLinear(Generator(n - 1), Root(n - 1), Root(j));
    if j == n - 1 {
      AddSelf(Root(j));
      MulZero(Eval(Generator(n - 1), Root(j)));
    } else {
      GeneratorVanishes(n - 1, j);
      MulZero(Add(Root(j), Root(n - 1)));
    }
  }

  lemma {:induction false} GeneratorMonic(n: nat)
    ensures Generator(n)[n] == 1
  {
    hide Add, Mul, TimesLinear, Root;
    if n != 0 {
      GeneratorMonic(n - 1);
      TimesLinearAt(Generator(n - 1), Root(n - 1), n);
      MulZero(Root(n - 1));
      AddZero(1);
    }
  }

  // ---- one step of the encoder's shift register

  function Reversed(g: seq<Byte>): (r: seq<Byte>)
    ensures |r| == |g|
    ensures forall j :: 0 <= j < |r| ==> r[j] == g[|g| - 1 - j]
  {
    seq(|g|, j requires 0 <= j < |g| => g[|g| - 1 - j])
  }

  lemma {:induction false} HornerReversed(g: seq<Byte>, x: Byte)
    ensures Horner(Reversed(g), x) == Eval(g, x)
    decreases |g|
  {
    hide Add, Mul;
    if |g| != 0 {
      var t := g[1..];
      HornerReversed(t, x);
      assert Reversed(g) == Reversed(t) + [g[0]];
      HornerSnoc(Reversed(t), g[0], x);
      MulComm(Eval(t, x), x);
      AddComm(Mul(x, Eval(t, x)), g[0]);
    }
  }

  // The register after feeding back fb: shifted left, with fb times the low generator
  // coefficients mixed in.
  function RegisterStep(reg: seq<Byte>, fb: Byte, gen: seq<Byte>): (r: seq<Byte>)
    requires 0 < |reg| < |gen|
    ensures |r| == |reg|
  {
    AddSeq(reg[1..] + [0], Scale(fb, Reversed(gen[..|reg|])))
  }

  lemma RegisterStepAt(reg: seq<Byte>, fb: Byte, gen: seq<Byte>, j: nat)
    requires 0 < |reg| < |gen| && j < |reg|
    ensures RegisterStep(reg, fb, gen)[j] ==
      Add(if j + 1 < |reg| then reg[j + 1] else 0, Mul(fb, gen[|reg| - 1 - j]))
  {
  }

  lemma {:induction false} HornerScale(a: Byte, p: seq<Byte>, x: Byte)
    ensures Horner(Scale(a, p), x) == Mul(a, Horner(p, x))
    decreases |p|
  {
    hide Add, Mul;
    if |p| == 0 {
      MulZero(a);
    } else {
      var n := |p| - 1;
      HornerScale(a, p[..n], x);
      assert Scale(a, p)[..n] == Scale(a, p[..n]);
      MulAssoc(a, Horner(p[..n], x), x);
      MulAddRight(a, Mul(Horner(p[..n], x), x), p[n]);
    }
  }

  // At a root of a monic generator, the low coefficients sum to x^nroots.
  lemma LowCoefficients(gen: seq<Byte>, n: nat, x: Byte)
    requires |gen| == n + 1 && gen[n] == 1 && Eval(gen, x) == 0
    ensures Eval(gen[..n], x) == Pow(x, n)
  {
    hide Add, Mul, Eval, Pow;
    assert gen == gen[..n] + [1];
    EvalSnoc(gen[..n], 1, x);
    MulOne(Pow(x, n));
    AddZeroOnlyEqual(Eval(gen[..n], x), Pow(x, n));
  }

  // Message and register keep the value of zero at every root of the generator.
  lemma EncodeStep(msg: seq<Byte>, d: Byte, reg: seq<Byte>, gen: seq<Byte>, x: Byte)
    requires |reg| > 0 && |gen| == |reg| + 1 && gen[|reg|] == 1 && Eval(gen, x) == 0
    requires Horner(msg + reg, x) == 0
    ensures Horner(msg + [d] + RegisterStep(reg, Add(d, reg[0]), gen), x) == 0
  {
    hide Add, Mul, Eval, Pow, Horner;
    var n, fb := |reg|, Add(d, reg[0]);
    var next := RegisterStep(reg, fb, gen);
    var w, m, t := Pow(x, n), Horner(msg, x), Horner(reg[1..], x);
    LowCoefficients(gen, n, x);
    HornerReversed(gen[..n], x);
    HornerScale(fb, Reversed(gen[..n]), x);
    HornerAdd(reg[1..] + [0], Scale(fb, Reversed(gen[..n])), x);
    HornerSnoc(reg[1..], 0, x);
    AddZero(Mul(t, x));
    assert Horner(next, x) == Add(Mul(t, x), Mul(fb, w));
    HornerConcat(msg + [d], next, x);
    HornerSnoc(msg, d, x);
    HornerConcat(msg, reg, x);
    assert reg == [reg[0]] + reg[1..];
    HornerConcat([reg[0]], reg[1..], x);
    HornerOne(reg[0], x);
    var v := Pow(x, n - 1);
    assert Horner(reg, x) == Add(Mul(reg[0], v), t);
    PowSnoc(x, n - 1);
    EncodeAlgebra(m, d, reg[0], t, x, v, w);
  }

  lemma HornerOne(a: Byte, x: Byte)
    ensures Horner([a], x) == a
  {
    hide Add, Mul;
    assert ([a])[..0] == [];
    MulZero(x);
    AddZero(a);
  }

  // (m x + d) w + (t x + (d + r) w) == x (m w + (r v + t)) when w = x v
  lemma EncodeAlgebra(m: Byte, d: Byte, r: Byte, t: Byte, x: Byte, v: Byte, w: Byte)
    requires w == Mul(x, v) || w == Mul(v, x)
    requires Add(Mul(m, w), Add(Mul(r, v), t)) == 0
    ensures Add(Mul(Add(Mul(m, x), d), w), Add(Mul(t, x), Mul(Add(d, r), w))) == 0
  {
    hide Add, Mul;
    MulComm(x, v);
    var mw, rw, dw, tx := Mul(m, w), Mul(r, w), Mul(d, w), Mul(t, x);
    var mxw := Mul(Mul(m, x), w);
    MulAddLeft(Mul(m, x), d, w);
    MulAddLeft(d, r, w);
    // (mxw + dw) + (tx + (dw + rw)) == mxw + (tx + rw)
    AddSwap(tx, dw, rw);
    AddAssoc(mxw, dw, Add(dw, Add(tx, rw)));
    AddCancel(dw, Add(tx, rw));
    // and x (mw + (rv + t)) is the same sum
    MulAddRight(x, mw, Add(Mul(r, v), t));
    MulAddRight(x, Mul(r, v), t);
    MulZero(x);
    MulSwap(x, r, v);
    MulComm(x, t);
    MulSwap(x, m, w);
    MulAssoc(m, x, w);
    AddComm(tx, rw);
  }

  // ---- divisibility: codewords are the multiples of the generator polynomial

  // The word is q times the generator, at every element of the field.
  ghost predicate IsMultiple(data: seq<Byte>, q: seq<Byte>, nroots: nat) {
    forall x: Byte :: Horner(data, x) == Mul(Eval(Generator(nroots), x), Eval(q, x))
  }

  lemma RootsDistinct(i: nat, j: nat)
    requires i < j < 135
    ensures Root(i) != Root(j)
  {
    hide AlphaPow;
    AlphaInjective(GF_FCR + i, GF_FCR + j);
  }

  // Dividing out the n roots one after another.
  lemma {:induction false} DivideOut(p: seq<Byte>, n: nat) returns (q: seq<Byte>)
    requires n <= |p| && n <= 135
    requires forall j :: 0 <= j < n ==> Eval(p, Root(j)) == 0
    ensures |q| == |p| - n
    ensures forall x: Byte :: Eval(p, x) == Mul(Eval(Generator(n), x), Eval(q, x))
    decreases n
  {
    hide Mul, Add, Eval, Quot, Root, TimesLinear;
    if n == 0 {
      q := p;
      forall x: Byte
        ensures Eval(p, x) == Mul(Eval(Generator(0), x), Eval(p, x))
      {
        GeneratorOne(x);
        MulOne(Eval(p, x));
      }
    } else {
      var a := Root(n - 1);
      forall j | 0 <= j < n - 1
        ensures Eval(Quot(p, a), Root(j)) == 0
      {
        RootsDistinct(j, n - 1);
        RootOfQuot(p, a, Root(j));
      }
      q := DivideOut(Quot(p, a), n - 1);
      forall x: Byte
        ensures Eval(p, x) == Mul(Eval(Generator(n), x), Eval(q, x))
      {
        EvalQuot(p, a, x);
        AddZero(Mul(Add(x, a), Eval(Quot(p, a), x)));
        EvalTimesLinear(Generator(n - 1), a, x);
        MulAssoc(Add(x, a), Eval(Generator(n - 1), x), Eval(q, x));
      }
    }
  }

  lemma GeneratorOne(x: Byte)
    ensures Eval(Generator(0), x) == 1
  {
  }

  // A word is a codeword exactly when it is a multiple of the generator.
  lemma CodewordsAreMultiples(data: seq<Byte>, nroots: nat)
    requires nroots <= |data| && nroots <= 135
    ensures IsCodeword(data, nroots)
       <==> exists q: seq<Byte> :: |q| == |data| - nroots && IsMultiple(data, q, nroots)
  {
    hide Mul, Eval, Horner, Root, Generator;
    if IsCodeword(data, nroots) {
      var q := MultipleOf(data, nroots);
      assert |q| == |data| - nroots && IsMultiple(data, q, nroots);
    }
    if q: seq<Byte> :| |q| == |data| - nroots && IsMultiple(data, q, nroots) {
      forall j | 0 <= j < nroots
        ensures Horner(data, Root(j)) == 0
      {
        GeneratorVanishes(nroots, j);
        MulZero(Eval(q, Root(j)));
        MulComm(0, Eval(q, Root(j)));
      }
    }
  }

  lemma MultipleOf(data: seq<Byte>, nroots: nat) returns (q: seq<Byte>)
    requires nroots <= |data| && nroots <= 135 && IsCodeword(data, nroots)
    ensures |q| == |data| - nroots && IsMultiple(data, q, nroots)
  {
    hide Mul, Eval, Horner, Root, Generator, Reversed;
    var p := Reversed(data);
    ReversedTwice(data);
    forall j | 0 <= j < nroots
      ensures Eval(p, Root(j)) == 0
    {
      HornerReversed(p, Root(j));
      assert Syndromes(data, nroots)[j] == 0;
    }
    q := DivideOut(p, nroots);
    forall x: Byte
      ensures Horner(data, x) == Mul(Eval(Generator(nroots), x), Eval(q, x))
    {
      HornerReversed(p, x);
    }
  }

  lemma ReversedTwice(g: seq<Byte>)
    ensures |Reversed(g)| == |g| && Reversed(Reversed(g)) == g
  {
  }
}

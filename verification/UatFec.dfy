// The table-driven codec of components/demod978/uat_fec.c.
module UatFec {
  import opened Bits
  import opened Bytes
  import opened Gf256
  import opened Poly
  import opened Lfsr
  import opened Locator
  import opened BerlekampMassey
  import opened RsCode
  import opened RsDecoding
  import opened RsLoops

  const MAX_NROOTS := 20

  const UPLINK_BLOCKS := 6
  const UPLINK_N := 92
  const UPLINK_K := 72
  const UPLINK_NROOTS := 20
  const UPLINK_FRAME_BYTES := 552
  const UPLINK_DATA_BYTES := 432

  // The file's static tables and the routines over them.
  class Codec {
    const gfExp: array<Byte>
    const gfLog: array<Byte>
    var ready: bool

    ghost predicate Valid()
      reads this, gfExp, gfLog
    {
      && gfExp.Length == 512 && gfLog.Length == 256 && gfExp != gfLog
      && (ready ==> ExpTable(gfExp[..], 512) && LogTable(gfLog[..]))
    }

    constructor ()
      ensures Valid() && !ready && fresh(gfExp) && fresh(gfLog)
    {
      gfExp := new Byte[512](_ => 0);
      gfLog := new Byte[256](_ => 0);
      ready := false;
    }

    method Init()
      requires Valid()
      modifies this, gfExp, gfLog
      ensures Valid() && ready
    {
      hide AlphaPow, LogTable;
      if ready {
        return;
      }
      FillCycle();
      ghost var logs := gfLog[..];
      gfLog[0] := 0;
      LogTableComplete(logs, gfLog[..]);
      for i := 255 to 512
        invariant ExpTable(gfExp[..], i)
        invariant LogTable(gfLog[..])
      {
        AlphaPeriod(i - 255, 1);
        gfExp[i] := gfExp[i - 255];
      }
      ready := true;
    }

    // ---- field arithmetic by table lookup

    function GfMul(a: Byte, b: Byte): (r: Byte)
      requires Valid() && ready
      reads this, gfExp, gfLog
      ensures r == Mul(a, b)
    {
      MulZero(a);
      MulZero(b);
      if a == 0 || b == 0 then 0
      else
        AlphaPowAdd(gfLog[a], gfLog[b]);
        gfExp[gfLog[a] as int + gfLog[b] as int]
    }

    function GfInv(a: Byte): (r: Byte)
      requires Valid() && ready && a != 0
      reads this, gfExp, gfLog
      ensures r == Inv(a)
    {
      LogUnique(a, gfLog[a]);
      gfExp[255 - gfLog[a]]
    }

    // alpha^p for any p; the remainder of C's division truncates toward zero.
    function GfAlphaPow(p: int): (r: Byte)
      requires Valid() && ready
      reads this, gfExp, gfLog
      ensures r == AlphaInt(p)
    {
      var e := TruncRem(p, 255);
      TruncRemFolds(p);
      gfExp[if e < 0 then e + 255 else e]
    }

    // ---- encoder

    method BuildGenerator(gen: array<Byte>, nroots: nat)
      requires Valid() && ready && gen != gfExp && gen != gfLog
      requires nroots <= MAX_NROOTS && gen.Length == MAX_NROOTS + 1
      modifies gen
      ensures gen[..nroots + 1] == Generator(nroots)
    {
      hide Add, Mul, TimesLinear, AlphaPow, AlphaInt, Generator;
      for i := 0 to nroots + 1 {
        gen[i] := 0;
      }
      gen[0] := 1;
      var glen := 1;
      GeneratorStart();
      for j := 0 to nroots
        invariant glen == j + 1
        invariant gen[..glen] == Generator(j)
      {
        AlphaIntNat(GF_FCR + j);
        var root := GfAlphaPow(GF_FCR + j);
        MultiplyIn(gen, glen, root);
        GeneratorNext(j);
        glen := glen + 1;
      }
    }

    // gen *= (x - root), in place from the highest coefficient down.
    method MultiplyIn(gen: array<Byte>, glen: nat, root: Byte)
      requires Valid() && ready && gen != gfExp && gen != gfLog
      requires 0 < glen < gen.Length
      modifies gen
      ensures gen[..glen + 1] == TimesLinear(old(gen[..glen]), root)
    {
      hide Add, Mul, TimesLinear;
      ghost var g := gen[..glen];
      gen[glen] := 0;
      for i := glen + 1 downto 1
        invariant forall l :: 0 <= l < i && l < glen ==> gen[l] == g[l]
        invariant i == glen + 1 ==> gen[glen] == 0
        invariant forall l :: i <= l <= glen ==> gen[l] == TimesLinear(g, root)[l]
      {
        TimesLinearAt(g, root, i);
        MulComm(gen[i], root);
        gen[i] := Add(gen[i - 1], GfMul(gen[i], root));
      }
      TimesLinearAt(g, root, 0);
      MulComm(gen[0], root);
      AddZero(Mul(root, g[0]));
      gen[0] := GfMul(gen[0], root);
    }

    // Systematic encoding: parity bytes data[k..n] are computed in place from data[..k].
    method Encode(data: array<Byte>, n: nat, k: nat)
      requires Valid() && data != gfExp && data != gfLog
      requires k < n <= data.Length && n - k <= MAX_NROOTS
      modifies this, gfExp, gfLog, data
      ensures Valid() && ready
      ensures data[..k] == old(data[..k]) && data[n..] == old(data[n..])
      ensures IsCodeword(data[..n], n - k)
    {
      hide Add, Mul, AlphaPow, Horner, RegisterStep;
      Init();
      var nroots := n - k;
      var gen := new Byte[MAX_NROOTS + 1](_ => 0);
      BuildGenerator(gen, nroots);
      for i := k to n
        invariant Valid() && ready && gen[..nroots + 1] == Generator(nroots)
        invariant data[..k] == old(data[..k]) && data[n..] == old(data[n..])
        invariant AllZero(data[k..i])
      {
        data[i] := 0;
      }
      EncodeInit(data[k..n]);
      assert data[..0] + data[k..n] == data[k..n];
      for i := 0 to k
        invariant Valid() && ready && gen[..nroots + 1] == Generator(nroots)
        invariant data[..k] == old(data[..k]) && data[n..] == old(data[n..])
        invariant IsCodeword(data[..i] + data[k..n], nroots)
      {
        FeedByte(data, n, k, i, gen);
      }
      assert data[..k] + data[k..n] == data[..n];
    }

    // Feed message byte i through the parity register.
    method FeedByte(data: array<Byte>, n: nat, k: nat, i: nat, gen: array<Byte>)
      requires Valid() && ready && data != gfExp && data != gfLog && data != gen
      requires i < k < n <= data.Length && n - k < gen.Length
      requires gen[..n - k + 1] == Generator(n - k)
      requires IsCodeword(data[..i] + data[k..n], n - k)
      modifies data
      ensures data[..k] == old(data[..k]) && data[n..] == old(data[n..])
      ensures IsCodeword(data[..i + 1] + data[k..n], n - k)
    {
      hide Add, Mul, IsCodeword, RegisterStep, Generator;
      ghost var msg, reg := data[..i], data[k..n];
      var fb := Add(data[i], data[k]);
      ShiftRegister(data, n, k, fb, gen);
      EncodeByte(msg, data[i], reg, n - k);
      assert data[..i] == data[..k][..i] == old(data[..k])[..i] == msg;
      assert data[i] == data[..k][i] == old(data[..k])[i] == old(data[i]);
      assert data[..i + 1] == msg + [data[i]];
    }

    // data[k..n] shifted left by one byte, with fb times the generator mixed in.
    method ShiftRegister(data: array<Byte>, n: nat, k: nat, fb: Byte, gen: array<Byte>)
      requires Valid() && ready && data != gfExp && data != gfLog && data != gen
      requires k < n <= data.Length && n - k < gen.Length
      modifies data
      ensures data[..k] == old(data[..k]) && data[n..] == old(data[n..])
      ensures data[k..n] == RegisterStep(old(data[k..n]), fb, gen[..n - k + 1])
    {
      hide Add, Mul, RegisterStep;
      ghost var reg, g := data[k..n], gen[..n - k + 1];
      var nroots := n - k;
      if fb != 0 {
        for j := 0 to nroots - 1
          invariant data[..k] == old(data[..k]) && data[n..] == old(data[n..])
          invariant forall l :: j <= l < nroots ==> data[k + l] == reg[l]
          invariant forall l :: 0 <= l < j ==> data[k + l] == RegisterStep(reg, fb, g)[l]
        {
          RegisterStepAt(reg, fb, g, j);
          data[k + j] := Add(data[k + j + 1], GfMul(fb, gen[nroots - 1 - j]));
        }
        RegisterStepAt(reg, fb, g, nroots - 1);
        AddZero(Mul(fb, gen[0]));
        data[n - 1] := GfMul(fb, gen[0]);
      } else {
        for j := 0 to nroots - 1
          invariant data[..k] == old(data[..k]) && data[n..] == old(data[n..])
          invariant forall l :: j <= l < nroots ==> data[k + l] == reg[l]
          invariant forall l :: 0 <= l < j ==> data[k + l] == RegisterStep(reg, fb, g)[l]
        {
          RegisterStepAt(reg, fb, g, j);
          MulZero(gen[nroots - 1 - j]);
          AddZero(data[k + j + 1]);
          data[k + j] := data[k + j + 1];
        }
        RegisterStepAt(reg, fb, g, nroots - 1);
        MulZero(gen[0]);
        AddZero(0);
        data[n - 1] := 0;
      }
      assert data[k..n] == RegisterStep(reg, fb, g);
    }

    // ---- decoder

    method ComputeSyndromes(data: array<Byte>, n: nat, nroots: nat, synd: array<Byte>) returns (allZero: bool)
      requires Valid() && ready && synd != gfExp && synd != gfLog && synd != data
      requires n <= data.Length && nroots <= synd.Length
      modifies synd
      ensures synd[..nroots] == Syndromes(data[..n], nroots)
      ensures allZero <==> IsCodeword(data[..n], nroots)
    {
      hide Add, Mul, AlphaPow, AlphaInt, Horner;
      allZero := true;
      for j := 0 to nroots
        invariant forall l :: 0 <= l < j ==> synd[l] == Horner(data[..n], Root(l))
        invariant allZero <==> forall l :: 0 <= l < j ==> synd[l] == 0
      {
        AlphaIntNat(GF_FCR + j);
        var root := GfAlphaPow(GF_FCR + j);
        var s := HornerLoop(data, n, root);
        synd[j] := s;
        if s != 0 {
          allZero := false;
        }
      }
    }

    method HornerLoop(data: array<Byte>, n: nat, root: Byte) returns (s: Byte)
      requires Valid() && ready && n <= data.Length
      ensures s == Horner(data[..n], root)
    {
      hide Add, Mul, Horner;
      HornerEmpty(root);
      assert data[..0] == [];
      s := 0;
      for i := 0 to n
        invariant s == Horner(data[..i], root)
      {
        HornerSnoc(data[..i], data[i], root);
        assert data[..i + 1] == data[..i] + [data[i]];
        s := Add(GfMul(s, root), data[i]);
      }
    }

    // delta = S_r + sum_{i = 1..L} lambda_i S_{r - i}
    method Discrepancy(synd: array<Byte>, nroots: nat, lambda: array<Byte>, L: nat, r: nat) returns (delta: Byte)
      requires Valid() && ready && L <= r < nroots <= synd.Length && nroots < lambda.Length
      requires lambda[0] == 1 && DegreeAtMost(lambda[..], L)
      ensures delta == Disc(lambda[..], synd[..nroots], r)
    {
      hide Add, Mul, Disc;
      ghost var s := synd[..nroots];
      delta := synd[r];
      DiscOne(s, r);
      assert lambda[..1] == [1];
      for i := 1 to L + 1
        invariant delta == Disc(lambda[..i], s, r)
      {
        DiscAppend(lambda[..i], lambda[i], s, r);
        assert lambda[..i + 1] == lambda[..i] + [lambda[i]];
        delta := Add(delta, GfMul(lambda[i], synd[r - i]));
      }
      DiscTrim(lambda[..], L, s, r);
      assert lambda[..][..L + 1] == lambda[..L + 1];
    }

    // lambda(x) -= coef x^m prev(x), in place.
    method Correct(lambda: array<Byte>, coef: Byte, prev: array<Byte>, m: nat, nroots: nat)
      requires Valid() && ready && lambda != gfExp && lambda != gfLog && lambda != prev
      requires lambda.Length == prev.Length > nroots
      modifies lambda
      ensures lambda[..] == Corrected(old(lambda[..]), coef, prev[..], m, nroots)
    {
      hide Add, Mul;
      ghost var before := lambda[..];
      var i := 0;
      while i + m <= nroots
        invariant forall l :: 0 <= l < lambda.Length ==>
          lambda[l] == if m <= l <= nroots && l < i + m then Add(before[l], Mul(coef, prev[l - m])) else before[l]
        decreases nroots - i
      {
        lambda[i + m] := Add(lambda[i + m], GfMul(coef, prev[i]));
        i := i + 1;
      }
    }

    // Correct lambda and keep its old value as the previous locator.
    method Lengthen(lambda: array<Byte>, coef: Byte, prev: array<Byte>, tmp: array<Byte>, m: nat, nroots: nat)
      requires Valid() && ready && lambda != gfExp && lambda != gfLog && prev != gfExp && prev != gfLog
      requires tmp != gfExp && tmp != gfLog && lambda != prev && tmp != lambda && tmp != prev
      requires lambda.Length == prev.Length == tmp.Length > nroots
      modifies lambda, prev, tmp
      ensures lambda[..] == Corrected(old(lambda[..]), coef, old(prev[..]), m, nroots)
      ensures prev[..] == old(lambda[..])
    {
      hide Corrected;
      Copy(tmp, lambda);
      Correct(lambda, coef, prev, m, nroots);
      Copy(prev, tmp);
    }

    // Berlekamp-Massey: lambda generates the syndromes, and nothing shorter than L does.
    method FindLocator(synd: array<Byte>, nroots: nat, lambda: array<Byte>) returns (L: nat)
      requires Valid() && ready && lambda != gfExp && lambda != gfLog && lambda != synd
      requires synd.Length == MAX_NROOTS && nroots <= MAX_NROOTS && lambda.Length == MAX_NROOTS + 1
      modifies lambda
      ensures Generates(lambda[..], L, synd[..nroots], nroots)
      ensures Minimal(L, synd[..nroots], nroots) && L <= nroots
    {
      hide Disc, Generates, Minimal;
      ghost var s := synd[..nroots];
      var prev := new Byte[MAX_NROOTS + 1](_ => 0);
      var tmp := new Byte[MAX_NROOTS + 1](_ => 0);
      SetToOne(lambda);
      SetToOne(prev);
      L := 0;
      var m, b := 1, 1;
      assert lambda[..] == prev[..];
      InvariantInit(lambda[..], s);
      for r := 0 to nroots
        invariant synd[..nroots] == s
        invariant Invariant(lambda[..], prev[..], L, m, b, s, r)
      {
        L, m, b := Iterate(synd, nroots, lambda, prev, tmp, L, m, b, r);
      }
    }

    // One iteration, on syndrome r.
    method Iterate(synd: array<Byte>, nroots: nat, lambda: array<Byte>, prev: array<Byte>, tmp: array<Byte>,
                   L: nat, m: nat, b: Byte, r: nat) returns (L': nat, m': nat, b': Byte)
      requires Valid() && ready && lambda != gfExp && lambda != gfLog && prev != gfExp && prev != gfLog
      requires tmp != gfExp && tmp != gfLog && lambda != prev && tmp != lambda && tmp != prev
      requires synd != lambda && synd != prev && synd != tmp
      requires r < nroots <= synd.Length && lambda.Length == prev.Length == tmp.Length > nroots
      requires Invariant(lambda[..], prev[..], L, m, b, synd[..nroots], r)
      modifies lambda, prev, tmp
      ensures Invariant(lambda[..], prev[..], L', m', b', synd[..nroots], r + 1)
    {
      hide Add, Mul, Disc, Corrected, Generates, Minimal, Invariant;
      ghost var s := synd[..nroots];
      InvariantHead(lambda[..], prev[..], L, m, b, s, r);
      var delta := Discrepancy(synd, nroots, lambda, L, r);
      L', m', b' := L, m + 1, b;
      if delta == 0 {
        StepNoDiscrepancy(lambda[..], prev[..], L, m, b, s, r);
      } else {
        CoefficientCancels(delta, b);
        var coef := GfMul(delta, GfInv(b));
        if 2 * L <= r {
          StepLengthChange(lambda[..], prev[..], L, m, b, s, r, coef);
          Lengthen(lambda, coef, prev, tmp, m, nroots);
          L', b', m' := r + 1 - L, delta, 1;
        } else {
          StepSameLength(lambda[..], prev[..], L, m, b, s, r, coef);
          Correct(lambda, coef, prev, m, nroots);
        }
      }
    }

    // sum_{i < count} p_i x^i
    method EvaluateAt(p: array<Byte>, count: nat, x: Byte) returns (v: Byte)
      requires Valid() && ready && count <= p.Length
      ensures v == Eval(p[..count], x)
    {
      hide Add, Mul, Pow, Eval;
      v := 0;
      var xp: Byte := 1;
      PowZero(x);
      EvalShort(p[..0], x);
      for i := 0 to count
        invariant v == Eval(p[..i], x) && xp == Pow(x, i)
      {
        EvalSnoc(p[..i], p[i], x);
        assert p[..i + 1] == p[..i] + [p[i]];
        PowSnoc(x, i);
        v := Add(v, GfMul(p[i], xp));
        xp := GfMul(xp, x);
      }
    }

    // Chien search: the byte indices whose inverse locator is a root of lambda. Only the first
    // MAX_NROOTS are stored; all are counted.
    method FindRoots(lambda: array<Byte>, L: nat, n: nat, errPos: array<nat>) returns (nerr: nat)
      requires Valid() && ready
      requires L < lambda.Length && DegreeAtMost(lambda[..], L) && errPos.Length == MAX_NROOTS
      modifies errPos
      ensures nerr == |RootPositions(lambda[..], n, n)|
      ensures nerr <= MAX_NROOTS ==> errPos[..nerr] == RootPositions(lambda[..], n, n)
    {
      hide Add, Mul, Eval, AlphaInt;
      nerr := 0;
      for idx := 0 to n
        invariant Valid() && ready
        invariant nerr == |RootPositions(lambda[..], n, idx)|
        invariant forall l :: 0 <= l < nerr && l < MAX_NROOTS ==> errPos[l] == RootPositions(lambda[..], n, idx)[l]
      {
        var p := n - 1 - idx;
        var xInv := GfAlphaPow(-p);
        var eval := EvaluateAt(lambda, L + 1, xInv);
        EvalTrimmed(lambda[..], L, xInv);
        assert lambda[..][..L + 1] == lambda[..L + 1];
        if eval == 0 {
          if nerr < MAX_NROOTS {
            errPos[nerr] := idx;
          }
          nerr := nerr + 1;
        }
      }
    }

    // Omega(x) = S(x) lambda(x) mod x^nroots
    method ComputeOmega(synd: array<Byte>, lambda: array<Byte>, nroots: nat, omega: array<Byte>)
      requires Valid() && ready && omega != gfExp && omega != gfLog && omega != synd && omega != lambda
      requires nroots <= synd.Length && nroots <= omega.Length && nroots < lambda.Length
      modifies omega
      ensures omega[..nroots] == Evaluator(lambda[..], synd[..nroots], nroots)
    {
      hide Add, Mul, Disc;
      ghost var s, c := synd[..nroots], lambda[..];
      for i := 0 to nroots
        invariant Valid() && ready
        invariant synd[..nroots] == s && lambda[..] == c
        invariant forall l :: 0 <= l < i ==> omega[l] == Disc(c, s, l)
      {
        var acc := OmegaCoefficient(synd, lambda, nroots, i);
        omega[i] := acc;
      }
    }

    method OmegaCoefficient(synd: array<Byte>, lambda: array<Byte>, nroots: nat, i: nat) returns (acc: Byte)
      requires Valid() && ready && i < nroots <= synd.Length && nroots < lambda.Length
      ensures acc == Disc(lambda[..], synd[..nroots], i)
    {
      hide Add, Mul, Disc;
      ghost var s, c := synd[..nroots], lambda[..];
      acc := 0;
      DiscAllZero(c[..0], s, i);
      for j := 0 to i + 1
        invariant acc == Disc(c[..j], s, i)
      {
        DiscAppend(c[..j], c[j], s, i);
        assert c[..j + 1] == c[..j] + [c[j]];
        MulComm(c[j], s[i - j]);
        acc := Add(acc, GfMul(synd[i - j], lambda[j]));
      }
      DiscPrefix(c, s, i);
    }

    // lambda'(x): the odd coefficients, each times x^(i - 1).
    method Derivative(lambda: array<Byte>, L: nat, x: Byte) returns (deriv: Byte)
      requires Valid() && ready && L < lambda.Length
      ensures deriv == Deriv(lambda[..L + 1], x)
    {
      hide Add, Mul, Pow, EvenEval;
      ghost var t := lambda[1..L + 1];
      deriv := 0;
      var xq: Byte := 1;
      var i := 1;
      PowZero(x);
      EvenEvalEmpty(x);
      assert t[..0] == [];
      while i <= L
        invariant i % 2 == 1 && i <= L + 2
        invariant xq == Pow(x, i - 1)
        invariant deriv == EvenEval(t[..if i <= L + 1 then i - 1 else L], x)
      {
        DerivativeStep(t, i - 1, x);
        deriv := Add(deriv, GfMul(lambda[i], xq));
        xq := GfMul(xq, GfMul(x, x));
        i := i + 2;
      }
      assert t[..L] == t;
      assert lambda[..L + 1][1..] == t;
    }

    // Forney: the magnitude for the byte of power p.
    method Magnitude(lambda: array<Byte>, L: nat, omega: array<Byte>, nroots: nat, p: int, ghost s: seq<Byte>)
        returns (mag: Byte)
      requires Valid() && ready && L < lambda.Length && L <= nroots <= omega.Length
      requires p >= 0 && |s| == nroots && Generates(lambda[..], L, s, nroots)
      requires omega[..nroots] == Evaluator(lambda[..], s, nroots)
      requires Deriv(Trimmed(lambda[..], L), AlphaInt(-p)) != 0
      ensures MagnitudeAt(Trimmed(lambda[..], L), s, L, p, mag)
    {
      hide Add, Mul, AlphaInt, AlphaPow, Eval, Deriv, Evaluator, Inv, Disc;
      var xl := GfAlphaPow(p);
      InvAlpha(p);
      var xlInv := GfInv(xl);
      var omegaVal := EvaluateAt(omega, nroots, xlInv);
      EvaluatorTruncated(lambda[..], s, L, xlInv);
      var deriv := Derivative(lambda, L, xlInv);
      assert lambda[..][..L + 1] == lambda[..L + 1];
      // Non-zero once the root count equals L, so the source's exit for a zero derivative is
      // never taken.
      assert deriv != 0;
      var scale := GfAlphaPow(p * (1 - GF_FCR));
      mag := GfMul(scale, GfMul(omegaVal, GfInv(deriv)));
    }

    // Decode data[..n] in place: the number of corrected symbols, or -1.
    method Decode(data: array<Byte>, n: nat, k: nat) returns (c: int)
      requires Valid() && data != gfExp && data != gfLog
      requires k <= n <= data.Length && n <= 255 && n - k <= MAX_NROOTS
      modifies this, gfExp, gfLog, data
      ensures Valid() && ready
      ensures DecodesTo(old(data[..n]), data[..n], c, n - k)
      ensures data[n..] == old(data[n..])
    {
      hide IsCodeword, DecodesTo, Generates, Minimal, RootPositions, Evaluator;
      Init();
      var nroots := n - k;
      ghost var r := data[..n];
      var synd := new Byte[MAX_NROOTS](_ => 0);
      var allZero := ComputeSyndromes(data, n, nroots, synd);
      if allZero {
        CleanOutcome(r, nroots);
        return 0;
      }
      var lambda := new Byte[MAX_NROOTS + 1](_ => 0);
      var L := FindLocator(synd, nroots, lambda);
      if L <= 0 || L > nroots / 2 {
        LengthRejected(r, nroots, lambda[..], L);
        return -1;
      }
      c := Repair(data, n, nroots, synd, lambda, L);
    }

    // Chien search, Forney magnitudes and the corrections, once the locator is known.
    method Repair(data: array<Byte>, n: nat, nroots: nat, synd: array<Byte>, lambda: array<Byte>, L: nat) returns (c: int)
      requires Valid() && ready && data != gfExp && data != gfLog && data != lambda && data != synd
      requires n <= data.Length && n <= 255 && nroots <= MAX_NROOTS && 0 < L <= nroots / 2
      requires synd.Length == MAX_NROOTS && synd[..nroots] == Syndromes(data[..n], nroots)
      requires lambda.Length == MAX_NROOTS + 1 && Generates(lambda[..], L, synd[..nroots], nroots)
      requires Minimal(L, synd[..nroots], nroots)
      modifies data
      ensures DecodesTo(old(data[..n]), data[..n], c, nroots)
      ensures data[n..] == old(data[n..])
    {
      hide IsCodeword, DecodesTo, Generates, Minimal, RootPositions, Evaluator;
      ghost var r := data[..n];
      LocatorHead(lambda[..], L, synd[..nroots]);
      var errPos := new nat[MAX_NROOTS](_ => 0);
      var nerr := FindRoots(lambda, L, n, errPos);
      if nerr != L {
        RejectedOutcome(r, nroots, lambda[..], L);
        return -1;
      }
      var omega := new Byte[MAX_NROOTS](_ => 0);
      ComputeOmega(synd, lambda, nroots, omega);
      ghost var mags := ApplyCorrections(data, n, nroots, lambda, L, omega, errPos, r);
      AcceptedOutcome(r, nroots, lambda[..], L, errPos[..L], mags);
      c := nerr;
    }

    method ApplyCorrections(data: array<Byte>, n: nat, nroots: nat, lambda: array<Byte>, L: nat, omega: array<Byte>,
                            errPos: array<nat>, ghost r: seq<Byte>) returns (ghost mags: seq<Byte>)
      requires Valid() && ready && data != gfExp && data != gfLog && data != lambda && data != omega
      requires n <= data.Length && n <= 255 && L < lambda.Length && L <= nroots <= omega.Length && L <= errPos.Length
      requires r == data[..n] && Generates(lambda[..], L, Syndromes(r, nroots), nroots)
      requires omega[..nroots] == Evaluator(lambda[..], Syndromes(r, nroots), nroots)
      requires errPos[..L] == RootPositions(lambda[..], n, n)
      modifies data
      ensures Magnitudes(Trimmed(lambda[..], L), Syndromes(r, nroots), n, errPos[..L], mags)
      ensures data[..n] == Apply(r, errPos[..L], mags, L)
      ensures data[n..] == old(data[n..])
    {
      hide Add, Generates, RootPositions, Evaluator, Syndromes, MagnitudeAt, Deriv, AlphaInt, Trimmed, Apply;
      ghost var s, pos := Syndromes(r, nroots), errPos[..L];
      mags := [];
      LocatorHead(lambda[..], L, s);
      ApplyNone(r, pos, mags);
      for e := 0 to L
        invariant data[n..] == old(data[n..])
        invariant |mags| == e
        invariant forall m :: 0 <= m < e ==> MagnitudeAt(Trimmed(lambda[..], L), s, L, n - 1 - pos[m], mags[m])
        invariant data[..n] == Apply(r, pos, mags, e)
      {
        DerivativeNonzero(lambda[..], L, n, pos, e);
        var mag := Magnitude(lambda, L, omega, nroots, n - 1 - errPos[e], s);
        ApplyNext(r, pos, mags, mag, e);
        mags := mags + [mag];
        data[errPos[e]] := Add(data[errPos[e]], mag);
      }
    }

    // Decode a received uplink frame: six byte-interleaved blocks, each corrected on its own,
    // their data parts concatenated. words[b] is what block b was decoded to: the codeword near
    // it, or itself where there is none.
    method UplinkDecode(frame: array<Byte>, dataOut: array<Byte>)
        returns (ok: bool, totalCorrected: int, blockErrors: int, ghost words: seq<seq<Byte>>)
      requires Valid() && frame != gfExp && frame != gfLog && dataOut != gfExp && dataOut != gfLog
      requires frame != dataOut && frame.Length == UPLINK_FRAME_BYTES && dataOut.Length == UPLINK_DATA_BYTES
      modifies this, gfExp, gfLog, dataOut
      ensures Valid() && ready
      ensures |words| == UPLINK_BLOCKS && Sized(words) && DecodedBlocks(frame[..], words)
      ensures forall b :: 0 <= b < UPLINK_BLOCKS ==>
                |words[b]| == UPLINK_N && dataOut[b * UPLINK_K..(b + 1) * UPLINK_K] == words[b][..UPLINK_K]
      ensures totalCorrected == SymbolsChanged(frame[..], words)
      ensures blockErrors == |Uncorrectable(frame[..], UPLINK_BLOCKS)|
      ensures ok <==> forall b :: 0 <= b < UPLINK_BLOCKS ==> Correctable(Block(frame[..], b), UPLINK_NROOTS)
    {
      hide DecodedBlocks, DecodedBlock, Correctable, SymbolsChanged, Slices;
      Init();
      ghost var f := frame[..];
      totalCorrected, blockErrors, words := 0, 0, [];
      NothingDecoded(f, dataOut[..]);
      for block := 0 to UPLINK_BLOCKS
        invariant Valid() && ready && frame[..] == f
        invariant |words| == block && Sized(words) && DecodedBlocks(f, words) && Slices(dataOut[..], words)
        invariant totalCorrected == SymbolsChanged(f, words) && blockErrors == |Uncorrectable(f, block)|
      {
        ghost var before := dataOut[..];
        var c;
        ghost var word;
        c, word := DecodeBlock(frame, block, dataOut);
        SlicesNext(before, dataOut[..], words, word);
        DecodedNext(f, words, word);
        ChangesNext(f, words, word);
        UncorrectableNext(f, block);
        words := words + [word];
        if c < 0 {
          UnrepairedUnchanged(Block(f, block), word);
          blockErrors := blockErrors + 1;
        } else {
          totalCorrected := totalCorrected + c;
        }
      }
      ok := blockErrors == 0;
      AllSlices(dataOut[..], words);
      AllUncorrectable(f);
    }

    method DecodeBlock(frame: array<Byte>, block: nat, dataOut: array<Byte>) returns (c: int, ghost word: seq<Byte>)
      requires Valid() && ready && frame != gfExp && frame != gfLog && dataOut != gfExp && dataOut != gfLog
      requires frame != dataOut && frame.Length == UPLINK_FRAME_BYTES && dataOut.Length == UPLINK_DATA_BYTES
      requires block < UPLINK_BLOCKS
      modifies this, gfExp, gfLog, dataOut
      ensures Valid() && ready
      ensures dataOut[..block * UPLINK_K] == old(dataOut[..block * UPLINK_K])
      ensures DecodedBlock(Block(frame[..], block), word)
      ensures |word| == UPLINK_N && dataOut[block * UPLINK_K..(block + 1) * UPLINK_K] == word[..UPLINK_K]
      ensures if Correctable(Block(frame[..], block), UPLINK_NROOTS) then c == Distance(Block(frame[..], block), word) else c == -1
    {
      hide DecodesTo, Correctable, Near, Distance;
      var cw := new Byte[UPLINK_N](_ => 0);
      for i := 0 to UPLINK_N
        invariant Valid() && ready
        invariant dataOut[..] == old(dataOut[..])
        invariant forall l :: 0 <= l < i ==> cw[l] == frame[l * UPLINK_BLOCKS + block]
      {
        cw[i] := frame[i * UPLINK_BLOCKS + block];
      }
      ghost var r := Block(frame[..], block);
      assert cw[..UPLINK_N] == r;
      c := Decode(cw, UPLINK_N, UPLINK_K);
      word := cw[..UPLINK_N];
      DecodedIs(r, word, c);
      for i := 0 to UPLINK_K
        invariant Valid() && ready && cw[..UPLINK_N] == word
        invariant dataOut[..block * UPLINK_K] == old(dataOut[..block * UPLINK_K])
        invariant dataOut[block * UPLINK_K..block * UPLINK_K + i] == word[..i]
      {
        dataOut[block * UPLINK_K + i] := cw[i];
      }
    }

    // One walk around the multiplicative cycle.
    method FillCycle()
      requires Valid()
      modifies gfExp, gfLog
      ensures ExpTable(gfExp[..], 255) && LogsOf(gfLog[..], 255)
    {
      hide AlphaPow, XTime, Xor;
      var x: nat := 1;
      AlphaStart();
      for i := 0 to 255
        invariant x == AlphaPow(i)
        invariant ExpTable(gfExp[..], i)
        invariant LogsOf(gfLog[..], i)
      {
        LogsOfUpdate(gfLog[..], i);
        gfExp[i] := x;
        gfLog[x] := i;
        AlphaNext(i);
        x := 2 * x;
        if x >= 0x100 {
          x := Xor(x, GF_POLY);
        }
      }
    }
  }

  predicate ExpTable(t: seq<Byte>, n: nat) {
    |t| == 512 && n <= 512 && forall i :: 0 <= i < n ==> t[i] == AlphaPow(i)
  }

  // The logarithms of the first n powers are in place.
  predicate LogsOf(t: seq<Byte>, n: nat) {
    |t| == 256 && forall i: nat :: i < n ==> t[AlphaPow(i)] == i
  }

  predicate LogTable(t: seq<Byte>) {
    |t| == 256 && forall a :: 1 <= a < 256 ==> t[a] < 255 && AlphaPow(t[a]) == a
  }

  lemma AlphaNext(i: nat)
    ensures var v := AlphaPow(i);
      AlphaPow(i + 1) == if 2 * v >= 0x100 then Xor(2 * v, GF_POLY) else 2 * v
  {
  }

  lemma LogsOfUpdate(t: seq<Byte>, i: nat)
    requires i < 255 && LogsOf(t, i)
    ensures LogsOf(t[AlphaPow(i) := i], i + 1)
  {
    hide AlphaPow;
    forall j: nat | j < i
      ensures AlphaPow(j) != AlphaPow(i)
    {
      AlphaInjective(j, i);
    }
  }

  // Every non-zero byte has its logarithm; entry 0 is never consulted.
  lemma LogTableComplete(logs: seq<Byte>, t: seq<Byte>)
    requires LogsOf(logs, 255) && t == logs[0 := 0]
    ensures LogTable(t)
  {
    hide AlphaPow;
    forall a: Byte | 1 <= a
      ensures t[a] < 255 && AlphaPow(t[a]) == a
    {
      LogExists(a);
      var i: nat :| i < 255 && AlphaPow(i) == a;
      assert logs[a] == i;
    }
  }

  function TruncRem(a: int, b: int): int
    requires b > 0
  {
    if a >= 0 then a % b else -(-a % b)
  }

  lemma TruncRemFolds(p: int)
    ensures var e := TruncRem(p, 255); (if e < 0 then e + 255 else e) == p % 255
  {
  }

  lemma LogUnique(a: Byte, i: nat)
    requires a != 0 && i < 255 && AlphaPow(i) == a
    ensures i == Log(a)
  {
    hide AlphaPow;
    if i < Log(a) {
      AlphaInjective(i, Log(a));
    } else if Log(a) < i {
      AlphaInjective(Log(a), i);
    }
  }

  lemma GeneratorStart()
    ensures Generator(0) == [1]
  {
  }

  lemma GeneratorNext(j: nat)
    ensures Generator(j + 1) == TimesLinear(Generator(j), AlphaPow(GF_FCR + j))
  {
  }

  lemma EncodeInit(zeros: seq<Byte>)
    requires AllZero(zeros)
    ensures IsCodeword(zeros, |zeros|)
  {
    hide Horner, Root;
    forall j | 0 <= j < |zeros|
      ensures Horner(zeros, Root(j)) == 0
    {
      HornerAllZero(zeros, Root(j));
    }
  }

  lemma {:induction false} HornerAllZero(p: seq<Byte>, x: Byte)
    requires AllZero(p)
    ensures Horner(p, x) == 0
  {
    hide Add, Mul;
    if |p| != 0 {
      HornerAllZero(p[..|p| - 1], x);
      MulZero(x);
      AddZero(0);
    }
  }

  lemma HornerEmpty(x: Byte)
    ensures Horner([], x) == 0
  {
  }

  lemma EncodeByte(msg: seq<Byte>, d: Byte, reg: seq<Byte>, nroots: nat)
    requires |reg| == nroots > 0 && IsCodeword(msg + reg, nroots)
    ensures IsCodeword(msg + [d] + RegisterStep(reg, Add(d, reg[0]), Generator(nroots)), nroots)
  {
    hide Add, Horner, Root, RegisterStep, Generator;
    GeneratorMonic(nroots);
    forall j | 0 <= j < nroots
      ensures Horner(msg + [d] + RegisterStep(reg, Add(d, reg[0]), Generator(nroots)), Root(j)) == 0
    {
      GeneratorVanishes(nroots, j);
      assert Syndromes(msg + reg, nroots)[j] == 0;
      EncodeStep(msg, d, reg, Generator(nroots), Root(j));
    }
  }

  method SetToOne(p: array<Byte>)
    requires p.Length > 0
    modifies p
    ensures p[0] == 1 && DegreeAtMost(p[..], 0)
    ensures p[..] == [1] + Zeros(p.Length - 1)
  {
    for i := 0 to p.Length
      invariant AllZero(p[..i])
    {
      p[i] := 0;
    }
    p[0] := 1;
  }

  method Copy(dst: array<Byte>, src: array<Byte>)
    requires dst.Length == src.Length && dst != src
    modifies dst
    ensures dst[..] == src[..]
  {
    for i := 0 to src.Length
      invariant dst[..i] == src[..i]
    {
      dst[i] := src[i];
    }
  }

  lemma InvariantHead(lambda: seq<Byte>, prev: seq<Byte>, L: nat, m: nat, b: Byte, s: seq<Byte>, r: nat)
    requires Invariant(lambda, prev, L, m, b, s, r)
    ensures lambda[0] == 1 && DegreeAtMost(lambda, L) && L <= r && b != 0
  {
  }

  lemma CoefficientCancels(delta: Byte, b: Byte)
    requires b != 0
    ensures Mul(Mul(delta, Inv(b)), b) == delta
  {
    hide Mul, Inv;
    MulAssoc(delta, Inv(b), b);
    MulOne(delta);
  }

  lemma EvenEvalEmpty(x: Byte)
    ensures EvenEval([], x) == 0
  {
  }

  lemma DerivativeStep(t: seq<Byte>, k: nat, x: Byte)
    requires k % 2 == 0 && k < |t|
    ensures EvenEval(t[..k + 1], x) == Add(EvenEval(t[..k], x), Mul(t[k], Pow(x, k)))
    ensures k + 1 < |t| ==> EvenEval(t[..k + 2], x) == EvenEval(t[..k + 1], x)
    ensures Pow(x, k + 2) == Mul(Pow(x, k), Mul(x, x))
  {
    hide Add, Mul, EvenEval;
    assert t[..k + 1] == t[..k] + [t[k]];
    EvenEvalSnoc(t[..k], t[k], x);
    if k + 1 < |t| {
      assert t[..k + 2] == t[..k + 1] + [t[k + 1]];
      EvenEvalSkip(t[..k + 1], t[k + 1], x);
    }
    PowSnoc(x, k);
    PowSnoc(x, k + 1);
    MulAssoc(Pow(x, k), x, x);
  }

  lemma InvAlpha(p: int)
    requires p >= 0
    ensures AlphaInt(p) != 0 && Inv(AlphaInt(p)) == AlphaInt(-p)
  {
    hide Mul, AlphaPow;
    var x, y := AlphaInt(p), AlphaInt(-p);
    AlphaNonzero(p % 255);
    AlphaIntInverse(p);
    // y == y (x inv) == (y x) inv == inv
    MulAssoc(y, x, Inv(x));
    MulOne(y);
    MulOne(Inv(x));
  }

  // The evaluator has no terms beyond the locator's length.
  lemma EvaluatorTruncated(lambda: seq<Byte>, s: seq<Byte>, l: nat, x: Byte)
    requires l <= |s| && Generates(lambda, l, s, |s|)
    ensures Eval(Evaluator(lambda, s, |s|), x) == Eval(Evaluator(Trimmed(lambda, l), s, l), x)
  {
    hide Eval, Disc;
    var w := Evaluator(lambda, s, |s|);
    TrimmedDisc(lambda, l, s);
    assert w[..l] == Evaluator(Trimmed(lambda, l), s, l);
    assert w == w[..l] + w[l..];
    EvalAppendZeros(w[..l], w[l..], x);
  }

  lemma LocatorHead(lambda: seq<Byte>, L: nat, s: seq<Byte>)
    requires Generates(lambda, L, s, |s|)
    ensures |lambda| > 0 && lambda[0] == 1 && DegreeAtMost(lambda, L)
  {
  }

  lemma LengthRejected(r: seq<Byte>, nroots: nat, lambda: seq<Byte>, L: nat)
    requires |r| <= 255 && !IsCodeword(r, nroots) && (L == 0 || L > nroots / 2)
    requires Generates(lambda, L, Syndromes(r, nroots), nroots) && Minimal(L, Syndromes(r, nroots), nroots)
    ensures DecodesTo(r, r, -1, nroots)
  {
    hide Generates, Minimal, DecodesTo, RootPositions, Syndromes;
    if L == 0 {
      ZeroLength(lambda, Syndromes(r, nroots));
    } else {
      RejectedOutcome(r, nroots, lambda, L);
    }
  }

  lemma ApplyNone(r: seq<Byte>, pos: seq<nat>, mags: seq<Byte>)
    requires forall l :: 0 <= l < |pos| ==> pos[l] < |r|
    ensures Apply(r, pos, mags, 0) == r
  {
  }

  lemma ApplyNext(r: seq<Byte>, pos: seq<nat>, mags: seq<Byte>, mag: Byte, e: nat)
    requires |mags| == e < |pos| && forall l :: 0 <= l < |pos| ==> pos[l] < |r|
    ensures Apply(r, pos, mags + [mag], e) == Apply(r, pos, mags, e)
    ensures Apply(r, pos, mags + [mag], e + 1)
         == Apply(r, pos, mags, e)[pos[e] := Add(Apply(r, pos, mags, e)[pos[e]], mag)]
  {
    hide Add;
    ApplyPrefix(r, pos, mags, [mag], e);
  }

  lemma {:induction false} ApplyPrefix(r: seq<Byte>, pos: seq<nat>, mags: seq<Byte>, more: seq<Byte>, e: nat)
    requires e <= |mags| && e <= |pos| && forall l :: 0 <= l < |pos| ==> pos[l] < |r|
    ensures Apply(r, pos, mags + more, e) == Apply(r, pos, mags, e)
    decreases e
  {
    hide Add;
    if e != 0 {
      ApplyPrefix(r, pos, mags, more, e - 1);
    }
  }

  // ---- uplink frame

  // The codeword interleaved at offset `block`: on-air byte i * 6 + block is its byte i.
  function Block(frame: seq<Byte>, block: nat): (cw: seq<Byte>)
    requires |frame| == UPLINK_FRAME_BYTES && block < UPLINK_BLOCKS
    ensures |cw| == UPLINK_N
    ensures forall i :: 0 <= i < UPLINK_N ==> cw[i] == frame[i * UPLINK_BLOCKS + block]
  {
    seq(UPLINK_N, i requires 0 <= i < UPLINK_N => frame[i * UPLINK_BLOCKS + block])
  }

  // A block comes out as a codeword within reach, when there is one, and as it was received
  // otherwise.
  ghost predicate DecodedBlock(r: seq<Byte>, word: seq<Byte>) {
    |word| == |r| && if Correctable(r, UPLINK_NROOTS) then Near(r, word, UPLINK_NROOTS) else word == r
  }

  predicate Sized(words: seq<seq<Byte>>) {
    forall b :: 0 <= b < |words| ==> |words[b]| == UPLINK_N
  }

  ghost predicate DecodedBlocks(frame: seq<Byte>, words: seq<seq<Byte>>)
    requires |frame| == UPLINK_FRAME_BYTES && |words| <= UPLINK_BLOCKS
  {
    Sized(words) && forall b :: 0 <= b < |words| ==> DecodedBlock(Block(frame, b), words[b])
  }

  // An unrepaired block changes in no symbol, so only the correctable blocks add to the sum.
  ghost function SymbolsChanged(frame: seq<Byte>, words: seq<seq<Byte>>): nat
    requires |frame| == UPLINK_FRAME_BYTES && |words| <= UPLINK_BLOCKS && Sized(words)
  {
    if |words| == 0 then 0
    else
      var n := |words| - 1;
      SymbolsChanged(frame, words[..n]) + Distance(Block(frame, n), words[n])
  }

  // The blocks with no codeword in reach.
  ghost function Uncorrectable(frame: seq<Byte>, blocks: nat): set<nat>
    requires |frame| == UPLINK_FRAME_BYTES && blocks <= UPLINK_BLOCKS
  {
    set b: nat | b < blocks && !Correctable(Block(frame, b), UPLINK_NROOTS)
  }

  lemma AllUncorrectable(frame: seq<Byte>)
    requires |frame| == UPLINK_FRAME_BYTES
    ensures |Uncorrectable(frame, UPLINK_BLOCKS)| == 0
            <==> forall b :: 0 <= b < UPLINK_BLOCKS ==> Correctable(Block(frame, b), UPLINK_NROOTS)
  {
    hide Correctable, Block;
    var bad := Uncorrectable(frame, UPLINK_BLOCKS);
    if b :| 0 <= b < UPLINK_BLOCKS && !Correctable(Block(frame, b), UPLINK_NROOTS) {
      assert b in bad;
    }
    assert |bad| == 0 <==> bad == {};
  }

  ghost predicate Slices(data: seq<Byte>, words: seq<seq<Byte>>)
    requires |data| == UPLINK_DATA_BYTES && |words| <= UPLINK_BLOCKS
  {
    forall b :: 0 <= b < |words| ==> |words[b]| == UPLINK_N && data[b * UPLINK_K..(b + 1) * UPLINK_K] == words[b][..UPLINK_K]
  }

  lemma AllSlices(data: seq<Byte>, words: seq<seq<Byte>>)
    requires |data| == UPLINK_DATA_BYTES && |words| == UPLINK_BLOCKS && Slices(data, words)
    ensures forall b :: 0 <= b < UPLINK_BLOCKS ==>
              |words[b]| == UPLINK_N && data[b * UPLINK_K..(b + 1) * UPLINK_K] == words[b][..UPLINK_K]
  {
  }

  lemma NothingDecoded(frame: seq<Byte>, data: seq<Byte>)
    requires |frame| == UPLINK_FRAME_BYTES && |data| == UPLINK_DATA_BYTES
    ensures DecodedBlocks(frame, []) && Slices(data, []) && SymbolsChanged(frame, []) == 0
    ensures Uncorrectable(frame, 0) == {}
  {
  }

  lemma SlicesNext(before: seq<Byte>, after: seq<Byte>, words: seq<seq<Byte>>, word: seq<Byte>)
    requires |before| == |after| == UPLINK_DATA_BYTES && |words| < UPLINK_BLOCKS && Slices(before, words)
    requires before[..|words| * UPLINK_K] == after[..|words| * UPLINK_K] && |word| == UPLINK_N
    requires after[|words| * UPLINK_K..(|words| + 1) * UPLINK_K] == word[..UPLINK_K]
    ensures Slices(after, words + [word])
  {
    forall b | 0 <= b < |words|
      ensures after[b * UPLINK_K..(b + 1) * UPLINK_K] == words[b][..UPLINK_K]
    {
      EarlierSlice(before, after, |words|, b);
    }
  }

  lemma DecodedNext(frame: seq<Byte>, words: seq<seq<Byte>>, word: seq<Byte>)
    requires |frame| == UPLINK_FRAME_BYTES && |words| < UPLINK_BLOCKS && DecodedBlocks(frame, words)
    requires |word| == UPLINK_N && DecodedBlock(Block(frame, |words|), word)
    ensures DecodedBlocks(frame, words + [word])
  {
    hide Block, DecodedBlock;
  }

  lemma ChangesNext(frame: seq<Byte>, words: seq<seq<Byte>>, word: seq<Byte>)
    requires |frame| == UPLINK_FRAME_BYTES && |words| < UPLINK_BLOCKS && Sized(words) && |word| == UPLINK_N
    ensures Sized(words + [word])
    ensures SymbolsChanged(frame, words + [word]) == SymbolsChanged(frame, words) + Distance(Block(frame, |words|), word)
  {
    hide Block, Distance;
    assert (words + [word])[..|words|] == words;
  }

  lemma UnrepairedUnchanged(r: seq<Byte>, word: seq<Byte>)
    requires DecodedBlock(r, word) && !Correctable(r, UPLINK_NROOTS)
    ensures Distance(r, word) == 0
  {
    hide Correctable, Near, Distance;
    DistanceSelf(word);
  }

  lemma UncorrectableNext(frame: seq<Byte>, n: nat)
    requires |frame| == UPLINK_FRAME_BYTES && n < UPLINK_BLOCKS
    ensures
      |Uncorrectable(frame, n + 1)| ==
        |Uncorrectable(frame, n)| + (if Correctable(Block(frame, n), UPLINK_NROOTS) then 0 else 1)
  {
    hide Correctable, Block;
    var bad, worse := Uncorrectable(frame, n), Uncorrectable(frame, n + 1);
    assert worse == if Correctable(Block(frame, n), UPLINK_NROOTS) then bad else bad + {n};
  }

  lemma DecodedIs(r: seq<Byte>, d: seq<Byte>, c: int)
    requires DecodesTo(r, d, c, UPLINK_NROOTS)
    ensures DecodedBlock(r, d)
    ensures if Correctable(r, UPLINK_NROOTS) then c == Distance(r, d) else c == -1
  {
    hide Distance, IsCodeword;
    assert c >= 0 ==> Near(r, d, UPLINK_NROOTS);
  }

  // Writing block `block` leaves the slices of the blocks before it.
  lemma EarlierSlice(before: seq<Byte>, after: seq<Byte>, block: nat, b: nat)
    requires |before| == |after| == UPLINK_DATA_BYTES && b < block < UPLINK_BLOCKS
    requires before[..block * UPLINK_K] == after[..block * UPLINK_K]
    ensures after[b * UPLINK_K..(b + 1) * UPLINK_K] == before[b * UPLINK_K..(b + 1) * UPLINK_K]
  {
    var lo, hi, end := b * UPLINK_K, (b + 1) * UPLINK_K, block * UPLINK_K;
    assert before[lo..hi] == before[..end][lo..hi];
    assert after[lo..hi] == after[..end][lo..hi];
  }
}

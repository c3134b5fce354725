// Linear recurrences over GF(256): connection polynomials, discrepancies, and Massey's bound on
// the length of a recurrence, which makes every Berlekamp-Massey iteration minimal.
module Lfsr {
  import opened Bytes
  import opened Gf256
  import opened Poly

  function At(s: seq<Byte>, k: int): Byte {
    if 0 <= k < |s| then s[k] else 0
  }

  // The coefficient of x^k in c(x) s(x).
  function Disc(c: seq<Byte>, s: seq<Byte>, k: int): Byte
    decreases |c|
  {
    if |c| == 0 then 0 else Add(Mul(c[0], At(s, k)), Disc(c[1..], s, k - 1))
  }

  predicate DegreeAtMost(c: seq<Byte>, l: nat) {
    forall i :: l < i < |c| ==> c[i] == 0
  }

  predicate Annihilates(c: seq<Byte>, s: seq<Byte>, lo: int, hi: int) {
    forall k :: lo <= k < hi ==> Disc(c, s, k) == 0
  }

  // c is the connection polynomial of a recurrence of length l producing s[..r].
  predicate Generates(c: seq<Byte>, l: nat, s: seq<Byte>, r: nat) {
    |c| > 0 && c[0] == 1 && DegreeAtMost(c, l) && Annihilates(c, s, l, r)
  }

  // ---- Disc is linear in c and in s

  lemma {:induction false} DiscAdd(c: seq<Byte>, d: seq<Byte>, s: seq<Byte>, k: int)
    requires |c| == |d|
    ensures Disc(AddSeq(c, d), s, k) == Add(Disc(c, s, k), Disc(d, s, k))
    decreases |c|
  {
    hide Add, Mul;
    if |c| == 0 {
      AddZero(0);
    } else {
      var u, v, a := Disc(c[1..], s, k - 1), Disc(d[1..], s, k - 1), At(s, k);
      DiscAdd(c[1..], d[1..], s, k - 1);
      assert AddSeq(c, d)[1..] == AddSeq(c[1..], d[1..]);
      MulAddLeft(c[0], d[0], a);
      AddExchange(Mul(c[0], a), Mul(d[0], a), u, v);
    }
  }

  lemma {:induction false} DiscScale(a: Byte, c: seq<Byte>, s: seq<Byte>, k: int)
    ensures Disc(Scale(a, c), s, k) == Mul(a, Disc(c, s, k))
    decreases |c|
  {
    hide Add, Mul;
    if |c| == 0 {
      MulZero(a);
    } else {
      DiscScale(a, c[1..], s, k - 1);
      assert Scale(a, c)[1..] == Scale(a, c[1..]);
      MulAssoc(a, c[0], At(s, k));
      MulAddRight(a, Mul(c[0], At(s, k)), Disc(c[1..], s, k - 1));
    }
  }

  lemma {:induction false} DiscAddSequences(c: seq<Byte>, s: seq<Byte>, t: seq<Byte>, k: int)
    requires |s| == |t|
    ensures Disc(c, AddSeq(s, t), k) == Add(Disc(c, s, k), Disc(c, t, k))
    decreases |c|
  {
    hide Add, Mul;
    if |c| == 0 {
      AddZero(0);
    } else {
      DiscAddSequences(c[1..], s, t, k - 1);
      AddZero(0);
      assert At(AddSeq(s, t), k) == Add(At(s, k), At(t, k));
      MulAddRight(c[0], At(s, k), At(t, k));
      AddExchange(Mul(c[0], At(s, k)), Mul(c[0], At(t, k)), Disc(c[1..], s, k - 1), Disc(c[1..], t, k - 1));
    }
  }

  lemma {:induction false} DiscAllZero(c: seq<Byte>, s: seq<Byte>, k: int)
    requires AllZero(c)
    ensures Disc(c, s, k) == 0
    decreases |c|
  {
    hide Add, Mul;
    if |c| != 0 {
      DiscAllZero(c[1..], s, k - 1);
      MulZero(At(s, k));
      AddZero(0);
    }
  }

  lemma {:induction false} DiscAppend(c: seq<Byte>, x: Byte, s: seq<Byte>, k: int)
    ensures Disc(c + [x], s, k) == Add(Disc(c, s, k), Mul(x, At(s, k - |c|)))
    decreases |c|
  {
    hide Add, Mul;
    if |c| == 0 {
      assert ([x])[1..] == [];
      assert c + [x] == [x];
      AddZero(Mul(x, At(s, k)));
    } else {
      assert (c + [x])[1..] == c[1..] + [x];
      DiscAppend(c[1..], x, s, k - 1);
      AddAssoc(Mul(c[0], At(s, k)), Disc(c[1..], s, k - 1), Mul(x, At(s, k - |c|)));
    }
  }

  lemma {:induction false} DiscAppendZeros(c: seq<Byte>, z: seq<Byte>, s: seq<Byte>, k: int)
    requires AllZero(z)
    ensures Disc(c + z, s, k) == Disc(c, s, k)
    decreases |c|
  {
    hide Add, Mul;
    if |c| == 0 {
      assert c + z == z;
      DiscAllZero(z, s, k);
    } else {
      assert (c + z)[1..] == c[1..] + z;
      DiscAppendZeros(c[1..], z, s, k - 1);
    }
  }

  lemma DiscTrim(c: seq<Byte>, l: nat, s: seq<Byte>, k: int)
    requires DegreeAtMost(c, l) && l < |c|
    ensures Disc(c, s, k) == Disc(c[..l + 1], s, k)
  {
    assert c == c[..l + 1] + c[l + 1..];
    DiscAppendZeros(c[..l + 1], c[l + 1..], s, k);
  }

  // Multiplying c by x^m delays the discrepancy by m.
  lemma {:induction false} DiscShift(m: nat, c: seq<Byte>, s: seq<Byte>, k: int)
    ensures Disc(Zeros(m) + c, s, k) == Disc(c, s, k - m)
    decreases m
  {
    hide Add, Mul;
    if m == 0 {
      assert Zeros(0) + c == c;
    } else {
      assert (Zeros(m) + c)[1..] == Zeros(m - 1) + c;
      DiscShift(m - 1, c, s, k - 1);
      MulZero(At(s, k));
      AddZero(Disc(c, s, k - m));
    }
  }

  // ---- Massey's bound

  // The coefficient of x^r in c(x) d(x) s(x), summed along c.
  function Disc2(c: seq<Byte>, d: seq<Byte>, s: seq<Byte>, r: int): Byte
    decreases |c|
  {
    if |c| == 0 then 0 else Add(Mul(c[0], Disc(d, s, r)), Disc2(c[1..], d, s, r - 1))
  }

  lemma {:induction false} Disc2Cons(c: seq<Byte>, d: seq<Byte>, s: seq<Byte>, r: int)
    requires |d| > 0
    ensures Disc2(c, d, s, r) == Add(Mul(d[0], Disc(c, s, r)), Disc2(c, d[1..], s, r - 1))
    decreases |c|
  {
    hide Add, Mul;
    if |c| == 0 {
      MulZero(d[0]);
      AddZero(0);
    } else {
      var c0, d0, a := c[0], d[0], At(s, r);
      var cs, ds := Disc(c[1..], s, r - 1), Disc(d[1..], s, r - 1);
      var rest := Disc2(c[1..], d[1..], s, r - 2);
      Disc2Cons(c[1..], d, s, r - 1);
      // c0 (d0 a + ds) + (d0 cs + rest) == d0 (c0 a + cs) + (c0 ds + rest)
      MulAddRight(c0, Mul(d0, a), ds);
      MulAddRight(d0, Mul(c0, a), cs);
      MulSwap(c0, d0, a);
      AddAssoc(Mul(c0, Mul(d0, a)), Mul(c0, ds), Add(Mul(d0, cs), rest));
      AddAssoc(Mul(c0, Mul(d0, a)), Mul(d0, cs), Add(Mul(c0, ds), rest));
      AddSwap(Mul(c0, ds), Mul(d0, cs), rest);
    }
  }

  lemma {:induction false} Disc2Symmetric(c: seq<Byte>, d: seq<Byte>, s: seq<Byte>, r: int)
    ensures Disc2(c, d, s, r) == Disc2(d, c, s, r)
    decreases |d|
  {
    hide Add, Mul;
    if |d| == 0 {
      Disc2Empty(c, d, s, r);
    } else {
      Disc2Cons(c, d, s, r);
      Disc2Symmetric(c, d[1..], s, r - 1);
    }
  }

  lemma {:induction false} Disc2Empty(c: seq<Byte>, d: seq<Byte>, s: seq<Byte>, r: int)
    requires |d| == 0
    ensures Disc2(c, d, s, r) == 0
    decreases |c|
  {
    hide Add, Mul;
    if |c| != 0 {
      Disc2Empty(c[1..], d, s, r - 1);
      MulZero(c[0]);
      AddZero(0);
    }
  }

  lemma {:induction false} Disc2Zero(c: seq<Byte>, d: seq<Byte>, s: seq<Byte>, r: int)
    requires Annihilates(d, s, r - |c| + 1, r + 1)
    ensures Disc2(c, d, s, r) == 0
    decreases |c|
  {
    hide Add, Mul;
    if |c| != 0 {
      assert Annihilates(d, s, r - 1 - |c[1..]| + 1, r);
      Disc2Zero(c[1..], d, s, r - 1);
      assert Disc(d, s, r) == 0;
      MulZero(c[0]);
      AddZero(0);
    }
  }

  // If a recurrence of length l produces s[..r] but not s[r], then every recurrence producing
  // s[..r + 1] has length at least r + 1 - l.
  lemma Massey(c: seq<Byte>, l: nat, d: seq<Byte>, k: nat, s: seq<Byte>, r: nat)
    requires Generates(c, l, s, r) && Disc(c, s, r) != 0
    requires Generates(d, k, s, r + 1)
    ensures r + 1 <= l + k
  {
    hide Add, Mul, Disc, Disc2;
    if l + k <= r {
      var c', d' := Trimmed(c, l), Trimmed(d, k);
      TrimmedDisc(c, l, s);
      TrimmedDisc(d, k, s);
      Disc2Zero(c', d', s, r);
      Disc2Head(d', c', s, r);
      Disc2Symmetric(c', d', s, r);
    }
  }

  function Trimmed(c: seq<Byte>, l: nat): seq<Byte> {
    if l < |c| then c[..l + 1] else c
  }

  lemma TrimmedDisc(c: seq<Byte>, l: nat, s: seq<Byte>)
    requires DegreeAtMost(c, l)
    ensures forall k :: Disc(Trimmed(c, l), s, k) == Disc(c, s, k)
  {
    hide Disc;
    if l < |c| {
      forall k
        ensures Disc(Trimmed(c, l), s, k) == Disc(c, s, k)
      {
        DiscTrim(c, l, s, k);
      }
    }
  }

  lemma Disc2Head(d: seq<Byte>, c: seq<Byte>, s: seq<Byte>, r: int)
    requires |d| > 0 && d[0] == 1
    requires Annihilates(c, s, r - |d| + 1, r)
    ensures Disc2(d, c, s, r) == Disc(c, s, r)
  {
    hide Add, Mul;
    Disc2Zero(d[1..], c, s, r - 1);
    MulOne(Disc(c, s, r));
    AddZero(Disc(c, s, r));
  }

  // ---- one Berlekamp-Massey correction: lambda(x) - coef x^m prev(x)

  function Corrected(lambda: seq<Byte>, coef: Byte, prev: seq<Byte>, m: nat, n: nat): (r: seq<Byte>)
    requires |lambda| == |prev|
    ensures |r| == |lambda|
    ensures forall i :: 0 <= i < |r| ==>
      r[i] == if m <= i <= n then Add(lambda[i], Mul(coef, prev[i - m])) else lambda[i]
  {
    seq(|lambda|, i requires 0 <= i < |lambda| =>
      if m <= i <= n then Add(lambda[i], Mul(coef, prev[i - m])) else lambda[i])
  }

  // The bound i + m <= n of the correction loop cuts no non-zero term when deg(prev) + m <= n.
  lemma DiscCorrected(lambda: seq<Byte>, coef: Byte, prev: seq<Byte>, lp: nat, m: nat, n: nat, s: seq<Byte>, k: int)
    requires |lambda| == |prev| > n
    requires DegreeAtMost(prev, lp) && lp + m <= n
    ensures Disc(Corrected(lambda, coef, prev, m, n), s, k)
         == Add(Disc(lambda, s, k), Mul(coef, Disc(prev, s, k - m)))
  {
    hide Add, Mul, Disc;
    var shifted := Zeros(m) + prev[..|prev| - m];
    assert AllZero(prev[|prev| - m..]);
    assert prev == prev[..|prev| - m] + prev[|prev| - m..];
    DiscAppendZeros(prev[..|prev| - m], prev[|prev| - m..], s, k - m);
    DiscShift(m, prev[..|prev| - m], s, k);
    DiscScale(coef, shifted, s, k);
    DiscAdd(lambda, Scale(coef, shifted), s, k);
    assert Corrected(lambda, coef, prev, m, n) == AddSeq(lambda, Scale(coef, shifted)) by {
      MulZero(coef);
      forall i | 0 <= i < |lambda|
        ensures Corrected(lambda, coef, prev, m, n)[i] == AddSeq(lambda, Scale(coef, shifted))[i]
      {
        AddZero(lambda[i]);
      }
    }
  }
}

// The invariant of the Berlekamp-Massey loop, and the three ways an iteration keeps it.
module BerlekampMassey {
  import opened Bytes
  import opened Gf256
  import opened Lfsr

  // No shorter recurrence than l produces s[..r].
  ghost predicate Minimal(l: nat, s: seq<Byte>, r: nat) {
    forall d: seq<Byte>, k: nat :: Generates(d, k, s, r) ==> l <= k
  }

  // What the previous locator still promises: m steps ago it met its first discrepancy, b.
  // Before the first length change it is the constant 1 and no such step exists.
  predicate PrevFails(prev: seq<Byte>, lp: nat, m: nat, b: Byte, s: seq<Byte>, r: nat) {
    if m == r + 1 then lp == 0
    else m <= r && Disc(prev, s, r - m) == b && Annihilates(prev, s, lp, r - m)
  }

  // State before iteration r: lambda generates s[..r] with the minimal length L; the previous
  // locator has degree at most L' where L + L' + m = r + 1.
  ghost predicate Invariant(lambda: seq<Byte>, prev: seq<Byte>, L: nat, m: nat, b: Byte, s: seq<Byte>, r: nat) {
    && |lambda| == |prev| > |s|
    && r <= |s|
    && Generates(lambda, L, s, r)
    && L <= r
    && 1 <= m && L + m <= r + 1
    && prev[0] == 1 && DegreeAtMost(prev, r + 1 - L - m)
    && b != 0
    && PrevFails(prev, r + 1 - L - m, m, b, s, r)
    && Minimal(L, s, r)
  }

  lemma InvariantInit(one: seq<Byte>, s: seq<Byte>)
    requires |one| > |s| && one[0] == 1 && DegreeAtMost(one, 0)
    ensures Invariant(one, one, 0, 1, 1, s, 0)
  {
  }

  lemma AnnihilatesExtend(c: seq<Byte>, s: seq<Byte>, lo: int, r: int)
    requires Annihilates(c, s, lo, r) && Disc(c, s, r) == 0
    ensures Annihilates(c, s, lo, r + 1)
  {
  }

  lemma MinimalMonotone(l: nat, s: seq<Byte>, r: nat)
    requires Minimal(l, s, r)
    ensures Minimal(l, s, r + 1)
  {
    var next := r + 1;
    forall d: seq<Byte>, k: nat | Generates(d, k, s, next)
      ensures l <= k
    {
      assert Generates(d, k, s, r);
    }
  }

  lemma MinimalAfterLengthChange(c: seq<Byte>, l: nat, s: seq<Byte>, r: nat)
    requires Generates(c, l, s, r) && Disc(c, s, r) != 0 && l <= r + 1
    ensures Minimal(r + 1 - l, s, r + 1)
  {
    hide Generates, Disc;
    var next := r + 1;
    forall d: seq<Byte>, k: nat | Generates(d, k, s, next)
      ensures r + 1 - l <= k
    {
      Massey(c, l, d, k, s, r);
    }
  }

  lemma StepNoDiscrepancy(lambda: seq<Byte>, prev: seq<Byte>, L: nat, m: nat, b: Byte, s: seq<Byte>, r: nat)
    requires Invariant(lambda, prev, L, m, b, s, r) && r < |s|
    requires Disc(lambda, s, r) == 0
    ensures Invariant(lambda, prev, L, m + 1, b, s, r + 1)
  {
    hide Disc;
    AnnihilatesExtend(lambda, s, L, r);
    MinimalMonotone(L, s, r);
    assert r + 1 - L - m == (r + 1) + 1 - L - (m + 1);
  }

  // The corrected locator generates one symbol more, with length max(L, r + 1 - L).
  lemma CorrectedGenerates(lambda: seq<Byte>, prev: seq<Byte>, L: nat, m: nat, b: Byte, s: seq<Byte>, r: nat,
                           coef: Byte, l': nat)
    requires Invariant(lambda, prev, L, m, b, s, r) && r < |s|
    requires Mul(coef, b) == Disc(lambda, s, r) != 0
    requires L <= l' && r + 1 - L <= l'
    ensures Generates(Corrected(lambda, coef, prev, m, |s|), l', s, r + 1)
  {
    hide Add, Mul, Disc, Minimal;
    var lp := r + 1 - L - m;
    var c := Corrected(lambda, coef, prev, m, |s|);
    assert DegreeAtMost(c, l') by {
      MulZero(coef);
      AddZero(0);
    }
    forall k | l' <= k < r + 1
      ensures Disc(c, s, k) == 0
    {
      DiscCorrected(lambda, coef, prev, lp, m, |s|, s, k);
      MulZero(coef);
      if k < r {
        assert Disc(lambda, s, k) == 0;
        assert Disc(prev, s, k - m) == 0;
        AddZero(0);
      } else {
        assert Disc(prev, s, r - m) == b;
        AddSelf(Disc(lambda, s, r));
      }
    }
  }

  lemma StepSameLength(lambda: seq<Byte>, prev: seq<Byte>, L: nat, m: nat, b: Byte, s: seq<Byte>, r: nat, coef: Byte)
    requires Invariant(lambda, prev, L, m, b, s, r) && r < |s|
    requires Mul(coef, b) == Disc(lambda, s, r) != 0 && 2 * L > r
    ensures Invariant(Corrected(lambda, coef, prev, m, |s|), prev, L, m + 1, b, s, r + 1)
  {
    hide Disc, Mul, Corrected;
    CorrectedGenerates(lambda, prev, L, m, b, s, r, coef, L);
    MinimalMonotone(L, s, r);
    assert r + 1 - L - m == (r + 1) + 1 - L - (m + 1);
  }

  lemma StepLengthChange(lambda: seq<Byte>, prev: seq<Byte>, L: nat, m: nat, b: Byte, s: seq<Byte>, r: nat, coef: Byte)
    requires Invariant(lambda, prev, L, m, b, s, r) && r < |s|
    requires Mul(coef, b) == Disc(lambda, s, r) != 0 && 2 * L <= r
    ensures Invariant(Corrected(lambda, coef, prev, m, |s|), lambda, r + 1 - L, 1, Disc(lambda, s, r), s, r + 1)
  {
    hide Disc, Mul, Corrected;
    CorrectedGenerates(lambda, prev, L, m, b, s, r, coef, r + 1 - L);
    MinimalAfterLengthChange(lambda, L, s, r);
    assert (r + 1) + 1 - (r + 1 - L) - 1 == L;
    assert (r + 1) - 1 == r;
  }
}

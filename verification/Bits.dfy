// Exclusive-or and shifts on unsigned machine words, with the words modelled as naturals.
module Bits {
  import opened Arith

  function Xor(a: nat, b: nat): nat {
    if a == 0 then b
    else if b == 0 then a
    else (a % 2 + b % 2) % 2 + 2 * Xor(a / 2, b / 2)
  }

  function Pow2(k: nat): (r: nat)
    ensures r > 0
  {
    if k == 0 then 1 else 2 * Pow2(k - 1)
  }

  function Shr(a: nat, k: nat): nat
    decreases k
  {
    if k == 0 then a else Shr(a / 2, k - 1)
  }

  function Shl(a: nat, k: nat): nat
    decreases k
  {
    if k == 0 then a else Shl(2 * a, k - 1)
  }

  lemma XorZero(a: nat)
    ensures Xor(a, 0) == a && Xor(0, a) == a
  {
  }

  lemma XorSplit(a: nat, b: nat)
    ensures Xor(a, b) % 2 == (a % 2 + b % 2) % 2
    ensures Xor(a, b) / 2 == Xor(a / 2, b / 2)
  {
    if a != 0 && b != 0 {
      var high := Xor(a / 2, b / 2);
      assert Xor(a, b) == (a % 2 + b % 2) % 2 + 2 * high;
      HalvesOf(Xor(a, b), (a % 2 + b % 2) % 2, high);
    } else {
      XorZero(a / 2);
      XorZero(b / 2);
    }
  }

  lemma HalvesOf(a: nat, low: nat, high: nat)
    requires low < 2 && a == low + 2 * high
    ensures a % 2 == low && a / 2 == high
  {
  }

  lemma {:induction false} XorComm(a: nat, b: nat)
    ensures Xor(a, b) == Xor(b, a)
  {
    if a != 0 && b != 0 {
      XorComm(a / 2, b / 2);
    }
  }

  lemma {:induction false} XorAssoc(a: nat, b: nat, c: nat)
    ensures Xor(Xor(a, b), c) == Xor(a, Xor(b, c))
    decreases a + b + c
  {
    hide Xor;
    if a == 0 {
      XorZero(b);
      XorZero(Xor(b, c));
    } else if b == 0 {
      XorZero(a);
      XorZero(c);
    } else if c == 0 {
      XorZero(b);
      XorZero(Xor(a, b));
    } else {
      XorAssoc(a / 2, b / 2, c / 2);
      XorSplit(a, b);
      XorSplit(b, c);
      XorSplit(Xor(a, b), c);
      XorSplit(a, Xor(b, c));
    }
  }

  lemma {:induction false} XorSelf(a: nat)
    ensures Xor(a, a) == 0
  {
    if a != 0 {
      XorSelf(a / 2);
    }
  }

  lemma XorZeroOnlyEqual(a: nat, b: nat)
    requires Xor(a, b) == 0
    ensures a == b
  {
  }

  lemma {:induction false} XorBound(a: nat, b: nat, k: nat)
    requires a < Pow2(k) && b < Pow2(k)
    ensures Xor(a, b) < Pow2(k)
    decreases k
  {
    if a != 0 && b != 0 {
      XorBound(a / 2, b / 2, k - 1);
    }
  }

  lemma XorDouble(a: nat, b: nat)
    ensures Xor(2 * a, 2 * b) == 2 * Xor(a, b)
  {
  }

  lemma {:induction false} XorShl(a: nat, b: nat, k: nat)
    ensures Xor(Shl(a, k), Shl(b, k)) == Shl(Xor(a, b), k)
    decreases k
  {
    hide Xor;
    if k != 0 {
      XorDouble(a, b);
      XorShl(2 * a, 2 * b, k - 1);
    }
  }

  lemma {:induction false} XorShr(a: nat, b: nat, k: nat)
    ensures Xor(Shr(a, k), Shr(b, k)) == Shr(Xor(a, b), k)
    decreases k
  {
    hide Xor;
    if k != 0 {
      XorSplit(a, b);
      XorShr(a / 2, b / 2, k - 1);
    }
  }

  // The low k bits: a & (2^k - 1).
  function Low(a: nat, k: nat): nat
    decreases k
  {
    if k == 0 then 0 else a % 2 + 2 * Low(a / 2, k - 1)
  }

  function BitAt(a: nat, k: nat): (b: nat)
    ensures b < 2
  {
    Shr(a, k) % 2
  }

  lemma {:induction false} LowBound(a: nat, k: nat)
    ensures Low(a, k) < Pow2(k)
  {
    if k != 0 {
      LowBound(a / 2, k - 1);
    }
  }

  lemma {:induction false} LowOfSmall(a: nat, k: nat)
    requires a < Pow2(k)
    ensures Low(a, k) == a
    decreases k
  {
    if k != 0 {
      LowOfSmall(a / 2, k - 1);
    }
  }

  lemma {:induction false} ShrOfSmall(a: nat, k: nat)
    requires a < Pow2(k)
    ensures Shr(a, k) == 0
    decreases k
  {
    if k != 0 {
      ShrOfSmall(a / 2, k - 1);
    }
  }

  lemma {:induction false} LowXor(a: nat, b: nat, k: nat)
    ensures Low(Xor(a, b), k) == Xor(Low(a, k), Low(b, k))
    decreases k
  {
    hide Xor;
    if k == 0 {
      XorZero(0);
    } else {
      LowXor(a / 2, b / 2, k - 1);
      XorSplit(a, b);
      XorSplit(Low(a, k), Low(b, k));
    }
  }

  lemma {:induction false} LowLow(a: nat, j: nat, k: nat)
    requires j <= k
    ensures Low(Low(a, k), j) == Low(a, j)
    decreases j
  {
    if j != 0 {
      LowLow(a / 2, j - 1, k - 1);
    }
  }

  lemma {:induction false} ShlDouble(a: nat, k: nat)
    ensures Shl(a, k + 1) == 2 * Shl(a, k)
    decreases k
  {
    if k != 0 {
      ShlDouble(2 * a, k - 1);
    }
  }

  lemma {:induction false} ShlAdd(a: nat, j: nat, k: nat)
    ensures Shl(Shl(a, j), k) == Shl(a, j + k)
    decreases j
  {
    if j != 0 {
      ShlAdd(2 * a, j - 1, k);
    }
  }

  lemma {:induction false} LowShl(a: nat, m: nat, k: nat)
    ensures Low(Shl(a, k), m + k) == Shl(Low(a, m), k)
    decreases k
  {
    if k != 0 {
      ShlDouble(a, k - 1);
      LowShl(a, m, k - 1);
      ShlDouble(Low(a, m), k - 1);
    }
  }

  lemma {:induction false} ShrShl(a: nat, k: nat, j: nat)
    ensures Shr(Shl(a, k), j + k) == Shr(a, j)
    decreases k
  {
    if k != 0 {
      ShlDouble(a, k - 1);
      ShrShl(a, k - 1, j);
    }
  }

  lemma {:induction false} ShrLow(a: nat, k: nat, j: nat)
    ensures Shr(Low(a, j + k), k) == Low(Shr(a, k), j)
    decreases k
  {
    if k != 0 {
      ShrLow(a / 2, k - 1, j);
    }
  }

  lemma {:induction false} ShlBound(a: nat, m: nat, k: nat)
    requires a < Pow2(m)
    ensures Shl(a, k) < Pow2(m + k)
    decreases k
  {
    if k != 0 {
      ShlDouble(a, k - 1);
      ShlBound(a, m, k - 1);
    }
  }

  // A number is its high part and its low k bits.
  lemma {:induction false} HighLow(a: nat, k: nat)
    ensures a == Xor(Shl(Shr(a, k), k), Low(a, k))
    decreases k
  {
    hide Xor;
    if k == 0 {
      XorZero(a);
    } else {
      HighLow(a / 2, k - 1);
      ShlDouble(Shr(a, k), k - 1);
      XorSplit(Shl(Shr(a, k), k), Low(a, k));
    }
  }

  lemma BitAtXor(a: nat, b: nat, k: nat)
    ensures BitAt(Xor(a, b), k) == (BitAt(a, k) + BitAt(b, k)) % 2
  {
    hide Xor;
    XorShr(a, b, k);
    XorSplit(Shr(a, k), Shr(b, k));
  }

  // Shifts and masks in terms of powers of two.
  lemma {:induction false} ShlIsTimes(a: nat, k: nat)
    ensures Shl(a, k) == Pow2(k) * a
    decreases k
  {
    if k != 0 {
      ShlIsTimes(2 * a, k - 1);
    }
  }

  lemma {:induction false} ShrLowAreDivMod(a: nat, k: nat)
    ensures a == Pow2(k) * Shr(a, k) + Low(a, k) && Low(a, k) < Pow2(k)
    decreases k
  {
    LowBound(a, k);
    if k != 0 {
      ShrLowAreDivMod(a / 2, k - 1);
      TwiceProduct(Pow2(k - 1), Shr(a, k));
    }
  }

  lemma XorExchange(a: nat, b: nat, c: nat, d: nat)
    ensures Xor(Xor(a, b), Xor(c, d)) == Xor(Xor(a, c), Xor(b, d))
  {
    hide Xor;
    XorAssoc(a, b, Xor(c, d));
    XorAssoc(b, c, d);
    XorComm(b, c);
    XorAssoc(c, b, d);
    XorAssoc(a, c, Xor(b, d));
  }

  lemma ShlNone(v: nat)
    ensures Shl(v, 0) == v
  {
  }

  lemma {:induction false} Pow2Monotone(j: nat, k: nat)
    requires j <= k
    ensures Pow2(j) <= Pow2(k)
    decreases k
  {
    if j < k {
      Pow2Monotone(j, k - 1);
    }
  }

  lemma ShrIsQuotient(s: nat, k: nat)
    ensures Pow2(k) * Shr(s, k) <= s < Pow2(k) * (Shr(s, k) + 1)
  {
    hide Shr, Low, Pow2;
    ShrLowAreDivMod(s, k);
    assert Pow2(k) > 0;
  }

  lemma QuotientEven(s: nat, p: nat, q: nat)
    requires p * q <= s < p * (q + 1) && s < 2 * p && q % 2 == 0
    ensures s < p
  {
    if q >= 2 {
      ProductAtLeast(p, q);
    }
  }

  lemma ProductAtLeast(p: nat, q: nat)
    requires q >= 2
    ensures p * q >= 2 * p
  {
  }
}

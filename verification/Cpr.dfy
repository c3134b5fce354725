// Compact Position Reporting (components/modes_decode/cpr.c): the longitude-zone table and the
// two decoders, over exact reals, against the encoder of RTCA DO-260B section 2.2.3.2.3.
module Cpr {
  import opened Arith

  // ---- longitude zones

  const NZ_BOUNDARIES := 58

  // Latitude at which NL steps down from 59 - i to 58 - i.
  function Boundary(i: nat): real {
    if i == 0 then 10.47047130 else if i == 1 then 14.82817437 else if i == 2 then 18.18626357 else
    if i == 3 then 21.02939493 else if i == 4 then 23.54504487 else if i == 5 then 25.82924707 else
    if i == 6 then 27.93898710 else if i == 7 then 29.91135686 else if i == 8 then 31.77209708 else
    if i == 9 then 33.53993436 else if i == 10 then 35.22899598 else if i == 11 then 36.85025108 else
    if i == 12 then 38.41241892 else if i == 13 then 39.92256684 else if i == 14 then 41.38651832 else
    if i == 15 then 42.80914012 else if i == 16 then 44.19454951 else if i == 17 then 45.54626723 else
    if i == 18 then 46.86733252 else if i == 19 then 48.16039128 else if i == 20 then 49.42776439 else
    if i == 21 then 50.67150166 else if i == 22 then 51.89342469 else if i == 23 then 53.09516153 else
    if i == 24 then 54.27817472 else if i == 25 then 55.44378444 else if i == 26 then 56.59318756 else
    if i == 27 then 57.72747354 else if i == 28 then 58.84763776 else if i == 29 then 59.95459277 else
    if i == 30 then 61.04917774 else if i == 31 then 62.13216659 else if i == 32 then 63.20427479 else
    if i == 33 then 64.26616523 else if i == 34 then 65.31845310 else if i == 35 then 66.36171008 else
    if i == 36 then 67.39646774 else if i == 37 then 68.42322022 else if i == 38 then 69.44242631 else
    if i == 39 then 70.45451075 else if i == 40 then 71.45986473 else if i == 41 then 72.45884545 else
    if i == 42 then 73.45177442 else if i == 43 then 74.43893416 else if i == 44 then 75.42056257 else
    if i == 45 then 76.39684391 else if i == 46 then 77.36789461 else if i == 47 then 78.33374083 else
    if i == 48 then 79.29428225 else if i == 49 then 80.24923213 else if i == 50 then 81.19801349 else
    if i == 51 then 82.13956981 else if i == 52 then 83.07199445 else if i == 53 then 83.99173563 else
    if i == 54 then 84.89166191 else if i == 55 then 85.75541621 else if i == 56 then 86.53536998 else
    87.00000000
  }

  // How many of the first n boundaries the latitude a has reached.
  function Passed(a: real, n: nat): (c: nat)
    ensures c <= n
  {
    if n == 0 then 0 else Passed(a, n - 1) + (if Boundary(n - 1) <= a then 1 else 0)
  }

  // NL(lat): 59 zones at the equator, one fewer for every boundary passed.
  function Nl(lat: real): (nl: int)
    ensures 1 <= nl <= 59
  {
    59 - Passed(Abs(lat), NZ_BOUNDARIES)
  }

  lemma {:induction false} BoundaryMonotone(i: nat, j: nat)
    requires i <= j < NZ_BOUNDARIES
    ensures Boundary(i) <= Boundary(j)
    decreases j
  {
  }

  lemma {:induction false} PassedBelow(a: real, i: nat, n: nat)
    requires i <= n <= NZ_BOUNDARIES
    requires i < NZ_BOUNDARIES ==> a < Boundary(i)
    ensures Passed(a, n) == Passed(a, i)
    decreases n
  {
    hide Boundary;
    if i < n {
      PassedBelow(a, i, n - 1);
      BoundaryMonotone(i, n - 1);
    }
  }

  lemma {:induction false} PassedAll(a: real, n: nat)
    requires n <= NZ_BOUNDARIES && a >= 87.0
    ensures Passed(a, n) == n
  {
    hide Boundary;
    if n != 0 {
      PassedAll(a, n - 1);
      BoundaryMonotone(n - 1, NZ_BOUNDARIES - 1);
      LastBoundary();
    }
  }

  lemma LastBoundary()
    ensures Boundary(NZ_BOUNDARIES - 1) == 87.0
  {
  }

  // With k boundaries passed there are 59 - k zones, a boundary itself counting as passed.
  lemma NlMeans(lat: real, k: nat)
    requires k <= NZ_BOUNDARIES
    ensures Nl(lat) == 59 - k <==> (k > 0 ==> Boundary(k - 1) <= Abs(lat)) && (k < NZ_BOUNDARIES ==> Abs(lat) < Boundary(k))
  {
    hide Boundary;
    var a := Abs(lat);
    if (k > 0 ==> Boundary(k - 1) <= a) && (k < NZ_BOUNDARIES ==> a < Boundary(k)) {
      PassedUpTo(a, k);
      PassedBelow(a, k, NZ_BOUNDARIES);
    } else if k > 0 && a < Boundary(k - 1) {
      PassedBelow(a, k - 1, NZ_BOUNDARIES);
    } else {
      PassedUpTo(a, k + 1);
      PassedGrows(a, k + 1, NZ_BOUNDARIES);
    }
  }

  lemma {:induction false} PassedUpTo(a: real, k: nat)
    requires k <= NZ_BOUNDARIES && (k > 0 ==> Boundary(k - 1) <= a)
    ensures Passed(a, k) == k
  {
    hide Boundary;
    if k > 1 {
      BoundaryMonotone(k - 2, k - 1);
      PassedUpTo(a, k - 1);
    }
  }

  lemma {:induction false} PassedGrows(a: real, i: nat, n: nat)
    requires i <= n
    ensures Passed(a, i) <= Passed(a, n)
    decreases n
  {
    hide Boundary;
    if i < n {
      PassedGrows(a, i, n - 1);
    }
  }

  // The early-exit scan of the table counts the boundaries passed.
  method NlScan(lat: real) returns (nl: int)
    ensures nl == Nl(lat)
  {
    hide Boundary;
    var a := lat;
    if a < 0.0 {
      a := -a;
    }
    if a >= 87.0 {
      PassedAll(a, NZ_BOUNDARIES);
      return 1;
    }
    nl := 59;
    var i := 0;
    while i < NZ_BOUNDARIES
      invariant 0 <= i <= NZ_BOUNDARIES
      invariant nl == 59 - i && Passed(a, i) == i
    {
      if a < Boundary(i) {
        break;
      }
      nl := nl - 1;
      i := i + 1;
    }
    PassedBelow(a, i, NZ_BOUNDARIES);
  }

  lemma NlSymmetric(lat: real)
    ensures Nl(-lat) == Nl(lat)
  {
  }

  lemma {:induction false} PassedMonotone(a: real, b: real, n: nat)
    requires a <= b
    ensures Passed(a, n) <= Passed(b, n)
  {
    hide Boundary;
    if n != 0 {
      PassedMonotone(a, b, n - 1);
    }
  }

  lemma NlNonIncreasing(lat1: real, lat2: real)
    requires Abs(lat1) <= Abs(lat2)
    ensures Nl(lat2) <= Nl(lat1)
  {
    hide Boundary, Passed;
    PassedMonotone(Abs(lat1), Abs(lat2), NZ_BOUNDARIES);
  }

  // ---- the modulo of the specification

  function Trunc(x: real): int {
    if x >= 0.0 then x.Floor else -(-x).Floor
  }

  // C's fmod keeps the sign of the dividend; CprMod folds it into [0, b).
  function Fmod(a: real, b: real): real
    requires b > 0.0
  {
    a - b * Trunc(a / b) as real
  }

  function CprMod(a: real, b: real): real
    requires b > 0.0
  {
    var r := Fmod(a, b);
    if r < 0.0 then r + b else r
  }

  lemma FloorIs(x: real, k: int)
    requires k as real <= x < k as real + 1.0
    ensures x.Floor == k
  {
  }

  lemma QuotientIs(a: real, b: real, q: real)
    requires b > 0.0 && q * b == a
    ensures a / b == q
  {
  }

  lemma FractionNonnegative(r: real, b: real)
    requires 0.0 <= r < b
    ensures 0.0 <= r / b
  {
  }

  lemma FractionBelowOne(r: real, b: real)
    requires 0.0 <= r < b
    ensures r / b < 1.0
  {
  }

  lemma FractionZero(r: real, b: real)
    requires 0.0 <= r < b && r / b == 0.0
    ensures r == 0.0
  {
  }

  // The remainder of a in [0, b), for dividends of either sign.
  lemma CprModIs(a: real, b: real, k: int, r: real)
    requires b > 0.0 && a == b * k as real + r && 0.0 <= r < b
    ensures CprMod(a, b) == r && (a / b).Floor == k
  {
    var f := r / b;
    FractionNonnegative(r, b);
    FractionBelowOne(r, b);
    if f == 0.0 {
      FractionZero(r, b);
    }
    assert (k as real + f) * b == b * k as real + f * b;
    QuotientIs(a, b, k as real + f);
    CprModOfQuotient(a, b, k, f, r);
  }

  lemma CprModOfQuotient(a: real, b: real, k: int, f: real, r: real)
    requires b > 0.0 && a == b * k as real + r && 0.0 <= r < b
    requires a / b == k as real + f && 0.0 <= f < 1.0 && (f == 0.0 ==> r == 0.0)
    ensures CprMod(a, b) == r && (a / b).Floor == k
  {
    var q := k as real + f;
    FloorIs(q, k);
    if q < 0.0 {
      if f == 0.0 {
        FloorIs(-q, -k);
      } else {
        FloorIs(-q, -k - 1);
        assert b * (k + 1) as real == b * k as real + b;
      }
    }
  }

  // ---- real products, kept apart from linear reasoning

  function Times(x: real, y: real): real {
    x * y
  }

  lemma TimesNonnegative(x: real, y: real)
    requires x >= 0.0 && y >= 0.0
    ensures Times(x, y) >= 0.0
  {
  }

  lemma TimesPositive(x: real, y: real)
    requires x > 0.0 && y > 0.0
    ensures Times(x, y) > 0.0
  {
  }

  lemma TimesAdd(x: real, y: real, z: real)
    ensures Times(x, y + z) == Times(x, y) + Times(x, z)
    ensures Times(x, y - z) == Times(x, y) - Times(x, z)
  {
  }

  lemma TimesComm(x: real, y: real)
    ensures Times(x, y) == Times(y, x)
  {
  }

  lemma TimesAssoc(x: real, y: real, z: real)
    ensures Times(x, Times(y, z)) == Times(Times(x, y), z)
  {
  }

  lemma TimesMonotone(x: real, y: real, z: real)
    requires x >= 0.0 && y <= z
    ensures Times(x, y) <= Times(x, z) && Times(x, -z) <= Times(x, -y) && Times(x, -y) == -Times(x, y)
  {
  }

  lemma TimesTurn(x: real)
    ensures Times(x / 360.0, 360.0) == x
  {
  }

  // ---- frames and the encoder of the standard

  const CPR_MAX: real := 131072.0

  datatype Frame = Frame(odd: bool, latCpr: int, lonCpr: int)

  datatype Position = Position(lat: real, lon: real)

  datatype Fix = Reject | Resolved(lat: real, lon: real)

  // Zones around the full circle for a format: 60 and 59 in latitude, NL and NL - 1 (at least
  // one) in longitude.
  function LatZones(odd: bool): (n: int)
    ensures 59 <= n <= 60
  {
    if odd then 59 else 60
  }

  function LonZones(nl: int, odd: bool): (n: int)
    requires 1 <= nl <= 59
    ensures 1 <= n <= 59
  {
    if odd && nl > 1 then nl - 1 else nl
  }

  function ZoneWidth(n: int): (d: real)
    requires n >= 1
    ensures d > 0.0
  {
    360.0 / n as real
  }

  // u zones out of n, in degrees.
  function ZoneAngle(n: int, u: real): real
    requires n >= 1
  {
    Times(ZoneWidth(n), u)
  }

  lemma FullCircle(n: int)
    requires n >= 1
    ensures ZoneAngle(n, n as real) == 360.0
  {
  }

  lemma ZoneAngleRange(n: int, u: real)
    requires n >= 1 && 0.0 <= u < n as real
    ensures 0.0 <= ZoneAngle(n, u) < 360.0
  {
  }

  lemma ZoneAngleTurns(n: int, t: real, u: real)
    requires n >= 1
    ensures ZoneAngle(n, Times(n as real, t) + u) == Times(360.0, t) + ZoneAngle(n, u)
  {
  }

  // YZ (or XZ): the fraction of its zone at which x lies, rounded to 17 bits.
  ghost function Quantum(x: real, n: int): int
    requires n >= 1
  {
    (CPR_MAX * (CprMod(x, ZoneWidth(n)) / ZoneWidth(n)) + 0.5).Floor
  }

  ghost function Field(x: real, n: int): (f: int)
    requires n >= 1
    ensures 0 <= f < 131072
  {
    Quantum(x, n) % 131072
  }

  // Rlat (or Rlon): the angle the receiver is meant to recover.
  ghost function Angle(x: real, n: int): real
    requires n >= 1
  {
    ZoneAngle(n, Quantum(x, n) as real / CPR_MAX + (x / ZoneWidth(n)).Floor as real)
  }

  ghost function EncodedLat(p: Position, odd: bool): real {
    Angle(p.lat, LatZones(odd))
  }

  ghost function EncodedLonZones(p: Position, odd: bool): (n: int)
    ensures 1 <= n <= 59
  {
    LonZones(Nl(EncodedLat(p, odd)), odd)
  }

  ghost function EncodedLon(p: Position, odd: bool): real {
    Angle(p.lon, EncodedLonZones(p, odd))
  }

  ghost function Encode(p: Position, odd: bool): Frame {
    Frame(odd, Field(p.lat, LatZones(odd)), Field(p.lon, EncodedLonZones(p, odd)))
  }

  // The zone the encoded angle falls in; rounding up can move it to the next zone's edge.
  ghost function Zone(x: real, n: int): int
    requires n >= 1
  {
    (x / ZoneWidth(n)).Floor + Quantum(x, n) / 131072
  }

  // The encoded angle in zone units.
  ghost function Units(x: real, n: int): real
    requires n >= 1
  {
    Zone(x, n) as real + Fraction(Field(x, n))
  }

  function Fraction(field: int): real {
    field as real / CPR_MAX
  }

  const EPS: real := 1.0 / 262144.0

  // The encoded angle is its zone plus the transmitted fraction, within 2^-18 of a zone of the
  // true value.
  lemma EncodingFacts(x: real, n: int)
    requires n >= 1
    ensures Angle(x, n) == ZoneAngle(n, Units(x, n))
    ensures -EPS <= Units(x, n) - Times(x / 360.0, n as real) <= EPS
  {
    hide CprMod, ZoneWidth, Times;
    var q := x / ZoneWidth(n);
    ZoneUnits(x, n);
    FractionOfZone(x, n);
    QuantumSplit(Quantum(x, n));
    Rounding(q - q.Floor as real);
  }

  lemma ZoneUnits(x: real, n: int)
    requires n >= 1
    ensures x / ZoneWidth(n) == Times(x / 360.0, n as real)
  {
  }

  lemma QuantumSplit(yz: int)
    ensures yz as real / CPR_MAX == (yz / 131072) as real + Fraction(yz % 131072)
  {
  }

  lemma Rounding(f: real)
    ensures -EPS <= (CPR_MAX * f + 0.5).Floor as real / CPR_MAX - f <= EPS
  {
  }

  lemma FractionOfZone(x: real, n: int)
    requires n >= 1
    ensures CprMod(x, ZoneWidth(n)) / ZoneWidth(n) == x / ZoneWidth(n) - (x / ZoneWidth(n)).Floor as real
  {
    hide CprMod, ZoneWidth;
    CprModFraction(x, ZoneWidth(n));
  }

  lemma CprModFraction(x: real, d: real)
    requires d > 0.0
    ensures CprMod(x, d) / d == x / d - (x / d).Floor as real
    ensures 0.0 <= CprMod(x, d) < d
  {
    hide CprMod;
    var q := x / d;
    var k := q.Floor;
    var r := (q - k as real) * d;
    assert q * d == x;
    FloorRemainder(q, d, k, r);
    assert x == d * k as real + r;
    CprModIs(x, d, k, r);
    QuotientIs(r, d, q - k as real);
  }

  lemma FloorRemainder(q: real, d: real, k: int, r: real)
    requires d > 0.0 && k == q.Floor && (q - k as real) * d == r
    ensures 0.0 <= r
    ensures r < d
  {
    var f := q - k as real;
    assert f * d == r;
    TimesNonnegative(f, d);
    TimesPositive(1.0 - f, d);
    assert (1.0 - f) * d == d - f * d;
  }

  lemma ProductIsTimes(a: real, b: real, c: real, d: real)
    ensures Times(a, b) == b * a && Times(c, d) == c * d
  {
  }

  // How far, rounded to whole zones, an angle from the format with n zones is ahead of one from
  // the format with n - 1: n (n - 1) / 360 zones a degree.
  function Slip(n: int, a0: real, a1: real): int {
    (Times(n as real, Times((n - 1) as real, (a0 - a1) / 360.0)) + 0.5).Floor
  }

  // Both formats' fractions determine the zone index: with one zone fewer in the odd format,
  // n1 f0 - n0 f1 rounds to n0 k1 - n1 k0 when both stand for one angle, and is off by exactly the
  // slip when they do not.
  lemma ZoneIndex(n: int, k0: int, f0: real, k1: int, f1: real)
    requires n >= 2
    ensures
      ((n - 1) as real * f0 - n as real * f1 + 0.5).Floor
        == n * k1 - (n - 1) * k0 + Slip(n, ZoneAngle(n, k0 as real + f0), ZoneAngle(n - 1, k1 as real + f1))
  {
    var a, b := n as real, (n - 1) as real;
    var u0, u1 := k0 as real + f0, k1 as real + f1;
    SlipInUnits(n, u0, u1);
    var idx := n * k1 - (n - 1) * k0;
    assert idx as real == a * k1 as real - b * k0 as real;
    assert b * f0 == b * u0 - b * k0 as real;
    assert a * f1 == a * u1 - a * k1 as real;
    FloorShift(b * u0 - a * u1 + 0.5, idx);
  }

  lemma SlipInUnits(n: int, u0: real, u1: real)
    requires n >= 2
    ensures
      Times(n as real, Times((n - 1) as real, (ZoneAngle(n, u0) - ZoneAngle(n - 1, u1)) / 360.0))
        == (n - 1) as real * u0 - n as real * u1
  {
    var a, b := n as real, (n - 1) as real;
    var x0, x1 := ZoneAngle(n, u0) / 360.0, ZoneAngle(n - 1, u1) / 360.0;
    AngleInUnits(n, u0);
    AngleInUnits(n - 1, u1);
    assert (ZoneAngle(n, u0) - ZoneAngle(n - 1, u1)) / 360.0 == x0 - x1;
    hide ZoneAngle;
    assert a * (b * (x0 - x1)) == b * (a * x0) - a * (b * x1);
  }

  lemma AngleInUnits(n: int, u: real)
    requires n >= 1
    ensures n as real * (ZoneAngle(n, u) / 360.0) == u
  {
  }

  lemma FloorShift(x: real, k: int)
    ensures (x + k as real).Floor == x.Floor + k
  {
  }

  // n k1 - (n - 1) k0 + s is k0 + s modulo n and k1 + s modulo n - 1.
  lemma IndexModulo(n: int, k0: int, k1: int, s: int)
    requires n >= 1
    ensures CprMod((n * k1 - (n - 1) * k0 + s) as real, n as real) == ((k0 + s) % n) as real
    ensures n >= 2 ==> CprMod((n * k1 - (n - 1) * k0 + s) as real, (n - 1) as real) == ((k1 + s) % (n - 1)) as real
  {
    hide CprMod;
    var idx := n * k1 - (n - 1) * k0 + s;
    IndexSplit(n, k1 - k0, k0 + s);
    CprModInt(idx, n, k1 - k0 + (k0 + s) / n, (k0 + s) % n);
    if n >= 2 {
      var m := n - 1;
      IndexSplit(m, k1 - k0, k1 + s);
      CprModInt(idx, m, k1 - k0 + (k1 + s) / m, (k1 + s) % m);
    }
  }

  lemma IndexSplit(n: int, d: int, k: int)
    requires n >= 1
    ensures n * d + k == n * (d + k / n) + k % n && 0 <= k % n < n
  {
  }

  lemma CprModInt(a: int, b: int, k: int, r: int)
    requires b > 0 && a == b * k + r && 0 <= r < b
    ensures CprMod(a as real, b as real) == r as real
  {
    assert a as real == b as real * k as real + r as real;
    CprModIs(a as real, b as real, k, r as real);
  }

  lemma CprModIntRange(a: int, b: int)
    requires b > 0
    ensures 0.0 <= CprMod(a as real, b as real) <= (b - 1) as real
  {
    hide CprMod;
    CprModInt(a, b, a / b, a % b);
  }

  // ---- global decoding

  function LatIndex(even: Frame, odd: Frame): int {
    (59.0 * Fraction(even.latCpr) - 60.0 * Fraction(odd.latCpr) + 0.5).Floor
  }

  function FoldLat(rlat: real): real {
    if rlat >= 270.0 then rlat - 360.0 else rlat
  }

  function CandidateLat(j: int, odd: bool, latCpr: int): real {
    var n := LatZones(odd);
    FoldLat(ZoneAngle(n, CprMod(j as real, n as real) + Fraction(latCpr)))
  }

  function LonIndex(nl: int, even: Frame, odd: Frame): int {
    (Fraction(even.lonCpr) * (nl - 1) as real - Fraction(odd.lonCpr) * nl as real + 0.5).Floor
  }

  function FoldLon(rlon: real): real {
    if rlon >= 180.0 then rlon - 360.0 else rlon
  }

  // Zones for the anchoring frame: NL for even, NL - 1 for odd, at least one.
  function AnchorZones(nl: int, latestIsOdd: bool): (ni: int)
    ensures ni >= 1
  {
    var n := nl - (if latestIsOdd then 1 else 0);
    if n < 1 then 1 else n
  }

  function CandidateLon(nl: int, even: Frame, odd: Frame, latestIsOdd: bool): real {
    var m := LonIndex(nl, even, odd);
    var ni := AnchorZones(nl, latestIsOdd);
    var fraction := Fraction(if latestIsOdd then odd.lonCpr else even.lonCpr);
    FoldLon(ZoneAngle(ni, CprMod(m as real, ni as real) + fraction))
  }

  // An absolute fix from an even and an odd frame.
  function GlobalDecode(even: Frame, odd: Frame, latestIsOdd: bool): Fix {
    var j := LatIndex(even, odd);
    var rlatEven := CandidateLat(j, false, even.latCpr);
    var rlatOdd := CandidateLat(j, true, odd.latCpr);
    if Nl(rlatEven) != Nl(rlatOdd) then Reject
    else
      var rlat := if latestIsOdd then rlatOdd else rlatEven;
      if rlat < -90.0 || rlat > 90.0 then Reject
      else Resolved(rlat, CandidateLon(Nl(rlat), even, odd, latestIsOdd))
  }

  predicate Fields17(f: Frame) {
    0 <= f.latCpr < 131072 && 0 <= f.lonCpr < 131072
  }

  lemma LonInRange(nl: int, even: Frame, odd: Frame, latestIsOdd: bool)
    requires Fields17(even) && Fields17(odd)
    ensures -180.0 <= CandidateLon(nl, even, odd, latestIsOdd) < 180.0
  {
    hide CprMod, ZoneAngle, LonIndex;
    var m := LonIndex(nl, even, odd);
    var ni := AnchorZones(nl, latestIsOdd);
    var fraction := Fraction(if latestIsOdd then odd.lonCpr else even.lonCpr);
    CprModIntRange(m, ni);
    ZoneAngleRange(ni, CprMod(m as real, ni as real) + fraction);
  }

  // Every accepted pair of 17-bit frames, matching or not, gives coordinates on the globe.
  lemma GlobalInRange(even: Frame, odd: Frame, latestIsOdd: bool)
    requires Fields17(even) && Fields17(odd)
    ensures var fix := GlobalDecode(even, odd, latestIsOdd);
      fix.Resolved? ==> -90.0 <= fix.lat <= 90.0 && -180.0 <= fix.lon < 180.0
  {
    hide Nl, CandidateLat, CandidateLon, LatIndex;
    var fix := GlobalDecode(even, odd, latestIsOdd);
    if fix.Resolved? {
      LonInRange(Nl(fix.lat), even, odd, latestIsOdd);
    }
  }

  // Decoding the zone index back to degrees gives the encoded angle, up to whole turns.
  lemma Reassemble(x: real, n: int, u: real)
    requires n >= 1 && u == (Zone(x, n) % n) as real + Fraction(Field(x, n))
    ensures ZoneAngle(n, u) == Angle(x, n) - 360.0 * (Zone(x, n) / n) as real
    ensures 0.0 <= ZoneAngle(n, u) < 360.0
  {
    hide Angle, Field, ZoneAngle, Zone, Times;
    EncodingFacts(x, n);
    ZoneAngleRange(n, u);
    var t := (Zone(x, n) / n) as real;
    ZoneAngleTurns(n, t, u);
    WholeTurns(n, Zone(x, n));
    ProductIsTimes(t, 360.0, 360.0, t);
  }

  lemma WholeTurns(n: int, k: int)
    requires n >= 1
    ensures k as real == Times(n as real, (k / n) as real) + (k % n) as real
  {
  }

  // On the grid of 2^-17 zones, 90 degrees is n / 4 zones exactly.
  lemma AngleBounds(x: real, odd: bool)
    requires -90.0 <= x <= 90.0
    ensures -90.0 <= Angle(x, LatZones(odd)) <= 90.0
  {
    hide Angle, Field, Zone, Times, ZoneAngle, Fraction, Units;
    var n := LatZones(odd);
    EncodingFacts(x, n);
    QuarterTurn(x, n);
    UnitsOnGrid(x, n);
    GridBound(n, 131072 * Zone(x, n) + Field(x, n), Units(x, n));
    QuarterAngle(n, Units(x, n));
  }

  lemma QuarterTurn(x: real, n: int)
    requires -90.0 <= x <= 90.0 && 1 <= n
    ensures -(n as real) / 4.0 <= Times(x / 360.0, n as real) <= n as real / 4.0
  {
    var f, a := x / 360.0, n as real;
    TimesMonotone(a, f, 0.25);
    TimesMonotone(a, -0.25, f);
    TimesComm(a, f);
    assert Times(a, 0.25) == a / 4.0 && Times(a, -0.25) == -a / 4.0;
  }

  lemma UnitsOnGrid(x: real, n: int)
    requires n >= 1
    ensures (131072 * Zone(x, n) + Field(x, n)) as real == CPR_MAX * Units(x, n)
  {
    hide Zone, Field;
  }

  lemma GridBound(n: int, g: int, u: real)
    requires g as real == CPR_MAX * u && -(n as real) / 4.0 - EPS <= u <= n as real / 4.0 + EPS
    ensures -(n as real) / 4.0 <= u <= n as real / 4.0
  {
    assert -32768.0 * n as real - 0.5 <= g as real <= 32768.0 * n as real + 0.5;
    WholeBound(g, n);
  }

  lemma WholeBound(g: int, n: int)
    requires -32768.0 * n as real - 0.5 <= g as real <= 32768.0 * n as real + 0.5
    ensures -32768.0 * n as real <= g as real <= 32768.0 * n as real
  {
    assert (32768 * n) as real == 32768.0 * n as real;
    AtMost(g, 32768 * n);
    AtMost(-g, 32768 * n);
  }

  lemma AtMost(g: int, m: int)
    requires g as real <= m as real + 0.5
    ensures g <= m
  {
  }

  lemma QuarterAngle(n: int, u: real)
    requires n >= 1 && -(n as real) / 4.0 <= u <= n as real / 4.0
    ensures -90.0 <= ZoneAngle(n, u) <= 90.0
  {
    var d := ZoneWidth(n);
    TimesMonotone(d, u, n as real / 4.0);
    TimesMonotone(d, -(n as real) / 4.0, u);
    assert Times(d, n as real / 4.0) == 90.0;
    assert Times(d, -(n as real) / 4.0) == -90.0;
  }

  // p's even frame and q's odd frame, the positions of one aircraft at the two times.
  ghost function LatSlip(p: Position, q: Position): int {
    Slip(60, EncodedLat(p, false), EncodedLat(q, true))
  }

  // The exact slack of the rounding: 3/59 of a degree of encoded latitude, about three miles.
  ghost predicate LatTogether(p: Position, q: Position) {
    -3.0 / 59.0 <= EncodedLat(p, false) - EncodedLat(q, true) < 3.0 / 59.0
  }

  lemma LatSlack(p: Position, q: Position)
    ensures LatSlip(p, q) == 0 <==> LatTogether(p, q)
  {
    hide EncodedLat;
    SlipZero(60, EncodedLat(p, false) - EncodedLat(q, true));
    var d := EncodedLat(p, false) - EncodedLat(q, true);
    assert 60.0 * (59.0 * (d / 360.0)) == d * 59.0 / 6.0;
  }

  lemma SlipZero(n: int, d: real)
    ensures
      var x := Times(n as real, Times((n - 1) as real, d / 360.0));
      (x + 0.5).Floor == 0 <==> -0.5 <= x < 0.5
  {
  }

  // The zone index is the common one exactly within that slack.
  lemma LatIndexIs(p: Position, q: Position)
    ensures LatIndex(Encode(p, false), Encode(q, true)) == 60 * Zone(q.lat, 59) - 59 * Zone(p.lat, 60) + LatSlip(p, q)
  {
    hide Angle, Field, Zone, EncodedLonZones, Times, Fraction, ZoneAngle, Slip;
    EncodingFacts(p.lat, 60);
    EncodingFacts(q.lat, 59);
    ZoneIndex(60, Zone(p.lat, 60), Fraction(Field(p.lat, 60)), Zone(q.lat, 59), Fraction(Field(q.lat, 59)));
  }

  function Newer(p: Position, q: Position, latestIsOdd: bool): Position {
    if latestIsOdd then q else p
  }

  // Both latitudes come back shifted by the slip in zones, so exactly as encoded if and only if
  // that is whole turns.
  lemma LatRecovered(p: Position, q: Position, odd: bool)
    requires -90.0 <= Newer(p, q, odd).lat <= 90.0
    ensures
      CandidateLat(LatIndex(Encode(p, false), Encode(q, true)), odd, Encode(Newer(p, q, odd), odd).latCpr)
        == EncodedLat(Newer(p, q, odd), odd)
      <==> LatSlip(p, q) % LatZones(odd) == 0
  {
    hide Angle, Field, Zone, CprMod, EncodedLonZones, ZoneAngle, FoldLat, LatIndex, Fraction, Slip;
    var x, n := Newer(p, q, odd).lat, LatZones(odd);
    var s := LatSlip(p, q);
    var u := (Zone(x, n) % n) as real + Fraction(Field(x, n));
    var v := ((Zone(x, n) + s) % n) as real + Fraction(Field(x, n));
    LatIndexIs(p, q);
    IndexModulo(60, Zone(p.lat, 60), Zone(q.lat, 59), s);
    Reassemble(x, n, u);
    AngleBounds(x, odd);
    LatFold(Angle(x, n), ZoneAngle(n, u), Zone(x, n) / n);
    FractionRange(Field(x, n));
    ZoneAngleRange(n, v);
    SameResidue(Zone(x, n), s, n);
    DifferentAngles(n, u, v);
    FoldLatInjective(ZoneAngle(n, u), ZoneAngle(n, v));
  }

  lemma FractionRange(field: int)
    requires 0 <= field < 131072
    ensures 0.0 <= Fraction(field) < 1.0
  {
  }

  lemma SameResidue(k: int, s: int, n: int)
    requires n >= 1
    ensures (k + s) % n == k % n <==> s % n == 0
  {
    var r := k % n;
    assert k == n * (k / n) + r;
    if s % n == 0 {
      assert k + s == n * (k / n + s / n) + r;
      ResidueIs(k + s, n, k / n + s / n, r);
    }
    if (k + s) % n == r {
      assert s == n * ((k + s) / n - k / n);
      ResidueIs(s, n, (k + s) / n - k / n, 0);
    }
  }

  lemma ResidueIs(a: int, n: int, q: int, r: int)
    requires n >= 1 && a == n * q + r && 0 <= r < n
    ensures a % n == r
  {
    var e := a / n - q;
    assert n * e == r - a % n;
    ProductAway(n, e);
  }

  lemma ProductAway(n: int, e: int)
    requires n >= 1
    ensures e >= 1 ==> n * e >= n
    ensures e <= -1 ==> n * e <= -n
  {
  }

  lemma DifferentAngles(n: int, u: real, v: real)
    requires n >= 1
    ensures ZoneAngle(n, u) == ZoneAngle(n, v) <==> u == v
  {
    TimesAdd(ZoneWidth(n), u, v);
    if u > v {
      TimesPositive(ZoneWidth(n), u - v);
    } else if v > u {
      TimesPositive(ZoneWidth(n), v - u);
      TimesAdd(ZoneWidth(n), v, u);
    }
  }

  lemma FoldLatInjective(a: real, b: real)
    requires 0.0 <= a < 360.0 && 0.0 <= b < 360.0
    ensures FoldLat(a) == FoldLat(b) <==> a == b
  {
  }

  lemma LatFold(angle: real, raw: real, turns: int)
    requires raw == angle - 360.0 * turns as real && 0.0 <= raw < 360.0
    requires -90.0 <= angle <= 90.0
    ensures FoldLat(raw) == angle
  {
  }

  // The same for longitude, where the two may be told in different turns.
  ghost function LonSlip(p: Position, q: Position, nl: int, turns: int): int
    requires 2 <= nl <= 59
  {
    Slip(nl, Angle(p.lon, nl), Angle(q.lon, nl - 1) + 360.0 * turns as real)
  }

  // 180 / (NL (NL - 1)) degrees, the half-open slack of the rounding; with a single zone there is
  // nothing to round.
  ghost predicate LonTogether(p: Position, q: Position, nl: int, turns: int)
    requires 1 <= nl <= 59
  {
    nl >= 2 ==>
      var d := Angle(p.lon, nl) - (Angle(q.lon, nl - 1) + 360.0 * turns as real);
      -0.5 <= Times(nl as real, Times((nl - 1) as real, d / 360.0)) < 0.5
  }

  lemma LonSlack(p: Position, q: Position, nl: int, turns: int)
    requires 2 <= nl <= 59
    ensures LonSlip(p, q, nl, turns) == 0 <==> LonTogether(p, q, nl, turns)
  {
    hide Angle, Times;
    SlipZero(nl, Angle(p.lon, nl) - (Angle(q.lon, nl - 1) + 360.0 * turns as real));
  }

  lemma LonIndexIs(p: Position, q: Position, nl: int, turns: int)
    requires 2 <= nl <= 59 && nl == Nl(EncodedLat(p, false)) == Nl(EncodedLat(q, true))
    ensures
      LonIndex(nl, Encode(p, false), Encode(q, true))
        == nl * Zone(q.lon, nl - 1) - (nl - 1) * Zone(p.lon, nl) + LonSlip(p, q, nl, turns) + nl * (nl - 1) * turns
  {
    hide Angle, Field, Zone, Times, Fraction, Nl, EncodedLat, ZoneAngle, Slip;
    EncodingFacts(p.lon, nl);
    EncodingFacts(q.lon, nl - 1);
    ZoneIndex(nl, Zone(p.lon, nl), Fraction(Field(p.lon, nl)), Zone(q.lon, nl - 1), Fraction(Field(q.lon, nl - 1)));
    SlipTurns(nl, Angle(p.lon, nl), Angle(q.lon, nl - 1), turns);
  }

  // A whole turn is n (n - 1) zones of slip.
  lemma SlipTurns(n: int, a0: real, a1: real, turns: int)
    ensures Slip(n, a0, a1) == Slip(n, a0, a1 + 360.0 * turns as real) + n * (n - 1) * turns
  {
    var a, b, t := n as real, (n - 1) as real, turns as real;
    var d := (a0 - (a1 + 360.0 * t)) / 360.0;
    assert (a0 - a1) / 360.0 == d + t;
    TimesAdd(b, d, t);
    TimesAdd(a, Times(b, d), Times(b, t));
    assert Times(a, Times(b, t)) == (n * (n - 1) * turns) as real by {
      assert Times(b, t) == ((n - 1) * turns) as real;
      assert Times(a, Times(b, t)) == (n * ((n - 1) * turns)) as real;
      assert n * ((n - 1) * turns) == n * (n - 1) * turns;
    }
    hide Times;
    FloorShift(Times(a, Times(b, d)) + 0.5, n * (n - 1) * turns);
  }

  // The longitude comes back shifted by the slip in zones, so as encoded modulo whole turns if and
  // only if that is whole turns; always so with a single zone.
  lemma LonRecovered(p: Position, q: Position, nl: int, latestIsOdd: bool, turns: int)
    requires nl == Nl(EncodedLat(p, false)) == Nl(EncodedLat(q, true))
    ensures
      SameMeridian(CandidateLon(nl, Encode(p, false), Encode(q, true), latestIsOdd),
                   EncodedLon(Newer(p, q, latestIsOdd), latestIsOdd))
      <==> (nl >= 2 ==> LonSlip(p, q, nl, turns) % EncodedLonZones(Newer(p, q, latestIsOdd), latestIsOdd) == 0)
  {
    hide Angle, Field, Zone, CprMod, ZoneAngle, LonIndex, Fraction, Nl, EncodedLat, Slip;
    var r := Newer(p, q, latestIsOdd);
    var x, n := r.lon, EncodedLonZones(r, latestIsOdd);
    var even, odd := Encode(p, false), Encode(q, true);
    var s := LonShift(p, q, nl, latestIsOdd, turns);
    var u := (Zone(x, n) % n) as real + Fraction(Field(x, n));
    var v := ((Zone(x, n) + s) % n) as real + Fraction(Field(x, n));
    Reassemble(x, n, u);
    FractionRange(Field(x, n));
    ZoneAngleRange(n, v);
    SameResidue(Zone(x, n), s, n);
    DifferentAngles(n, u, v);
    FoldedMeridian(ZoneAngle(n, v), ZoneAngle(n, u), Angle(x, n), -(Zone(x, n) / n));
  }

  // The shift in zones of the latest frame's format.
  lemma LonShift(p: Position, q: Position, nl: int, latestIsOdd: bool, turns: int) returns (s: int)
    requires nl == Nl(EncodedLat(p, false)) == Nl(EncodedLat(q, true))
    ensures
      var r, n := Newer(p, q, latestIsOdd), EncodedLonZones(Newer(p, q, latestIsOdd), latestIsOdd);
      && n == AnchorZones(nl, latestIsOdd)
      && CprMod(LonIndex(nl, Encode(p, false), Encode(q, true)) as real, n as real) == ((Zone(r.lon, n) + s) % n) as real
      && (s % n == 0 <==> (nl >= 2 ==> LonSlip(p, q, nl, turns) % n == 0))
  {
    hide Angle, Field, Zone, CprMod, LonIndex, Fraction, Nl, EncodedLat, LonSlip;
    var m := LonIndex(nl, Encode(p, false), Encode(q, true));
    if nl >= 2 {
      s := LonSlip(p, q, nl, turns) + nl * (nl - 1) * turns;
      LonIndexIs(p, q, nl, turns);
      IndexModulo(nl, Zone(p.lon, nl), Zone(q.lon, nl - 1), s);
      TurnsOfSlip(LonSlip(p, q, nl, turns), nl, turns);
    } else {
      s := 0;
      CprModInt(m, 1, m, 0);
    }
  }

  lemma TurnsOfSlip(s: int, n: int, turns: int)
    requires n >= 2
    ensures (s + n * (n - 1) * turns) % n == 0 <==> s % n == 0
    ensures (s + n * (n - 1) * turns) % (n - 1) == 0 <==> s % (n - 1) == 0
  {
    TurnProduct(n, turns);
    MultipleAdded(s, n, (n - 1) * turns);
    MultipleAdded(s, n - 1, n * turns);
  }

  lemma TurnProduct(n: int, turns: int)
    ensures n * (n - 1) * turns == n * ((n - 1) * turns) == (n - 1) * (n * turns)
  {
  }

  lemma MultipleAdded(s: int, n: int, k: int)
    requires n >= 1
    ensures (s + n * k) % n == 0 <==> s % n == 0
  {
    ResidueIs(s + n * k, n, s / n + k, s % n);
  }

  // Folding keeps the meridian, and angles of one turn are on one meridian only if equal.
  lemma FoldedMeridian(raw: real, other: real, angle: real, turns: int)
    requires 0.0 <= raw < 360.0 && 0.0 <= other < 360.0 && other == angle + 360.0 * turns as real
    ensures SameMeridian(FoldLon(raw), angle) <==> raw == other
  {
    var fold := if raw >= 180.0 then -1 else 0;
    if raw == other {
      assert OffBy(FoldLon(raw), angle, turns + fold);
    }
    if SameMeridian(FoldLon(raw), angle) {
      var t: int :| OffBy(FoldLon(raw), angle, t);
      assert raw - other == 360.0 * (t - fold - turns) as real;
    }
  }

  ghost predicate SameMeridian(a: real, b: real) {
    exists turns: int :: OffBy(a, b, turns)
  }

  ghost predicate OffBy(a: real, b: real, turns: int) {
    a == b + 360.0 * turns as real
  }

  // The encoded position of one format, each coordinate within half a quantum of the true one and
  // the longitude up to whole turns.
  ghost predicate Recovers(lat: real, lon: real, p: Position, odd: bool) {
    && lat == EncodedLat(p, odd) && WithinHalfQuantum(lat, p.lat, LatZones(odd))
    && SameMeridian(lon, EncodedLon(p, odd))
    && WithinHalfQuantum(EncodedLon(p, odd), p.lon, EncodedLonZones(p, odd))
  }

  // Half a quantum: 2^-18 of a zone.
  ghost predicate WithinHalfQuantum(angle: real, x: real, n: int)
    requires n >= 1
  {
    -ZoneAngle(n, EPS) <= angle - x <= ZoneAngle(n, EPS)
  }

  lemma AngleNearValue(x: real, n: int)
    requires n >= 1
    ensures WithinHalfQuantum(Angle(x, n), x, n)
  {
    hide Times, ZoneWidth, Angle, Units;
    EncodingFacts(x, n);
    var d, v := ZoneWidth(n), Times(x / 360.0, n as real);
    var e := Units(x, n) - v;
    TimesAdd(d, Units(x, n), v);
    TimesAdd(d, EPS, e);
    TimesNonnegative(d, EPS - e);
    TimesNonnegative(d, EPS + e);
    assert Times(d, v) == x by {
      FullCircle(n);
      TimesComm(d, v);
      TimesAssoc(x / 360.0, n as real, d);
      TimesComm(n as real, d);
      TimesTurn(x);
    }
  }

  // Two positions of one aircraft, close enough for the rounding, decode exactly when their
  // encoded latitudes have the same number of longitude zones; the latitude is then the latest
  // one to within half a quantum, and so is the longitude where those are close enough too.
  lemma GlobalRecovers(p: Position, q: Position, latestIsOdd: bool, turns: int)
    requires -90.0 <= p.lat <= 90.0 && -90.0 <= q.lat <= 90.0 && LatTogether(p, q)
    ensures var fix, r := GlobalDecode(Encode(p, false), Encode(q, true), latestIsOdd), Newer(p, q, latestIsOdd);
      && (fix.Resolved? <==> Nl(EncodedLat(p, false)) == Nl(EncodedLat(q, true)))
      && (fix.Resolved? ==>
            && fix.lat == EncodedLat(r, latestIsOdd) && -90.0 <= fix.lat <= 90.0 && -180.0 <= fix.lon < 180.0
            && (LonTogether(p, q, Nl(fix.lat), turns) ==> Recovers(fix.lat, fix.lon, r, latestIsOdd)))
  {
    hide Nl, CandidateLat, CandidateLon, LatIndex, Angle, Field, SameMeridian, WithinHalfQuantum, EncodedLonZones,
         LatTogether, LonTogether;
    var r := Newer(p, q, latestIsOdd);
    LatSlack(p, q);
    LatRecovered(p, q, false);
    LatRecovered(p, q, true);
    AngleBounds(p.lat, false);
    AngleBounds(q.lat, true);
    AngleNearValue(r.lat, LatZones(latestIsOdd));
    AngleNearValue(r.lon, EncodedLonZones(r, latestIsOdd));
    GlobalInRange(Encode(p, false), Encode(q, true), latestIsOdd);
    var nl := Nl(EncodedLat(p, false));
    if nl == Nl(EncodedLat(q, true)) {
      LonRecovered(p, q, nl, latestIsOdd, turns);
      if nl >= 2 {
        LonSlack(p, q, nl, turns);
      }
    }
  }

  // The exact limits: an accepted pair gives the latest encoded latitude, and its longitude
  // modulo whole turns, if and only if the two positions are within the slack or apart from it by
  // whole turns of zones.
  lemma GlobalExact(p: Position, q: Position, latestIsOdd: bool, turns: int)
    requires -90.0 <= p.lat <= 90.0 && -90.0 <= q.lat <= 90.0
    requires GlobalDecode(Encode(p, false), Encode(q, true), latestIsOdd).Resolved?
    ensures var fix, r := GlobalDecode(Encode(p, false), Encode(q, true), latestIsOdd), Newer(p, q, latestIsOdd);
      && (fix.lat == EncodedLat(r, latestIsOdd) <==> LatSlip(p, q) % LatZones(latestIsOdd) == 0)
      && (LatTogether(p, q) ==>
            var nl := Nl(fix.lat);
            (SameMeridian(fix.lon, EncodedLon(r, latestIsOdd))
             <==> (nl >= 2 ==> LonSlip(p, q, nl, turns) % EncodedLonZones(r, latestIsOdd) == 0)))
  {
    hide Nl, CandidateLat, CandidateLon, LatIndex, Angle, Field, SameMeridian, LatTogether, Slip;
    LatRecovered(p, q, latestIsOdd);
    if LatTogether(p, q) {
      LatSlack(p, q);
      LatRecovered(p, q, false);
      LatRecovered(p, q, true);
      LonRecovered(p, q, Nl(EncodedLat(p, false)), latestIsOdd, turns);
    }
  }

  // Quantisation leaves a twentieth of a degree of latitude between the true positions, and in
  // longitude 0.499 of a zone of the pair.
  lemma SlowEnough(p: Position, q: Position, nl: int, turns: int)
    requires 1 <= nl <= 59 && -0.05 <= p.lat - q.lat <= 0.05
    requires
      var d := p.lon - (q.lon + 360.0 * turns as real);
      -0.499 <= Times(nl as real, Times((nl - 1) as real, d / 360.0)) <= 0.499
    ensures LatTogether(p, q) && LonTogether(p, q, nl, turns)
  {
    hide Angle;
    AngleNearValue(p.lat, 60);
    AngleNearValue(q.lat, 59);
    if nl >= 2 {
      LonsStayTogether(p, q, nl, turns);
    }
  }

  lemma LonsStayTogether(p: Position, q: Position, nl: int, turns: int)
    requires 2 <= nl <= 59
    requires
      var d := p.lon - (q.lon + 360.0 * turns as real);
      -0.499 <= Times(nl as real, Times((nl - 1) as real, d / 360.0)) <= 0.499
    ensures LonTogether(p, q, nl, turns)
  {
    hide Angle, Times;
    var t := 360.0 * turns as real;
    var e0, e1 := Angle(p.lon, nl) - p.lon, Angle(q.lon, nl - 1) - q.lon;
    AngleNearValue(p.lon, nl);
    AngleNearValue(q.lon, nl - 1);
    ErrorInZones(nl, nl - 1, e0);
    ErrorInZones(nl - 1, nl, e1);
    SumInZones(nl, (p.lon - (q.lon + t)) / 360.0, e0 / 360.0, e1 / 360.0);
    assert (Angle(p.lon, nl) - (Angle(q.lon, nl - 1) + t)) / 360.0
        == (p.lon - (q.lon + t)) / 360.0 + e0 / 360.0 - e1 / 360.0;
  }

  lemma SumInZones(n: int, d: real, e0: real, e1: real)
    ensures
      Times(n as real, Times((n - 1) as real, d + e0 - e1))
        == Times(n as real, Times((n - 1) as real, d)) + Times((n - 1) as real, Times(n as real, e0))
           - Times(n as real, Times((n - 1) as real, e1))
  {
  }

  // An error within half a quantum of the format with n zones, in zones of the pair.
  lemma ErrorInZones(n: int, other: int, e: real)
    requires 1 <= n <= 59 && 1 <= other <= 59 && -ZoneAngle(n, EPS) <= e <= ZoneAngle(n, EPS)
    ensures -59.0 * EPS <= Times(other as real, Times(n as real, e / 360.0)) <= 59.0 * EPS
  {
    var z := Times(n as real, e / 360.0);
    AngleInUnits(n, EPS);
    assert -EPS <= z <= EPS by {
      TimesMonotone(n as real, e / 360.0, ZoneAngle(n, EPS) / 360.0);
      TimesMonotone(n as real, -ZoneAngle(n, EPS) / 360.0, e / 360.0);
    }
    TimesMonotone(other as real, z, EPS);
    TimesMonotone(other as real, -EPS, z);
    assert other as real * EPS <= 59.0 * EPS;
  }

  // ---- local decoding

  // The multiple of the zone width that puts the encoded fraction nearest the reference.
  function NearestZone(reference: real, n: int, field: int): int
    requires n >= 1
  {
    var d := ZoneWidth(n);
    (reference / d).Floor + (0.5 + CprMod(reference, d) / d - Fraction(field)).Floor
  }

  function NearestAngle(reference: real, n: int, field: int): real
    requires n >= 1
  {
    ZoneAngle(n, NearestZone(reference, n, field) as real + Fraction(field))
  }

  function FoldOnce(rlon: real): real {
    var r := if rlon > 180.0 then rlon - 360.0 else rlon;
    if r < -180.0 then r + 360.0 else r
  }

  function LocalZones(nl: int, odd: bool): (ni: int)
    ensures ni >= 1
  {
    var n := if odd then nl - 1 else nl;
    if n < 1 then 1 else n
  }

  // A fix from one frame and a reference position.
  function LocalDecode(frame: Frame, refLat: real, refLon: real): Fix {
    var rlat := NearestAngle(refLat, LatZones(frame.odd), frame.latCpr);
    var rlon := NearestAngle(refLon, LocalZones(Nl(rlat), frame.odd), frame.lonCpr);
    if rlat < -90.0 || rlat > 90.0 then Reject
    else Resolved(rlat, FoldOnce(rlon))
  }

  // a is in the half-open window of one zone centred on the reference.
  ghost predicate InWindow(a: real, reference: real, n: int)
    requires n >= 1
  {
    reference - ZoneWidth(n) / 2.0 < a <= reference + ZoneWidth(n) / 2.0
  }

  // a stands for the transmitted fraction in some zone.
  ghost predicate Represents(a: real, n: int, field: int)
    requires n >= 1
  {
    exists k: int :: InZone(a, n, field, k)
  }

  ghost predicate InZone(a: real, n: int, field: int, k: int)
    requires n >= 1
  {
    a == ZoneAngle(n, k as real + Fraction(field))
  }

  // In zone units the chosen zone is the one within half a zone of the reference.
  lemma NearestZoneIs(reference: real, n: int, field: int)
    requires n >= 1
    ensures var q := Times(reference / 360.0, n as real);
      q - 0.5 < NearestZone(reference, n, field) as real + Fraction(field) <= q + 0.5
  {
    hide CprMod, ZoneWidth, Times, Fraction;
    ZoneUnits(reference, n);
    FractionOfZone(reference, n);
  }

  // Zone units order angles.
  lemma WindowInUnits(u: real, reference: real, n: int)
    requires n >= 1
    ensures var q := Times(reference / 360.0, n as real);
      q - 0.5 < u <= q + 0.5 <==> InWindow(ZoneAngle(n, u), reference, n)
  {
  }

  // The decoded angle is the one value representing the field inside the window: it represents
  // the field, lies in the window, and every value with both properties equals it.
  lemma NearestAngleUnique(reference: real, n: int, field: int, a: real)
    requires n >= 1
    ensures var r := NearestAngle(reference, n, field);
      && Represents(r, n, field) && InWindow(r, reference, n)
      && (Represents(a, n, field) && InWindow(a, reference, n) ==> a == r)
  {
    hide Times, ZoneWidth, Fraction, NearestZone, InWindow, ZoneAngle;
    var k0 := NearestZone(reference, n, field);
    NearestZoneIs(reference, n, field);
    WindowInUnits(k0 as real + Fraction(field), reference, n);
    assert InZone(NearestAngle(reference, n, field), n, field, k0);
    if Represents(a, n, field) && InWindow(a, reference, n) {
      var k: int :| InZone(a, n, field, k);
      WindowInUnits(k as real + Fraction(field), reference, n);
      assert -1.0 < (k - k0) as real < 1.0;
      assert k == k0;
    }
  }

  // One fold brings the longitude into [-180, 180] and moves it by a whole turn at most.
  lemma FoldOnceLands(rlon: real, refLon: real, n: int)
    requires n >= 1 && -180.0 <= refLon <= 180.0 && InWindow(rlon, refLon, n)
    ensures -180.0 <= FoldOnce(rlon) <= 180.0
    ensures SameMeridian(FoldOnce(rlon), rlon)
  {
    WidthAtMostCircle(n);
    hide ZoneWidth;
    var turns := if rlon > 180.0 then -1 else if rlon < -180.0 then 1 else 0;
    assert OffBy(FoldOnce(rlon), rlon, turns);
  }

  lemma WidthAtMostCircle(n: int)
    requires n >= 1
    ensures ZoneWidth(n) <= 360.0
  {
  }

  // The transmitted field represents the encoded angle, in any number of whole turns.
  lemma EncodedRepresents(x: real, n: int, turns: int)
    requires n >= 1
    ensures Represents(Angle(x, n) + 360.0 * turns as real, n, Field(x, n))
  {
    hide Angle, Field, Zone, Fraction, ZoneAngle, Times;
    EncodingFacts(x, n);
    ZoneAngleTurns(n, turns as real, Units(x, n));
    var k := n * turns + Zone(x, n);
    TurnsAsProduct(n, turns);
    assert k as real + Fraction(Field(x, n)) == Times(n as real, turns as real) + Units(x, n);
    assert InZone(Angle(x, n) + 360.0 * turns as real, n, Field(x, n), k);
  }

  lemma TurnsAsProduct(n: int, turns: int)
    ensures Times(n as real, turns as real) == (n * turns) as real
    ensures Times(360.0, turns as real) == 360.0 * turns as real
  {
  }

  lemma TurnsKeepMeridian(a: real, b: real, turns: int)
    requires SameMeridian(a, b + 360.0 * turns as real)
    ensures SameMeridian(a, b)
  {
    var more: int :| OffBy(a, b + 360.0 * turns as real, more);
    assert OffBy(a, b, more + turns);
  }

  // Local decoding recovers every encoded position within half a zone of the reference, in any
  // hemisphere; the longitude may be given in any number of turns.
  lemma LocalRecovers(p: Position, odd: bool, refLat: real, refLon: real, turns: int)
    requires -90.0 <= p.lat <= 90.0 && -180.0 <= refLon <= 180.0
    requires InWindow(EncodedLat(p, odd), refLat, LatZones(odd))
    requires InWindow(EncodedLon(p, odd) + 360.0 * turns as real, refLon, EncodedLonZones(p, odd))
    ensures var fix := LocalDecode(Encode(p, odd), refLat, refLon);
      && fix.Resolved? && Recovers(fix.lat, fix.lon, p, odd)
      && fix.lon == FoldOnce(EncodedLon(p, odd) + 360.0 * turns as real)
      && -180.0 <= fix.lon <= 180.0
  {
    hide Angle, Field, InWindow, Represents, NearestAngle, Nl, FoldOnce, SameMeridian, WithinHalfQuantum;
    var n, m := LatZones(odd), EncodedLonZones(p, odd);
    var lon := Angle(p.lon, m) + 360.0 * turns as real;
    EncodedRepresents(p.lat, n, 0);
    EncodedRepresents(p.lon, m, turns);
    assert Angle(p.lat, n) + 360.0 * 0 as real == Angle(p.lat, n);
    NearestAngleUnique(refLat, n, Field(p.lat, n), Angle(p.lat, n));
    NearestAngleUnique(refLon, m, Field(p.lon, m), lon);
    AngleBounds(p.lat, odd);
    FoldOnceLands(lon, refLon, m);
    AngleNearValue(p.lat, n);
    AngleNearValue(p.lon, m);
    TurnsKeepMeridian(FoldOnce(lon), Angle(p.lon, m), turns);
    assert LocalZones(Nl(EncodedLat(p, odd)), odd) == m;
  }

  // Any frame at all: the one latitude in the window that stands for its field, accepted exactly
  // on the globe, and the one longitude in the window of that latitude's zones, folded once.
  lemma LocalFix(frame: Frame, refLat: real, refLon: real, lat: real, lon: real)
    requires Represents(lat, LatZones(frame.odd), frame.latCpr) && InWindow(lat, refLat, LatZones(frame.odd))
    requires Represents(lon, LonZones(Nl(lat), frame.odd), frame.lonCpr)
    requires InWindow(lon, refLon, LonZones(Nl(lat), frame.odd)) && -180.0 <= refLon <= 180.0
    ensures var fix := LocalDecode(frame, refLat, refLon);
      && (fix.Resolved? <==> -90.0 <= lat <= 90.0)
      && (fix.Resolved? ==> fix.lat == lat && SameMeridian(fix.lon, lon) && -180.0 <= fix.lon <= 180.0)
  {
    hide InWindow, Represents, NearestAngle, Nl, FoldOnce, SameMeridian;
    var m := LonZones(Nl(lat), frame.odd);
    NearestAngleUnique(refLat, LatZones(frame.odd), frame.latCpr, lat);
    assert LocalZones(Nl(lat), frame.odd) == m;
    NearestAngleUnique(refLon, m, frame.lonCpr, lon);
    FoldOnceLands(lon, refLon, m);
  }

  // The decoded latitude is the encoded one exactly when that lies within half a zone of the
  // reference.
  lemma LocalLatExact(p: Position, odd: bool, refLat: real)
    ensures NearestAngle(refLat, LatZones(odd), Encode(p, odd).latCpr) == EncodedLat(p, odd)
       <==> InWindow(EncodedLat(p, odd), refLat, LatZones(odd))
  {
    hide Angle, Field, InWindow, Represents, NearestAngle, Nl;
    var n := LatZones(odd);
    EncodedRepresents(p.lat, n, 0);
    assert Angle(p.lat, n) + 360.0 * 0 as real == Angle(p.lat, n);
    NearestAngleUnique(refLat, n, Field(p.lat, n), Angle(p.lat, n));
  }
}

// The NMEA parser's merge of RMC and GGA sentences into one fix per second
// (components/gps_clock/gps_clock_nmea.c). Decimal and hexadecimal field parsing is an input.
module Nmea {
  import opened Arith
  import opened Calendar
  import opened Geo
  import opened Wrappers

  // What the supervisor reads.
  datatype Signals = Signals(byteCount: nat, fixValid: bool, fixSeq: int, utcUs: int,
                             rmcSecond: int, lat: Float, lon: Float)

  datatype Rmc = Rmc(tod: Option<real>, active: bool, date: string, lat: Float, lon: Float)
  datatype Gga = Gga(tod: Option<real>, quality: int, lat: Float, lon: Float)

  predicate NullIsland(lat: Float, lon: Float) {
    lat.Finite? && lon.Finite? && Abs(lat.num) < 0.000001 && Abs(lon.num) < 0.000001
  }

  lemma Placeable(lat: Float, lon: Float)
    ensures InBounds(lat, lon) && !NullIsland(lat, lon) <==>
              && lat.Finite? && lon.Finite? && -90.0 <= lat.num <= 90.0 && -180.0 <= lon.num <= 180.0
              && !(-0.000001 < lat.num < 0.000001 && -0.000001 < lon.num < 0.000001)
  {
  }

  // lround of a non-negative number.
  function Round(x: real): int {
    (x + 0.5).Floor
  }

  function Centiseconds(tod: Option<real>): int {
    if tod.None? then -1 else Round(tod.value * 100.0)
  }

  // The hundredth of a second a time of day rounds to.
  predicate RoundsTo(tod: real, c: int) {
    c as real - 0.5 <= tod * 100.0 < c as real + 0.5
  }

  ghost predicate SameHundredth(s: real, t: real) {
    exists c: int :: RoundsTo(s, c) && RoundsTo(t, c)
  }

  // The keys of two times agree exactly when the times round to one hundredth; a missing time
  // agrees with none.
  lemma KeysAgree(s: Option<real>, t: real)
    requires 0.0 <= t && (s.Some? ==> 0.0 <= s.value)
    ensures Centiseconds(s) == Centiseconds(Some(t)) <==> s.Some? && SameHundredth(s.value, t)
  {
    hide RoundsTo, Round;
    var c := Centiseconds(Some(t));
    KeyIs(t, c);
    if s.Some? {
      KeyIs(s.value, Centiseconds(s));
      if SameHundredth(s.value, t) {
        var d: int :| RoundsTo(s.value, d) && RoundsTo(t, d);
        KeyIs(s.value, d);
        KeyIs(t, d);
      }
    }
  }

  lemma KeyIs(tod: real, c: int)
    requires 0.0 <= tod
    ensures Round(tod * 100.0) == c <==> RoundsTo(tod, c)
    ensures Round(tod * 100.0) >= 0
  {
    var x := tod * 100.0;
    assert x >= 0.0;
  }

  function Digit(c: char): int {
    c as int - '0' as int
  }

  function TwoDigits(s: string, i: nat): int
    requires i + 1 < |s|
  {
    Digit(s[i]) * 10 + Digit(s[i + 1])
  }

  // The sentence has a time, and a date whose day and month are in range.
  predicate Datable(rmc: Rmc) {
    && rmc.tod.Some? && 0.0 <= rmc.tod.value && |rmc.date| >= 6
    && 1 <= TwoDigits(rmc.date, 0) <= 31 && 1 <= TwoDigits(rmc.date, 2) <= 12
  }

  function RmcDate(rmc: Rmc): Date
    requires Datable(rmc)
  {
    Date(2000 + TwoDigits(rmc.date, 4), TwoDigits(rmc.date, 2), TwoDigits(rmc.date, 0))
  }

  function RmcUtcUs(rmc: Rmc): int
    requires Datable(rmc)
  {
    var whole := rmc.tod.value.Floor;
    UtcSecond(RmcDate(rmc), whole) * 1000000 + Round((rmc.tod.value - whole as real) * 1000000.0)
  }

  lemma LabelParts(rmc: Rmc)
    requires Datable(rmc)
    ensures
      var whole := rmc.tod.value.Floor;
      var day := DaysFromCivil(2000 + TwoDigits(rmc.date, 4), TwoDigits(rmc.date, 2), TwoDigits(rmc.date, 0));
      RmcUtcUs(rmc) == (day * 86400 + whole) * 1000000 + Round((rmc.tod.value - whole as real) * 1000000.0)
  {
    hide DaysFromCivil;
  }

  datatype Sentence = RmcSentence(rmc: Rmc) | GgaSentence(gga: Gga) | OtherSentence

  // A sentence's time of day, if it has one, is not negative.
  predicate Timed(s: Sentence) {
    match s
    case RmcSentence(rmc) => rmc.tod.Some? ==> 0.0 <= rmc.tod.value
    case GgaSentence(gga) => gga.tod.Some? ==> 0.0 <= gga.tod.value
    case OtherSentence => true
  }

  predicate Dates(s: Sentence) {
    s.RmcSentence? && Datable(s.rmc)
  }

  function LabelAt(s: Sentence): int
    requires Dates(s)
  {
    RmcUtcUs(s.rmc)
  }

  class Parser {
    var signals: Signals
    var haveRmc: bool
    var haveGga: bool
    var rmcActive: bool
    var rmcLat: Float
    var rmcLon: Float
    var rmcUtcUs: int
    var rmcTodCs: int
    var ggaQuality: int
    var ggaLat: Float
    var ggaLon: Float
    var ggaHasPos: bool
    var ggaTodCs: int
    var fixSeq: int
    // The time of the remembered GGA, which the code keeps only as its key.
    ghost var ggaTod: Option<real>

    // Between sentences no RMC is pending, and a fix flagged valid is one ownship will accept.
    ghost predicate Valid()
      reads this
    {
      && !haveRmc && fixSeq == signals.fixSeq
      && signals.rmcSecond == TruncDiv(signals.utcUs, 1000000)
      && (ggaHasPos ==> ggaLat.Finite? && ggaLon.Finite?)
      && (ggaTod.Some? ==> 0.0 <= ggaTod.value)
      && ggaTodCs == Centiseconds(ggaTod)
      && Usable(signals)
    }

    constructor ()
      ensures Valid() && !signals.fixValid && fixSeq == 0
    {
      signals := Signals(0, false, 0, 0, 0, Finite(0.0), Finite(0.0));
      haveRmc, haveGga, rmcActive, ggaHasPos := false, false, false, false;
      rmcLat, rmcLon, ggaLat, ggaLon := Finite(0.0), Finite(0.0), Finite(0.0), Finite(0.0);
      rmcUtcUs, rmcTodCs, ggaTodCs, ggaQuality, fixSeq := 0, -1, -1, 0, 0;
      ggaTod := None;
    }

    // A GGA counts for this RMC when their times of day agree.
    predicate GgaMatches()
      reads this
    {
      haveGga && ggaTodCs == rmcTodCs
    }

    function MergedLat(): Float
      reads this
    {
      if GgaMatches() && ggaHasPos then ggaLat else rmcLat
    }

    function MergedLon(): Float
      reads this
    {
      if GgaMatches() && ggaHasPos then ggaLon else rmcLon
    }

    method TryPublish()
      modifies this
      ensures old(!haveRmc) ==> unchanged(this)
      ensures ggaTod == old(ggaTod) && ggaTodCs == old(ggaTodCs)
      ensures old(haveRmc) ==>
                !haveRmc && !haveGga && !ggaHasPos && fixSeq == old(fixSeq) + 1
                && signals.byteCount == old(signals.byteCount) && signals.fixSeq == fixSeq
                && signals.utcUs == old(rmcUtcUs) && signals.rmcSecond == TruncDiv(signals.utcUs, 1000000)
                && signals.lat == old(MergedLat()) && signals.lon == old(MergedLon())
                && (signals.fixValid <==>
                      old(rmcActive) && (old(GgaMatches()) ==> old(ggaQuality) >= 1)
                      && InBounds(signals.lat, signals.lon) && !NullIsland(signals.lat, signals.lon))
      ensures Usable(old(signals)) ==> Usable(signals)
    {
      if !haveRmc {
        return;
      }
      var ggaMatches := haveGga && ggaTodCs == rmcTodCs;
      var lat := if ggaMatches && ggaHasPos then ggaLat else rmcLat;
      var lon := if ggaMatches && ggaHasPos then ggaLon else rmcLon;
      var qualityOk := if ggaMatches then ggaQuality >= 1 else true;
      var coordsOk := InBounds(lat, lon) && !NullIsland(lat, lon);
      var fixValid := rmcActive && qualityOk && coordsOk;
      fixSeq := fixSeq + 1;
      signals := Signals(signals.byteCount, fixValid, fixSeq, rmcUtcUs,
                         TruncDiv(rmcUtcUs, 1000000), lat, lon);
      haveRmc, haveGga, ggaHasPos := false, false, false;
    }

    // An RMC with a time and a date publishes exactly one fix; any other is ignored.
    method HandleRmc(rmc: Rmc)
      requires Valid() && (rmc.tod.Some? ==> 0.0 <= rmc.tod.value)
      modifies this
      ensures Valid()
      ensures !Datable(rmc) ==> unchanged(this)
      ensures Datable(rmc) ==>
                signals.fixSeq == old(signals.fixSeq) + 1 && signals.utcUs == RmcUtcUs(rmc)
                && signals.byteCount == old(signals.byteCount)
      ensures Datable(rmc) ==>
                var gga := old(haveGga) && old(ggaTod).Some? && SameHundredth(old(ggaTod).value, rmc.tod.value);
                && (if gga && old(ggaHasPos) then signals.lat == old(ggaLat) && signals.lon == old(ggaLon)
                    else signals.lat == rmc.lat && signals.lon == rmc.lon)
                && (signals.fixValid <==>
                      rmc.active && (gga ==> old(ggaQuality) >= 1)
                      && signals.lat.Finite? && signals.lon.Finite?
                      && -90.0 <= signals.lat.num <= 90.0 && -180.0 <= signals.lon.num <= 180.0
                      && !(-0.000001 < signals.lat.num < 0.000001 && -0.000001 < signals.lon.num < 0.000001))
    {
      hide DaysFromCivil, InBounds, NullIsland, TruncDiv, SameHundredth, Centiseconds, RmcUtcUs, Round;
      if rmc.tod.None? || |rmc.date| < 6 {
        return;
      }
      var dd, mo, yy := TwoDigits(rmc.date, 0), TwoDigits(rmc.date, 2), TwoDigits(rmc.date, 4);
      if dd < 1 || dd > 31 || mo < 1 || mo > 12 {
        return;
      }
      var year := 2000 + yy;
      var wholeSec := rmc.tod.value.Floor;
      var frac := rmc.tod.value - wholeSec as real;
      var utcSec := DaysFromCivil(year, mo, dd) * 86400 + wholeSec;
      rmcActive := rmc.active;
      rmcLat, rmcLon := rmc.lat, rmc.lon;
      rmcUtcUs := utcSec * 1000000 + Round(frac * 1000000.0);
      LabelParts(rmc);
      rmcTodCs := Centiseconds(rmc.tod);
      KeysAgree(ggaTod, rmc.tod.value);
      haveRmc := true;
      TryPublish();
      Placeable(signals.lat, signals.lon);
    }

    // A GGA is only remembered: with no RMC pending nothing is published.
    method HandleGga(gga: Gga)
      requires Valid() && (gga.tod.Some? ==> 0.0 <= gga.tod.value)
      modifies this
      ensures Valid() && signals == old(signals)
      ensures haveGga && ggaTod == gga.tod && ggaQuality == gga.quality
      ensures ggaLat == gga.lat && ggaLon == gga.lon && (ggaHasPos <==> gga.lat.Finite? && gga.lon.Finite?)
    {
      ggaQuality, ggaLat, ggaLon := gga.quality, gga.lat, gga.lon;
      ggaHasPos := gga.lat.Finite? && gga.lon.Finite?;
      ggaTodCs := Centiseconds(gga.tod);
      ggaTod := gga.tod;
      haveGga := true;
      TryPublish();
    }

    // A batch of received bytes and the checked sentences that end in it. The published label is
    // that of the last sentence with a time and a date, and each of those is a fix of its own.
    method Feed(bytes: nat, sentences: seq<Sentence>)
      requires Valid() && forall i :: 0 <= i < |sentences| ==> Timed(sentences[i])
      modifies this
      ensures Valid() && signals.byteCount == (old(signals.byteCount) + bytes) % 0x1_0000_0000
      ensures Fed(old(signals).(byteCount := signals.byteCount), signals, sentences)
    {
      hide Valid, Timed, Fed;
      Count(bytes);
      ghost var counted := signals;
      NothingFed(counted);
      for i := 0 to |sentences|
        invariant Valid() && signals.byteCount == counted.byteCount && Fed(counted, signals, sentences[..i])
      {
        FedNext(counted, signals, sentences[..i], sentences[i]);
        assert sentences[..i + 1] == sentences[..i] + [sentences[i]];
        Dispatch(sentences[i]);
      }
      assert sentences[..|sentences|] == sentences;
    }

    method Count(bytes: nat)
      requires Valid()
      modifies this`signals
      ensures Valid() && signals == old(signals).(byteCount := (old(signals.byteCount) + bytes) % 0x1_0000_0000)
    {
      signals := signals.(byteCount := (signals.byteCount + bytes) % 0x1_0000_0000);
    }

    method Dispatch(s: Sentence)
      requires Valid() && Timed(s)
      modifies this
      ensures Valid() && signals.byteCount == old(signals.byteCount)
      ensures !Dates(s) ==> signals == old(signals)
      ensures Dates(s) ==> signals.fixSeq == old(signals.fixSeq) + 1 && signals.utcUs == LabelAt(s)
    {
      hide Valid, SameHundredth, InBounds, NullIsland, RmcUtcUs;
      match s
      case RmcSentence(rmc) => HandleRmc(rmc);
      case GgaSentence(gga) => HandleGga(gga);
      case OtherSentence =>
    }
  }

  // Sentence k is the last one with a time and a date.
  predicate LastDated(sentences: seq<Sentence>, k: nat)
    requires k < |sentences|
  {
    Dates(sentences[k]) && forall i :: k < i < |sentences| ==> !Dates(sentences[i])
  }

  ghost function DatedAt(sentences: seq<Sentence>): set<int> {
    set i | 0 <= i < |sentences| && Dates(sentences[i])
  }

  // Each sentence with a time and a date is a fix of its own, and the last of them names the time.
  ghost predicate Fed(before: Signals, after: Signals, sentences: seq<Sentence>) {
    && after.fixSeq == before.fixSeq + |DatedAt(sentences)|
    && (DatedAt(sentences) == {} ==> after == before)
    && forall k :: 0 <= k < |sentences| && LastDated(sentences, k) ==> after.utcUs == LabelAt(sentences[k])
  }

  lemma NothingFed(signals: Signals)
    ensures Fed(signals, signals, [])
  {
  }

  lemma FedNext(before: Signals, mid: Signals, sentences: seq<Sentence>, s: Sentence)
    requires Fed(before, mid, sentences)
    ensures
      forall after: Signals ::
        (if Dates(s) then after.fixSeq == mid.fixSeq + 1 && after.utcUs == LabelAt(s) else after == mid)
        ==> Fed(before, after, sentences + [s])
  {
    hide Dates, LabelAt, LastDated;
    var n, more := |sentences|, sentences + [s];
    DatedNext(sentences, s);
    LastDatedNext(sentences, s);
  }

  lemma DatedNext(sentences: seq<Sentence>, s: Sentence)
    ensures DatedAt(sentences + [s]) == DatedAt(sentences) + (if Dates(s) then {|sentences|} else {})
    ensures |DatedAt(sentences + [s])| == |DatedAt(sentences)| + (if Dates(s) then 1 else 0)
  {
    hide Dates;
    assert DatedAt(sentences + [s]) == DatedAt(sentences) + (if Dates(s) then {|sentences|} else {});
  }

  lemma LastDatedNext(sentences: seq<Sentence>, s: Sentence)
    ensures forall k :: 0 <= k < |sentences| ==>
              (LastDated(sentences + [s], k) <==> LastDated(sentences, k) && !Dates(s))
    ensures LastDated(sentences + [s], |sentences|) <==> Dates(s)
  {
    hide Dates;
    var more := sentences + [s];
    forall k | 0 <= k < |sentences|
      ensures LastDated(more, k) <==> LastDated(sentences, k) && !Dates(s)
    {
      assert more[|sentences|] == s;
      assert forall j :: 0 <= j < |sentences| ==> more[j] == sentences[j];
    }
  }

  // The guarantee the supervisor's ladder relies on.
  predicate Usable(s: Signals) {
    s.fixValid ==> InBounds(s.lat, s.lon)
  }
}

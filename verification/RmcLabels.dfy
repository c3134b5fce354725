// The order of the microsecond labels the RMC handler publishes
// (components/gps_clock/gps_clock_nmea.c), for times with any number of decimals.
module RmcLabels {
  import opened Calendar
  import opened Nmea
  import opened Geo
  import opened Wrappers

  const DAY_US := 86400000000

  // ---- a label is a day number and a rounded time of day

  function Micros(tod: real): int {
    Round(tod * 1000000.0)
  }

  function Label(d: Date, tod: real): int
    requires 1 <= d.month
  {
    Days(d) * DAY_US + Micros(tod)
  }

  lemma FloorShift(x: real, n: int)
    ensures (x + n as real).Floor == x.Floor + n
  {
  }

  // Rounding the fraction of the second is rounding the time of day.
  lemma MicrosSplit(tod: real)
    ensures Micros(tod) == tod.Floor * 1000000 + Round((tod - tod.Floor as real) * 1000000.0)
  {
    var x := (tod - tod.Floor as real) * 1000000.0;
    FloorShift(x + 0.5, tod.Floor * 1000000);
    assert tod * 1000000.0 + 0.5 == x + 0.5 + (tod.Floor * 1000000) as real;
  }

  lemma LabelOf(rmc: Rmc)
    requires Datable(rmc)
    ensures RmcUtcUs(rmc) == Label(RmcDate(rmc), rmc.tod.value)
    ensures 1 <= RmcDate(rmc).month <= 12 && 1 <= RmcDate(rmc).day <= 31
  {
    hide DaysFromCivil, Round;
    MicrosSplit(rmc.tod.value);
  }

  lemma MicrosOrdered(s: real, t: real)
    requires s <= t
    ensures Micros(s) <= Micros(t)
  {
    assert s * 1000000.0 <= t * 1000000.0;
  }

  // Just before midnight the rounding can reach the whole day.
  lemma MicrosInDay(tod: real)
    requires 0.0 <= tod
    ensures 0 <= Micros(tod) && (tod < 86400.0 ==> Micros(tod) <= DAY_US) && (tod >= 86400.0 ==> Micros(tod) >= DAY_US)
  {
    var x := tod * 1000000.0;
    assert tod < 86400.0 ==> x < 86400000000.0;
    assert tod >= 86400.0 ==> x >= 86400000000.0;
  }

  // An NMEA time has two decimals: a whole number of centiseconds.
  predicate TwoDecimals(tod: real) {
    (tod * 100.0).Floor as real == tod * 100.0
  }

  lemma MicrosExact(tod: real)
    requires TwoDecimals(tod)
    ensures Micros(tod) == (tod * 100.0).Floor * 10000
  {
    assert tod * 1000000.0 == ((tod * 100.0).Floor * 10000) as real;
  }

  lemma CentisOrdered(s: real, t: real)
    requires TwoDecimals(s) && TwoDecimals(t) && s < t
    ensures Micros(s) < Micros(t)
  {
    hide Micros;
    MicrosExact(s);
    MicrosExact(t);
    assert s * 100.0 < t * 100.0;
  }

  // ---- what a label counts

  function Digits(n: nat): string
    requires n < 100
  {
    ['0' + (n / 10) as char, '0' + (n % 10) as char]
  }

  // Day, month and the last two digits of the year, as the sentence writes a date of this century.
  function Written(d: Date): string
    requires d.day < 100 && d.month < 100 && 2000 <= d.year < 2100
  {
    Digits(d.day) + Digits(d.month) + Digits(d.year - 2000)
  }

  lemma DigitsRead(n: nat)
    requires n < 100
    ensures TwoDigits(Digits(n), 0) == n
  {
  }

  lemma DateRead(d: Date, rmc: Rmc)
    requires OnCalendar(d) && 2000 <= d.year < 2100 && rmc.date == Written(d)
    requires rmc.tod.Some? && 0.0 <= rmc.tod.value
    ensures Datable(rmc) && RmcDate(rmc) == d
  {
    DigitsRead(d.day);
    DigitsRead(d.month);
    DigitsRead(d.year - 2000);
    PairRead(rmc.date, Digits(d.day), Digits(d.month), Digits(d.year - 2000));
  }

  lemma PairRead(s: string, a: string, b: string, c: string)
    requires |a| == |b| == |c| == 2 && s == a + b + c
    ensures TwoDigits(s, 0) == TwoDigits(a, 0) && TwoDigits(s, 2) == TwoDigits(b, 0) && TwoDigits(s, 4) == TwoDigits(c, 0)
  {
  }

  // A sentence that writes the date n days after 1970-01-01 is labelled n days of microseconds and
  // its rounded time of day after the epoch.
  lemma LabelCounts(n: nat, rmc: Rmc)
    requires 2000 <= Later(Date(1970, 1, 1), n).year < 2100 && rmc.date == Written(Later(Date(1970, 1, 1), n))
    requires rmc.tod.Some? && 0.0 <= rmc.tod.value
    ensures Datable(rmc) && RmcUtcUs(rmc) == n * 86400000000 + Round(rmc.tod.value * 1000000.0)
  {
    hide RmcDate, RmcUtcUs, DaysFromCivil, Written, Round, Datable, Later;
    DateRead(Later(Date(1970, 1, 1), n), rmc);
    LabelOf(rmc);
    CountsDays(Date(1970, 1, 1), n);
    Epoch();
  }

  // ---- on calendar dates

  predicate Sooner(a: Rmc, b: Rmc)
    requires Datable(a) && Datable(b)
  {
    Comes(RmcDate(a), a.tod.value, RmcDate(b), b.tod.value)
  }

  predicate Comes(a: Date, s: real, b: Date, t: real) {
    Earlier(a, b) || (a == b && s < t)
  }

  // Both times round to the same microsecond, of one day or across a midnight.
  predicate Tied(a: Date, s: real, b: Date, t: real)
    requires OnCalendar(a)
  {
    if a == b then Micros(s) == Micros(t)
    else b == NextDay(a) && Micros(s) == DAY_US && Micros(t) == 0
  }

  // The labels of calendar dates never run backwards, coincide exactly where the rounding does,
  // and never coincide for two times of two decimals.
  lemma LabelsIncrease(a: Rmc, b: Rmc)
    requires Datable(a) && OnCalendar(RmcDate(a)) && a.tod.value < 86400.0
    requires Datable(b) && OnCalendar(RmcDate(b)) && b.tod.value < 86400.0
    requires Sooner(a, b)
    ensures RmcUtcUs(a) <= RmcUtcUs(b)
    ensures RmcUtcUs(a) == RmcUtcUs(b) <==> Tied(RmcDate(a), a.tod.value, RmcDate(b), b.tod.value)
    ensures TwoDecimals(a.tod.value) && TwoDecimals(b.tod.value) ==> RmcUtcUs(a) < RmcUtcUs(b)
  {
    hide DaysFromCivil, RmcDate, RmcUtcUs, Micros, TwoDecimals;
    var s, t := a.tod.value, b.tod.value;
    LabelOf(a);
    LabelOf(b);
    MicrosInDay(s);
    MicrosInDay(t);
    if Earlier(RmcDate(a), RmcDate(b)) {
      DayLater(RmcDate(a), RmcDate(b));
      if TwoDecimals(s) {
        CentisInDay(s);
      }
    } else {
      MicrosOrdered(s, t);
      if TwoDecimals(s) && TwoDecimals(t) {
        CentisOrdered(s, t);
      }
    }
  }

  lemma DayLater(a: Date, b: Date)
    requires OnCalendar(a) && OnCalendar(b) && Earlier(a, b)
    ensures a != b && Days(a) + 1 <= Days(b) && (Days(b) == Days(a) + 1 <==> b == NextDay(a))
  {
    hide DaysFromCivil;
    Monotone(a, b);
    Successor(a);
    if Days(b) == Days(a) + 1 {
      Injective(b, NextDay(a));
    }
  }

  lemma CentisInDay(tod: real)
    requires TwoDecimals(tod) && tod < 86400.0
    ensures Micros(tod) < DAY_US
  {
    hide Micros;
    MicrosExact(tod);
    assert tod * 100.0 < 8640000.0;
  }

  // A ten-millionth before midnight, and midnight.
  lemma MidnightTie()
    ensures
      var a := Rmc(Some(86399.9999999), true, "010126", Finite(0.0), Finite(0.0));
      var b := Rmc(Some(0.0), true, "020126", Finite(0.0), Finite(0.0));
      && Datable(a) && Datable(b) && OnCalendar(RmcDate(a)) && OnCalendar(RmcDate(b))
      && Sooner(a, b) && RmcUtcUs(a) == RmcUtcUs(b)
  {
  }

  // ---- over everything the handler accepts

  // A time the parser lets through, up to second 60 of the last minute, and a date of bytes.
  predicate Accepted(rmc: Rmc) {
    Datable(rmc) && rmc.tod.value < 86401.0 && forall i :: 0 <= i < |rmc.date| ==> rmc.date[i] as int < 256
  }

  predicate HasNextYear(rmc: Rmc)
    requires Accepted(rmc)
  {
    rmc.date[5] as int < 255
  }

  predicate Labelled(d: Date, tod: real) {
    1 <= d.month <= 12 && 1 <= d.day <= 31 && 0.0 <= tod < 86401.0
  }

  predicate Rises(a: Rmc, b: Rmc)
    requires Accepted(a)
  {
    Accepted(b) && TwoDecimals(b.tod.value) && Sooner(a, b) ==> RmcUtcUs(a) < RmcUtcUs(b)
  }

  // With two decimals, a label is below every later one if and only if its date is on the
  // calendar and its second is not a leap second.
  lemma OrderCondition(a: Rmc)
    requires Accepted(a) && HasNextYear(a) && TwoDecimals(a.tod.value)
    ensures (forall b: Rmc :: Rises(a, b)) <==> OnCalendar(RmcDate(a)) && a.tod.value < 86400.0
  {
    hide DaysFromCivil, Micros, TwoDecimals, RmcUtcUs, RmcDate, TwoDigits;
    if OnCalendar(RmcDate(a)) && a.tod.value < 86400.0 {
      forall b: Rmc
        ensures Rises(a, b)
      {
        if Accepted(b) && TwoDecimals(b.tod.value) && Sooner(a, b) {
          LabelOf(a);
          LabelOf(b);
          RisesLater(RmcDate(a), a.tod.value, RmcDate(b), b.tod.value);
        }
      }
    } else {
      var b := NotBelow(a);
      assert !Rises(a, b);
    }
  }

  // The next midnight, or the sentence for the day its date runs into.
  lemma NotBelow(a: Rmc) returns (b: Rmc)
    requires Accepted(a) && HasNextYear(a) && TwoDecimals(a.tod.value)
    requires !OnCalendar(RmcDate(a)) || a.tod.value >= 86400.0
    ensures !Rises(a, b)
  {
    hide DaysFromCivil, Micros, TwoDecimals, RmcUtcUs, RmcDate, TwoDigits, Stamp;
    var d, tod := RmcDate(a), a.tod.value;
    LabelOf(a);
    if OnCalendar(d) {
      Successor(d);
      MicrosInDay(tod);
      MidnightExact();
      b := Stamped(a, NextDay(d), 0.0);
    } else {
      DayOverflowAliases(d.year, d.month, d.day);
      b := Stamped(a, Alias(d), tod);
    }
    LabelOf(b);
  }

  lemma RisesLater(a: Date, s: real, b: Date, t: real)
    requires OnCalendar(a) && s < 86400.0 && TwoDecimals(s)
    requires Labelled(b, t) && TwoDecimals(t) && Comes(a, s, b, t)
    ensures Label(a, s) < Label(b, t)
  {
    hide DaysFromCivil, Micros, TwoDecimals;
    CentisInDay(s);
    MicrosInDay(t);
    if Earlier(a, b) {
      CalendarBelow(a, b);
    } else {
      CentisOrdered(s, t);
    }
  }

  lemma MidnightExact()
    ensures TwoDecimals(0.0) && Micros(0.0) == 0
  {
  }

  // The calendar date a day past the end of its month is labelled as.
  function Alias(d: Date): Date
    requires 1 <= d.month <= 12 && 1 <= d.day <= 31 && !OnCalendar(d)
  {
    Date(d.year, d.month + 1, d.day - MonthLength(d.year, d.month))
  }

  // A sentence for another day of the same year or the next one.
  function Stamp(a: Rmc, d: Date, tod: real): Rmc
    requires Accepted(a) && HasNextYear(a) && d.month <= 12 && d.day <= 31
  {
    var year := if d.year == RmcDate(a).year then a.date[5] else (a.date[5] as int + 1) as char;
    Rmc(Some(tod), true, Digits(d.day) + Digits(d.month) + [a.date[4], year], Finite(0.0), Finite(0.0))
  }

  lemma Stamped(a: Rmc, d: Date, tod: real) returns (b: Rmc)
    requires Accepted(a) && HasNextYear(a) && Labelled(d, tod)
    requires RmcDate(a).year <= d.year <= RmcDate(a).year + 1
    ensures Accepted(b) && RmcDate(b) == d && b.tod == Some(tod)
  {
    b := Stamp(a, d, tod);
    assert b.date[0..2] == Digits(d.day) && b.date[2..4] == Digits(d.month);
    assert TwoDigits(b.date, 0) == d.day && TwoDigits(b.date, 2) == d.month;
  }

  // How far past its day, or past the last day of its month, a label runs.
  function OverrunUs(d: Date, tod: real): int {
    var length := MonthLength(d.year, d.month);
    (if d.day > length then d.day - length else 0) * DAY_US + Micros(tod)
  }

  predicate Keeps(a: Rmc, b: Rmc)
    requires Accepted(a)
  {
    Accepted(b) && Sooner(a, b) ==> RmcUtcUs(a) <= RmcUtcUs(b)
  }

  // With any number of decimals, a label is above no later one if and only if it runs at most
  // into the midnight that ends its day, or the last day of its month.
  lemma WeakOrderCondition(a: Rmc)
    requires Accepted(a) && HasNextYear(a)
    ensures (forall b: Rmc :: Keeps(a, b)) <==> OverrunUs(RmcDate(a), a.tod.value) <= DAY_US
  {
    hide DaysFromCivil, Micros, RmcUtcUs, RmcDate, TwoDigits, Stamp;
    var d, tod := RmcDate(a), a.tod.value;
    LabelOf(a);
    if OverrunUs(d, tod) <= DAY_US {
      forall b: Rmc
        ensures Keeps(a, b)
      {
        if Accepted(b) && Sooner(a, b) {
          LabelOf(b);
          KeepsLater(d, tod, RmcDate(b), b.tod.value);
        }
      }
    } else {
      var next := if OnCalendar(d) then NextDay(d) else Alias(d).(day := 1);
      OverrunPasses(d, tod, next);
      var b := Stamped(a, next, 0.0);
      LabelOf(b);
      assert !Keeps(a, b);
    }
  }

  lemma OverrunPasses(d: Date, tod: real, next: Date)
    requires Labelled(d, tod) && OverrunUs(d, tod) > DAY_US
    requires next == if OnCalendar(d) then NextDay(d) else Alias(d).(day := 1)
    ensures Label(next, 0.0) < Label(d, tod) && Comes(d, tod, next, 0.0)
  {
    hide DaysFromCivil, Micros;
    MicrosInDay(tod);
    MidnightExact();
    if OnCalendar(d) {
      Successor(d);
    } else {
      DayOverflowAliases(d.year, d.month, d.day);
      DayShift(next.year, next.month, 1, Alias(d).day - 1);
    }
  }

  lemma KeepsLater(a: Date, s: real, b: Date, t: real)
    requires Labelled(a, s) && Labelled(b, t) && Comes(a, s, b, t) && OverrunUs(a, s) <= DAY_US
    ensures Label(a, s) <= Label(b, t)
  {
    hide DaysFromCivil, Micros;
    MicrosInDay(s);
    MicrosInDay(t);
    if a == b {
      MicrosOrdered(s, t);
    } else if OnCalendar(a) {
      CalendarBelow(a, b);
    } else {
      var first := Date(a.year, a.month + 1, 1);
      DayOverflowAliases(a.year, a.month, a.day);
      if b.year == a.year && b.month == a.month {
        DayShift(a.year, a.month, a.day, b.day - a.day);
      } else if b != first {
        CalendarBelow(first, b);
      }
    }
  }
}

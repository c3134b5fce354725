// The calendar arithmetic of the NMEA parser (components/gps_clock/gps_clock_nmea.c): days since
// 1970-01-01 from a Gregorian date, against the calendar itself.
module Calendar {
  import opened Arith

  const SECONDS_PER_DAY := 86400

  datatype Date = Date(year: int, month: nat, day: nat)

  // ---- the calendar

  predicate Leap(year: int) {
    year % 4 == 0 && (year % 100 != 0 || year % 400 == 0)
  }

  function MonthLength(year: int, month: nat): nat {
    if month == 2 then (if Leap(year) then 29 else 28)
    else if month == 4 || month == 6 || month == 9 || month == 11 then 30
    else 31
  }

  predicate OnCalendar(d: Date) {
    1 <= d.month <= 12 && 1 <= d.day <= MonthLength(d.year, d.month)
  }

  function NextDay(d: Date): (next: Date)
    requires OnCalendar(d)
    ensures OnCalendar(next)
  {
    if d.day < MonthLength(d.year, d.month) then d.(day := d.day + 1)
    else if d.month < 12 then Date(d.year, d.month + 1, 1)
    else Date(d.year + 1, 1, 1)
  }

  predicate Earlier(a: Date, b: Date) {
    a.year < b.year
    || (a.year == b.year && a.month < b.month)
    || (a.year == b.year && a.month == b.month && a.day < b.day)
  }

  // ---- the code

  function DaysFromCivil(year: int, month: nat, day: nat): int
    requires 1 <= month
  {
    var y := if month <= 2 then year - 1 else year;
    var era := TruncDiv(if y >= 0 then y else y - 399, 400);
    var yoe := y - era * 400;
    var doy := (153 * (month + (if month > 2 then -3 else 9)) + 2) / 5 + day - 1;
    var doe := yoe * 365 + yoe / 4 - yoe / 100 + doy;
    era * 146097 + doe - 719468
  }

  function Days(d: Date): int
    requires 1 <= d.month
  {
    DaysFromCivil(d.year, d.month, d.day)
  }

  // ---- its parts: whole years that begin in March, and the days within one

  function MarchYear(d: Date): int {
    if d.month <= 2 then d.year - 1 else d.year
  }

  function YearStart(y: int): int {
    y / 400 * 146097 + y % 400 * 365 + y % 400 / 4 - y % 400 / 100
  }

  function DayOfYear(month: nat, day: nat): int {
    (153 * (if month > 2 then month - 3 else month + 9) + 2) / 5 + day - 1
  }

  function YearLength(y: int): int {
    if Leap(y + 1) then 366 else 365
  }

  lemma EraIsFloor(y: int)
    ensures TruncDiv(if y >= 0 then y else y - 399, 400) == y / 400
  {
  }

  lemma DaysByParts(d: Date)
    requires OnCalendar(d)
    ensures Days(d) == YearStart(MarchYear(d)) + DayOfYear(d.month, d.day) - 719468
  {
    EraIsFloor(MarchYear(d));
  }

  lemma YearStartNext(y: int)
    ensures YearStart(y + 1) == YearStart(y) + YearLength(y)
  {
    var era, yoe := y / 400, y % 400;
    EraNext(y);
    LeapInEra(y + 1);
    if yoe < 399 {
      YoeNext(yoe);
    }
  }

  lemma EraNext(y: int)
    ensures y % 400 < 399 ==> (y + 1) / 400 == y / 400 && (y + 1) % 400 == y % 400 + 1
    ensures y % 400 == 399 ==> (y + 1) / 400 == y / 400 + 1 && (y + 1) % 400 == 0
  {
  }

  lemma LeapInEra(y: int)
    ensures Leap(y) <==> Leap(y % 400)
  {
  }

  lemma YoeNext(yoe: nat)
    ensures (yoe + 1) / 4 == yoe / 4 + (if (yoe + 1) % 4 == 0 then 1 else 0)
    ensures (yoe + 1) / 100 == yoe / 100 + (if (yoe + 1) % 100 == 0 then 1 else 0)
  {
  }

  lemma {:induction false} YearStartMonotone(a: int, b: int)
    requires a < b
    ensures YearStart(a) + YearLength(a) <= YearStart(b)
    decreases b - a
  {
    hide YearStart, YearLength;
    if a + 1 == b {
      YearStartNext(a);
    } else {
      YearStartMonotone(a, b - 1);
      YearStartNext(b - 1);
      YearLengths(b - 1);
    }
  }

  lemma YearLengths(y: int)
    ensures 365 <= YearLength(y) <= 366
  {
  }

  lemma DayOfYearBound(d: Date)
    requires OnCalendar(d)
    ensures 0 <= DayOfYear(d.month, d.day) < YearLength(MarchYear(d))
  {
  }

  lemma DayOfYearMonotone(a: Date, b: Date)
    requires OnCalendar(a) && OnCalendar(b) && Earlier(a, b) && MarchYear(a) == MarchYear(b)
    ensures DayOfYear(a.month, a.day) < DayOfYear(b.month, b.day)
  {
  }

  // ---- what it computes

  // Day 0 is 1970-01-01, and every date, in any year, is one less than the day after it.
  lemma Epoch()
    ensures Days(Date(1970, 1, 1)) == 0
  {
  }

  lemma Successor(d: Date)
    requires OnCalendar(d)
    ensures Days(NextDay(d)) == Days(d) + 1
  {
    hide YearStart;
    var next := NextDay(d);
    DaysByParts(d);
    DaysByParts(next);
    if MarchYear(next) != MarchYear(d) {
      YearStartNext(MarchYear(d));
    }
    DayAfter(d);
  }

  lemma DayAfter(d: Date)
    requires OnCalendar(d)
    ensures var next := NextDay(d);
            if MarchYear(next) == MarchYear(d) then
              DayOfYear(next.month, next.day) == DayOfYear(d.month, d.day) + 1
            else
              MarchYear(next) == MarchYear(d) + 1 && DayOfYear(next.month, next.day) == 0
              && DayOfYear(d.month, d.day) == YearLength(MarchYear(d)) - 1
  {
  }

  // Strictly increasing in calendar order, hence one number per date.
  lemma Monotone(a: Date, b: Date)
    requires OnCalendar(a) && OnCalendar(b) && Earlier(a, b)
    ensures Days(a) < Days(b)
  {
    hide YearStart, DayOfYear, YearLength;
    DaysByParts(a);
    DaysByParts(b);
    if MarchYear(a) == MarchYear(b) {
      DayOfYearMonotone(a, b);
    } else {
      YearStartMonotone(MarchYear(a), MarchYear(b));
      DayOfYearBound(a);
      DayOfYearBound(b);
    }
  }

  lemma Injective(a: Date, b: Date)
    requires OnCalendar(a) && OnCalendar(b) && Days(a) == Days(b)
    ensures a == b
  {
    if a != b {
      if Earlier(a, b) {
        Monotone(a, b);
      } else {
        Monotone(b, a);
      }
    }
  }

  // The date n days later, by the calendar: the code counts days.
  function Later(d: Date, n: nat): (later: Date)
    requires OnCalendar(d)
    ensures OnCalendar(later)
  {
    if n == 0 then d else NextDay(Later(d, n - 1))
  }

  lemma {:induction false} CountsDays(d: Date, n: nat)
    requires OnCalendar(d)
    ensures Days(Later(d, n)) == Days(d) + n
  {
    hide DaysFromCivil;
    if n != 0 {
      CountsDays(d, n - 1);
      Successor(Later(d, n - 1));
    }
  }

  // ---- timestamps

  // The integer second the RMC handler labels a fix with.
  function UtcSecond(d: Date, wholeSecond: nat): int
    requires 1 <= d.month
  {
    Days(d) * SECONDS_PER_DAY + wholeSecond
  }

  lemma TimestampsIncrease(a: Date, s: nat, b: Date, t: nat)
    requires OnCalendar(a) && OnCalendar(b) && s < SECONDS_PER_DAY && t < SECONDS_PER_DAY
    ensures UtcSecond(a, s) < UtcSecond(b, t) <==> Earlier(a, b) || (a == b && s < t)
  {
    hide DaysFromCivil;
    if Earlier(a, b) {
      Monotone(a, b);
    } else if a != b {
      Monotone(b, a);
    }
  }

  // The handler accepts day 31 in every month, and second 60 in every minute; both run into the
  // following day, so outside the calendar two accepted labels can coincide.
  lemma DayOverflowAliases(year: int, month: nat, day: nat)
    requires 1 <= month <= 11 && MonthLength(year, month) < day <= 31
    ensures DaysFromCivil(year, month, day)
         == Days(Date(year, month + 1, day - MonthLength(year, month)))
    ensures OnCalendar(Date(year, month + 1, day - MonthLength(year, month)))
  {
    hide YearStart;
    var last := Date(year, month, MonthLength(year, month));
    var first := Date(year, month + 1, 1);
    Successor(last);
    assert NextDay(last) == first;
    DayShift(year, month, MonthLength(year, month), day - MonthLength(year, month));
    DayShift(year, month + 1, 1, day - MonthLength(year, month) - 1);
  }

  lemma DayShift(year: int, month: nat, day: nat, k: nat)
    requires 1 <= month
    ensures DaysFromCivil(year, month, day + k) == DaysFromCivil(year, month, day) + k
  {
  }

  lemma LeapSecondAliases(d: Date)
    requires OnCalendar(d)
    ensures UtcSecond(d, SECONDS_PER_DAY) == UtcSecond(NextDay(d), 0)
  {
    hide DaysFromCivil;
    Successor(d);
  }

  // A calendar date is before every later accepted one, on the calendar or not.
  lemma CalendarBelow(a: Date, b: Date)
    requires OnCalendar(a) && 1 <= b.month <= 12 && 1 <= b.day && Earlier(a, b)
    ensures Days(a) < Days(b)
  {
    hide DaysFromCivil;
    var last := MonthLength(b.year, b.month);
    if b.day <= last {
      Monotone(a, b);
    } else {
      DayShift(b.year, b.month, last, b.day - last);
      if a != b.(day := last) {
        Monotone(a, b.(day := last));
      }
    }
  }
}

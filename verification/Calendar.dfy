/** The proleptic Gregorian calendar in UTC, as Go's `time` package computes it.
    A day is numbered from 0 = Monday 1 January of year 1; a minute or an instant likewise. */
module Calendar {

  const NANOS_PER_MINUTE: int := 60_000_000_000
  const MINUTES_PER_DAY: int := 1440

  predicate Leap(y: int) { y % 4 == 0 && (y % 100 != 0 || y % 400 == 0) }

  function DaysInYear(y: int): int { if Leap(y) then 366 else 365 }

  function DaysBeforeYear(y: int): int { 365 * (y - 1) + (y - 1) / 4 - (y - 1) / 100 + (y - 1) / 400 }

  function DaysBeforeMonth(leap: bool, m: int): int
    requires 1 <= m <= 13
  {
    [0, 31, 59, 90, 120, 151, 181, 212, 243, 273, 304, 334, 365][m - 1] + if leap && m > 2 then 1 else 0
  }

  function DaysIn(leap: bool, m: int): int
    requires 1 <= m <= 12
  {
    DaysBeforeMonth(leap, m + 1) - DaysBeforeMonth(leap, m)
  }

  /** Years of 400, 100, 4 and 1 are taken off in turn. */
  function YearOf(day: int): int {
    var n400, d := day / 146097, day % 146097;
    var n100 := if d / 36524 == 4 then 3 else d / 36524;
    var e := d - 36524 * n100;
    var n4 := e / 1461;
    var f := e % 1461;
    var n1 := if f / 365 == 4 then 3 else f / 365;
    400 * n400 + 100 * n100 + 4 * n4 + n1 + 1
  }

  function YearDay(day: int): int { day - DaysBeforeYear(YearOf(day)) }

  function MonthFrom(leap: bool, yearDay: int, m: int): (r: int)
    requires 1 <= m <= 12
    ensures 1 <= r <= 12
    decreases 12 - m
  {
    if m == 12 || yearDay < DaysBeforeMonth(leap, m + 1) then m else MonthFrom(leap, yearDay, m + 1)
  }

  function MonthOf(day: int): (m: int)
    ensures 1 <= m <= 12
  {
    MonthFrom(Leap(YearOf(day)), YearDay(day), 1)
  }

  function DayOfMonth(day: int): int { YearDay(day) - DaysBeforeMonth(Leap(YearOf(day)), MonthOf(day)) + 1 }

  /** Sunday is 0. */
  function Weekday(day: int): int { (day + 1) % 7 }

  /** time.Date at midnight: a day past the end of the month runs on into the next one. */
  function DayNumber(y: int, m: int, d: int): int
    requires 1 <= m <= 12
  {
    DaysBeforeYear(y) + DaysBeforeMonth(Leap(y), m) + d - 1
  }

  predicate ValidDate(y: int, m: int, d: int) { 1 <= m <= 12 && 1 <= d <= DaysIn(Leap(y), m) }

  lemma DivStep(y: int, k: int)
    requires k == 4 || k == 100 || k == 400
    ensures y / k == (y - 1) / k + if y % k == 0 then 1 else 0
  {
    if k == 4 {} else if k == 100 {} else {}
  }

  lemma LeapCount(y: int)
    ensures (if y % 4 == 0 then 1 else 0) - (if y % 100 == 0 then 1 else 0) + (if y % 400 == 0 then 1 else 0) == if Leap(y) then 1 else 0
  {
    if y % 100 == 0 { assert y == 4 * (25 * (y / 100)); }
    if y % 400 == 0 { assert y == 100 * (4 * (y / 400)); }
  }

  lemma YearLength(y: int)
    ensures DaysBeforeYear(y + 1) == DaysBeforeYear(y) + DaysInYear(y)
  {
    hide Leap;
    DivStep(y, 4);
    DivStep(y, 100);
    DivStep(y, 400);
    LeapCount(y);
  }

  lemma {:induction false} YearsIncrease(a: int, b: int)
    requires a <= b
    ensures DaysBeforeYear(a) + 365 * (b - a) <= DaysBeforeYear(b)
    decreases b - a
  {
    if a < b {
      YearLength(a);
      YearsIncrease(a + 1, b);
    }
  }

  lemma DaysBeforeSplit(n400: int, n100: int, n4: int, n1: int)
    requires 0 <= n100 <= 3 && 0 <= n4 <= 24 && 0 <= n1 <= 3
    ensures DaysBeforeYear(400 * n400 + 100 * n100 + 4 * n4 + n1 + 1) == 146097 * n400 + 36524 * n100 + 1461 * n4 + 365 * n1
  {
    var n := 400 * n400 + 100 * n100 + 4 * n4 + n1;
    assert n / 4 == 100 * n400 + 25 * n100 + n4;
    assert n / 100 == 4 * n400 + n100;
    assert n / 400 == n400;
  }

  /** YearOf finds the year the day lies in. */
  lemma YearOfBrackets(day: int)
    ensures DaysBeforeYear(YearOf(day)) <= day < DaysBeforeYear(YearOf(day) + 1)
  {
    var n400, d := day / 146097, day % 146097;
    var n100 := if d / 36524 == 4 then 3 else d / 36524;
    var e := d - 36524 * n100;
    var n4 := e / 1461;
    var f := e % 1461;
    var n1 := if f / 365 == 4 then 3 else f / 365;
    assert 0 <= n100 <= 3 && 0 <= e <= 36524;
    assert n4 <= 24 && 0 <= n1 <= 3;
    DaysBeforeSplit(n400, n100, n4, n1);
    YearLength(YearOf(day));
    LeapWhenLong(n400, n100, n4, n1, f - 365 * n1, e);
  }

  /** The one day that a cycle of 365-day years leaves over falls in a leap year. */
  lemma LeapWhenLong(n400: int, n100: int, n4: int, n1: int, rest: int, e: int)
    requires 0 <= n100 <= 3 && 0 <= n4 <= 24 && 0 <= n1 <= 3
    requires rest >= 365 ==> n1 == 3
    requires e == 1461 * n4 + 365 * n1 + rest && 0 <= rest <= 365 && (n100 < 3 ==> e < 36524) && e <= 36524
    ensures rest < DaysInYear(400 * n400 + 100 * n100 + 4 * n4 + n1 + 1)
  {
    if rest == 365 {
      if n4 == 24 {
        assert e == 36524 && n100 == 3;
        Multiple(0, n400 + 1);
      } else {
        Multiple(n4 + 1, 4 * n400 + n100);
      }
    }
  }

  lemma Multiple(r: int, q: int)
    requires 0 <= r <= 24
    ensures r > 0 ==> Leap(100 * q + 4 * r)
    ensures r == 0 ==> Leap(400 * q)
  {
    if r > 0 {
      var y := 100 * q + 4 * r;
      assert y == 4 * (25 * q + r);
      assert y / 100 == q;
    } else {
      assert 400 * q == 4 * (100 * q);
    }
  }

  lemma YearIsUnique(day: int, y: int)
    requires DaysBeforeYear(y) <= day < DaysBeforeYear(y + 1)
    ensures YearOf(day) == y
  {
    YearOfBrackets(day);
    if YearOf(day) < y { YearsIncrease(YearOf(day) + 1, y); }
    if y < YearOf(day) { YearsIncrease(y + 1, YearOf(day)); }
  }

  lemma {:induction false} MonthFromFinds(leap: bool, yearDay: int, m: int, want: int)
    requires 1 <= m <= want <= 12
    requires DaysBeforeMonth(leap, want) <= yearDay < DaysBeforeMonth(leap, want + 1)
    ensures MonthFrom(leap, yearDay, m) == want
    decreases want - m
  {
    if m < want {
      assert DaysBeforeMonth(leap, m + 1) <= DaysBeforeMonth(leap, want);
      MonthFromFinds(leap, yearDay, m + 1, want);
    }
  }

  /** The calendar reads back every valid date. */
  lemma DateRoundTrip(y: int, m: int, d: int)
    requires ValidDate(y, m, d)
    ensures YearOf(DayNumber(y, m, d)) == y && MonthOf(DayNumber(y, m, d)) == m && DayOfMonth(DayNumber(y, m, d)) == d
  {
    var day := DayNumber(y, m, d);
    YearLength(y);
    assert DaysBeforeMonth(Leap(y), m + 1) <= DaysBeforeMonth(Leap(y), 13) == DaysInYear(y);
    YearIsUnique(day, y);
    MonthFromFinds(Leap(y), YearDay(day), 1, m);
  }

  lemma {:induction false} MonthFromBrackets(leap: bool, yearDay: int, m: int)
    requires 1 <= m <= 12 && DaysBeforeMonth(leap, m) <= yearDay < DaysBeforeMonth(leap, 13)
    ensures var r := MonthFrom(leap, yearDay, m);
            DaysBeforeMonth(leap, r) <= yearDay < DaysBeforeMonth(leap, r + 1)
    decreases 12 - m
  {
    if m < 12 && yearDay >= DaysBeforeMonth(leap, m + 1) { MonthFromBrackets(leap, yearDay, m + 1); }
  }

  /** Every day has a valid date, and the date gives back the day. */
  lemma DayRoundTrip(day: int)
    ensures ValidDate(YearOf(day), MonthOf(day), DayOfMonth(day))
    ensures DayNumber(YearOf(day), MonthOf(day), DayOfMonth(day)) == day
  {
    YearOfBrackets(day);
    YearLength(YearOf(day));
    MonthFromBrackets(Leap(YearOf(day)), YearDay(day), 1);
  }

  /** April, June, September and November have 30 days and February 28 or 29. */
  lemma MonthLengths(leap: bool, m: int)
    requires 1 <= m <= 12
    ensures DaysIn(leap, m) == if m == 4 || m == 6 || m == 9 || m == 11 then 30 else if m == 2 then (if leap then 29 else 28) else 31
    ensures DaysBeforeMonth(leap, 1) == 0
  {}

  /** Day 0 is Monday 1 January of year 1. */
  lemma FirstDay()
    ensures DayNumber(1, 1, 1) == 0 && Weekday(0) == 1
  {}

  /** Day 719162 is Thursday 1 January 1970. */
  lemma UnixDay()
    ensures DayNumber(1970, 1, 1) == 719_162
    ensures Weekday(719_162) == 4
  {
    assert DayNumber(1970, 1, 1) == 719_162;
    hide *;
    assert (719_162 + 1) % 7 == 4;
  }

  /** Weekdays follow one another, and after Saturday comes Sunday, which is 0. */
  lemma WeekdaysFollow(day: int)
    ensures 0 <= Weekday(day) <= 6 && Weekday(day + 1) == if Weekday(day) == 6 then 0 else Weekday(day) + 1
  {}
}

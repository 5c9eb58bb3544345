/** The Gregorian calendar repeats every 400 years, so whether the 366-day search can fail is a finite question. */
module CronCycle {
  import opened Wrappers
  import opened Calendar
  import opened CronField
  import opened CronSchedule

  const CYCLE_DAYS: int := 146_097
  const CYCLE: int := CYCLE_DAYS * MINUTES_PER_DAY

  lemma Shift(x: int)
    ensures (x + 400) / 4 == x / 4 + 100
    ensures (x + 400) / 100 == x / 100 + 4
    ensures (x + 400) / 400 == x / 400 + 1
  {}

  lemma SameRemainderBy(x: int, n: int, m: int)
    requires n > 0 && (x + 400) / n == x / n + m && n * m == 400
    ensures (x + 400) % n == x % n
  {
    assert x == n * (x / n) + x % n && x + 400 == n * ((x + 400) / n) + (x + 400) % n;
    assert n * (x / n + m) == n * (x / n) + n * m;
  }

  lemma LeapRepeats(y: int)
    ensures Leap(y + 400) == Leap(y)
  {
    Shift(y);
    SameRemainderBy(y, 4, 100);
    SameRemainderBy(y, 100, 4);
    SameRemainderBy(y, 400, 1);
  }

  lemma YearsRepeat(y: int)
    ensures DaysBeforeYear(y + 400) == DaysBeforeYear(y) + CYCLE_DAYS
  {
    Shift(y - 1);
    assert (y + 400) - 1 == (y - 1) + 400;
    assert 365 * ((y - 1) + 400) == 365 * (y - 1) + 146_000;
  }

  lemma YearRepeats(day: int)
    ensures YearOf(day + CYCLE_DAYS) == YearOf(day) + 400
  {
    assert (day + CYCLE_DAYS) / CYCLE_DAYS == day / CYCLE_DAYS + 1;
    assert (day + CYCLE_DAYS) % CYCLE_DAYS == day % CYCLE_DAYS;
  }

  lemma WeekRepeats(day: int)
    ensures Weekday(day + CYCLE_DAYS) == Weekday(day)
  {
    SameRemainder(20_871, day + 1);
    assert day + CYCLE_DAYS + 1 == 7 * 20_871 + (day + 1);
  }

  lemma DayRepeats(day: int)
    ensures MonthOf(day + CYCLE_DAYS) == MonthOf(day) && DayOfMonth(day + CYCLE_DAYS) == DayOfMonth(day)
    ensures Weekday(day + CYCLE_DAYS) == Weekday(day)
  {
    YearRepeats(day);
    YearsRepeat(YearOf(day));
    LeapRepeats(YearOf(day));
    WeekRepeats(day);
    hide MonthFrom, DaysBeforeYear, Leap, YearOf, Weekday, DaysBeforeMonth;
  }

  lemma MinuteRepeats(f: Fields, k: int)
    ensures Matches(f, k + CYCLE) <==> Matches(f, k)
  {
    DayRepeats(k / MINUTES_PER_DAY);
    hide MonthOf, DayOfMonth, Weekday;
    ClockRepeats(k);
  }

  lemma ClockRepeats(k: int)
    ensures (k + CYCLE) / MINUTES_PER_DAY == k / MINUTES_PER_DAY + CYCLE_DAYS
    ensures (k + CYCLE) % 60 == k % 60 && (k + CYCLE) / 60 % 24 == k / 60 % 24
  {
    assert CYCLE == 60 * 24 * CYCLE_DAYS;
    assert (k + CYCLE) / 60 == k / 60 + 24 * CYCLE_DAYS;
  }

  lemma {:induction false} CyclesRepeat(f: Fields, k: int, q: int)
    ensures Matches(f, k + q * CYCLE) <==> Matches(f, k)
    decreases if q < 0 then -q else q
  {
    hide Matches;
    if q > 0 {
      CyclesRepeat(f, k, q - 1);
      MinuteRepeats(f, k + (q - 1) * CYCLE);
      assert k + (q - 1) * CYCLE + CYCLE == k + q * CYCLE;
    } else if q < 0 {
      CyclesRepeat(f, k, q + 1);
      MinuteRepeats(f, k + q * CYCLE);
      assert k + (q + 1) * CYCLE == k + q * CYCLE + CYCLE;
    }
  }

  /** Some minute of the 366 days from c matches. */
  ghost predicate WindowHolds(f: Fields, c: int) { exists k :: c <= k < c + SEARCH_MINUTES && Matches(f, k) }

  /** Every 366-day window that begins in one cycle holds a match: finitely many windows. */
  ghost predicate CycleHolds(f: Fields) { forall c | 0 <= c < CYCLE :: WindowHolds(f, c) }

  lemma SearchIsWindow(f: Fields, from: int)
    ensures NextMinute(f, from).Some? <==> WindowHolds(f, Candidate(from))
  {
    SearchFindsLeast(f, from);
    FirstMatchIsFirst(f, Candidate(from), Candidate(from) + SEARCH_MINUTES);
    hide Matches, FirstMatch;
  }

  lemma WindowRepeats(f: Fields, c: int, q: int)
    requires WindowHolds(f, c)
    ensures WindowHolds(f, c + q * CYCLE)
  {
    hide Matches;
    var k :| c <= k < c + SEARCH_MINUTES && Matches(f, k);
    CyclesRepeat(f, k, q);
  }

  /** The 366-day search never fails, for whatever fields, exactly when every window of one 400-year cycle holds a match. */
  lemma NeverFailsExactly(f: Fields)
    ensures (forall from :: NextMinute(f, from).Some?) <==> CycleHolds(f)
  {
    hide NextMinute, WindowHolds;
    if CycleHolds(f) {
      forall from ensures NextMinute(f, from).Some? {
        var c := Candidate(from);
        assert c == c % CYCLE + c / CYCLE * CYCLE;
        WindowRepeats(f, c % CYCLE, c / CYCLE);
        SearchIsWindow(f, from);
      }
    }
    if forall from :: NextMinute(f, from).Some? {
      forall c | 0 <= c < CYCLE ensures WindowHolds(f, c) {
        var from := (c - 1) * NANOS_PER_MINUTE;
        assert Candidate(from) == c && NextMinute(f, from).Some?;
        SearchIsWindow(f, from);
      }
    }
  }
}

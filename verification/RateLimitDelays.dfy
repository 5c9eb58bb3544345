/** The limiter when requests reach the lock out of the order in which they read the clock, by a bounded delay. */
module RateLimitDelays {
  import opened RateLimit
  import opened RateLimitBounds

  /** A request's reading is at most `delay` later than that of any request that takes the lock after it. */
  ghost predicate NearOrder(run: seq<Arrival>, delay: int) {
    forall i, j | 0 <= i <= j < |run| :: run[i].now <= run[j].now + delay
  }

  /** Every reading is at least t. */
  ghost predicate From(run: seq<Arrival>, t: int) { forall a | a in run :: a.now >= t }

  lemma NearOrderTail(run: seq<Arrival>, delay: int)
    requires run != [] && NearOrder(run, delay)
    ensures NearOrder(run[1..], delay) && From(run[1..], run[0].now - delay)
  {
    forall a | a in run[1..] ensures a.now >= run[0].now - delay {
      var i :| 0 <= i < |run[1..]| && run[1..][i] == a;
      assert run[i + 1] == a && run[0].now <= run[i + 1].now + delay;
    }
  }

  lemma FromTail(run: seq<Arrival>, t: int)
    requires run != [] && From(run, t)
    ensures run[0].now >= t && From(run[1..], t)
  {
    assert run[0] in run && forall a | a in run[1..] :: a in run;
  }

  lemma WellFormedTail(run: seq<Arrival>)
    requires run != [] && WellFormed(run)
    ensures WellFormed(run[1..]) && DistinctKeys(run[0].buckets) && forall b | b in run[0].buckets :: b.limit > 0
  {
    assert run[0] in run && forall a | a in run[1..] :: a in run;
  }

  // ---------------------------------------------------------------- one step of a key

  /** What a request does to the entry of `key`: nothing, a charge of the current window, or the opening of one. */
  lemma KeyStep(s: State, a: Arrival, key: Key, limit: int)
    requires forall b | b in a.buckets :: b.limit > 0
    ensures var (t, admitted) := Handle(s, a.buckets, a.now);
            var charged := admitted && Charges(a.buckets, key);
            var live := key in s.entries && a.now <= s.entries[key].resetAt;
            && (admitted && Tests(a, key, limit) ==> charged && Current(s.entries, key, a.now).count < limit)
            && (charged && live ==> key in t.entries && t.entries[key] == Entry(s.entries[key].count + 1, s.entries[key].resetAt))
            && (charged && !live ==> key in t.entries && t.entries[key] == Entry(1, a.now + WINDOW))
            && (!charged && key in t.entries ==> key in s.entries && t.entries[key] == s.entries[key])
            && (!charged && key in s.entries && key !in t.entries ==> a.now > s.entries[key].resetAt)
  {
    AllOrNothing(s, a.buckets, a.now, key);
    if Tests(a, key, limit) {
      var i :| 0 <= i < |a.buckets| && a.buckets[i].key == key && a.buckets[i].limit <= limit;
      assert a.buckets[i] in a.buckets;
    }
  }

  // ---------------------------------------------------------------- windows open far apart

  /** `last` opened the newest window of `key`, which is stored, or swept and over by nearly every later reading. */
  ghost predicate Newest(s: State, run: seq<Arrival>, key: Key, delay: int, last: int) {
    && From(run, last - delay)
    && (key in s.entries ==> s.entries[key].resetAt == last + WINDOW && s.entries[key].count >= 1)
    && (key !in s.entries ==> From(run, last + WINDOW - delay + 1))
  }

  /** The request is admitted and opens a window of the key. */
  predicate Opens(s: State, a: Arrival, key: Key) {
    Handle(s, a.buckets, a.now).1 && Charges(a.buckets, key) && !(key in s.entries && a.now <= s.entries[key].resetAt)
  }

  /** The next window of the key opens more than WINDOW - delay after the one before it. */
  lemma OpensFarApart(s: State, run: seq<Arrival>, key: Key, delay: int, last: int)
    requires run != [] && delay >= 0 && NearOrder(run, delay) && Newest(s, run, key, delay, last)
    requires forall b | b in run[0].buckets :: b.limit > 0
    ensures var t := Handle(s, run[0].buckets, run[0].now).0;
            if Opens(s, run[0], key) then run[0].now > last + WINDOW - delay && Newest(t, run[1..], key, delay, run[0].now)
            else Newest(t, run[1..], key, delay, last)
  {
    KeyStep(s, run[0], key, 0);
    hide Handle, Charges, Tests, NearOrder;
    NearOrderTail(run, delay);
    FromTail(run, last - delay);
    if key !in s.entries { FromTail(run, last + WINDOW - delay + 1); }
  }

  // ---------------------------------------------------------------- the bound

  function Spare(s: State, key: Key, limit: int): int { if key in s.entries then Left(limit, s.entries[key].count) else 0 }

  /** n times x, by steps of x. */
  function Times(n: nat, x: int): int { if n == 0 then 0 else Times(n - 1, x) + x }

  lemma {:induction false} TimesIsProduct(n: nat, x: int)
    ensures Times(n, x) == n * x
  {
    if n > 0 {
      TimesIsProduct(n - 1, x);
      assert n * x == (n - 1) * x + x;
    }
  }

  /** 1 if the request is admitted in [from, to) and tests the key against at most `limit`. */
  function Counted(s: State, a: Arrival, key: Key, limit: int, from: int, to: int): int {
    if Handle(s, a.buckets, a.now).1 && Tests(a, key, limit) && from <= a.now < to then 1 else 0
  }

  lemma AdmittedStep(s: State, run: seq<Arrival>, key: Key, limit: int, from: int, to: int)
    requires run != []
    ensures Admitted(s, run, key, limit, from, to)
            == Counted(s, run[0], key, limit, from, to)
               + Admitted(Handle(s, run[0].buckets, run[0].now).0, run[1..], key, limit, from, to)
  {
    hide Handle, Tests;
  }

  lemma StepSpends(s: State, a: Arrival, key: Key, limit: int, from: int, to: int)
    requires (forall b | b in a.buckets :: b.limit > 0) && limit > 0
    ensures var t := Handle(s, a.buckets, a.now).0;
            if Opens(s, a, key) then Spare(t, key, limit) == limit - 1
            else Counted(s, a, key, limit, from, to) + Spare(t, key, limit) <= Spare(s, key, limit)
  {
    KeyStep(s, a, key, limit);
    hide Handle, Charges, Tests;
  }

  /** Once a window has opened at `last` from which `n` windows of WINDOW - delay reach past the interval, at most what is
      left of it and n - 1 windows more are admitted in the interval. */
  lemma {:induction false} AfterWindow(s: State, run: seq<Arrival>, key: Key, limit: int, from: int, to: int, delay: int, last: int, n: nat)
    requires WellFormed(run) && limit > 0 && 0 <= delay < WINDOW && NearOrder(run, delay) && Newest(s, run, key, delay, last)
    requires last + Times(n, WINDOW - delay) >= to + delay
    ensures Admitted(s, run, key, limit, from, to) <= if n == 0 then 0 else Spare(s, key, limit) + Times(n - 1, limit)
    decreases |run|
  {
    hide Admitted, WellFormed, NearOrder, Newest, From, Opens, Counted, Handle, Spare;
    NothingAdmitted(s, key, limit, from, to, n);
    if run != [] {
      var a := run[0];
      var t := Handle(s, a.buckets, a.now).0;
      AdmittedStep(s, run, key, limit, from, to);
      WellFormedTail(run);
      NearOrderTail(run, delay);
      StepSpends(s, a, key, limit, from, to);
      OpensFarApart(s, run, key, delay, last);
      LateIsNotCounted(s, run, key, limit, from, to, delay, last);
      if Opens(s, a, key) {
        var m := if n == 0 then 0 else n - 1;
        AfterWindow(t, run[1..], key, limit, from, to, delay, a.now, m);
      } else {
        AfterWindow(t, run[1..], key, limit, from, to, delay, last, n);
      }
    }
  }

  lemma NothingAdmitted(s: State, key: Key, limit: int, from: int, to: int, n: nat)
    requires limit > 0
    ensures Admitted(s, [], key, limit, from, to) == 0 && Spare(s, key, limit) >= 0 && Times(n, limit) >= 0
    ensures n > 0 ==> Times(n - 1, limit) >= 0
  {
    TimesIsProduct(n, limit);
    if n > 0 { TimesIsProduct(n - 1, limit); }
  }

  lemma LateIsNotCounted(s: State, run: seq<Arrival>, key: Key, limit: int, from: int, to: int, delay: int, last: int)
    requires run != [] && Newest(s, run, key, delay, last)
    ensures 0 <= Counted(s, run[0], key, limit, from, to) <= 1
    ensures run[0].now >= to ==> Counted(s, run[0], key, limit, from, to) == 0
    ensures run[0].now >= last - delay
  {
    FromTail(run, last - delay);
    hide Handle, Tests;
  }

  /** Nothing of the key is stored that could be charged in [from, to). */
  ghost predicate Idle(s: State, key: Key, from: int) {
    key in s.entries ==> s.entries[key].resetAt < from && s.entries[key].count >= 1
  }

  lemma IdleStep(s: State, run: seq<Arrival>, key: Key, limit: int, from: int, to: int, delay: int)
    requires run != [] && (forall b | b in run[0].buckets :: b.limit > 0) && limit > 0 && Idle(s, key, from)
    requires delay >= 0 && NearOrder(run, delay)
    ensures var a := run[0];
            var t := Handle(s, a.buckets, a.now).0;
            if Opens(s, a, key) && a.now + WINDOW >= from then Newest(t, run[1..], key, delay, a.now)
            else Idle(t, key, from) && Counted(s, a, key, limit, from, to) == 0
  {
    NearOrderTail(run, delay);
    KeyStep(s, run[0], key, limit);
    hide Handle, Charges, Tests, NearOrder;
  }

  /** Before the first window that reaches into [from, to). */
  lemma {:induction false} BeforeWindows(s: State, run: seq<Arrival>, key: Key, limit: int, from: int, to: int, delay: int, n: nat)
    requires WellFormed(run) && limit > 0 && 0 <= delay < WINDOW && NearOrder(run, delay) && Idle(s, key, from) && n > 0
    requires to - from + WINDOW + delay <= Times(n, WINDOW - delay)
    ensures Admitted(s, run, key, limit, from, to) <= Times(n, limit)
    decreases |run|
  {
    hide Admitted, WellFormed, NearOrder, Newest, Idle, Opens, Counted, Handle, Spare;
    if run == [] {
      NothingAdmitted(s, key, limit, from, to, n);
    } else {
      var a := run[0];
      var t := Handle(s, a.buckets, a.now).0;
      AdmittedStep(s, run, key, limit, from, to);
      WellFormedTail(run);
      NearOrderTail(run, delay);
      StepSpends(s, a, key, limit, from, to);
      IdleStep(s, run, key, limit, from, to, delay);
      if Opens(s, a, key) && a.now + WINDOW >= from {
        AtMostOne(s, a, key, limit, from, to);
        AfterWindow(t, run[1..], key, limit, from, to, delay, a.now, n);
      } else {
        BeforeWindows(t, run[1..], key, limit, from, to, delay, n);
      }
    }
  }

  lemma AtMostOne(s: State, a: Arrival, key: Key, limit: int, from: int, to: int)
    ensures Counted(s, a, key, limit, from, to) <= 1
  {}

  /** With readings out of lock order by at most `delay`: an interval that, with one window and the delay, is no longer
      than n windows of WINDOW - delay admits at most n times the limit. */
  lemma DelayedBound(start: int, run: seq<Arrival>, key: Key, limit: int, from: int, length: int, delay: int, n: nat)
    requires WellFormed(run) && limit > 0 && 0 <= delay < WINDOW && NearOrder(run, delay) && n > 0
    requires length + WINDOW + delay <= n * (WINDOW - delay)
    ensures Admitted(State(map[], start), run, key, limit, from, from + length) <= n * limit
  {
    TimesIsProduct(n, WINDOW - delay);
    TimesIsProduct(n, limit);
    BeforeWindows(State(map[], start), run, key, limit, from, from + length, delay, n);
  }

  // ---------------------------------------------------------------- the bound for requests

  ghost predicate VisitsNear(visits: seq<Visit>, delay: int) {
    forall i, j | 0 <= i <= j < |visits| :: visits[i].now <= visits[j].now + delay
  }

  lemma ArrivalsNear(visits: seq<Visit>, limit: int, delay: int)
    requires VisitsNear(visits, delay)
    ensures NearOrder(Arrivals(visits, limit), delay)
  {
    hide Buckets;
  }

  lemma Delays(start: int, visits: seq<Visit>, limit: int, from: int, length: int, delay: int, n: nat,
               key: Key, cap: int, counts: Visit -> bool)
    requires limit > 0 && cap > 0 && 0 <= delay < WINDOW && VisitsNear(visits, delay) && n > 0
    requires length + WINDOW + delay <= n * (WINDOW - delay)
    requires forall v: Visit :: counts(v) <==> Tests(Arrival(Buckets(v.request, limit), v.now), key, cap) && Within(v, from, from + length)
    ensures Passed(State(map[], start), visits, limit, counts) <= n * cap
  {
    hide Tests, Buckets, VisitsNear, NearOrder, WellFormed, Arrivals, Passed, Admitted;
    ArrivalsWellFormed(visits, limit);
    ArrivalsNear(visits, limit, delay);
    PassedIsAdmitted(State(map[], start), visits, limit, counts, key, cap, from, from + length);
    DelayedBound(start, Arrivals(visits, limit), key, cap, from, length, delay, n);
  }

  /** The bound of DelayedBound for an address's requests that have only its bucket, for all its requests, and for a
      user's requests. */
  lemma DelayedBounds(start: int, visits: seq<Visit>, limit: int, from: int, length: int, delay: int, n: nat, ip: string, subject: string)
    requires limit > 0 && 0 <= delay < WINDOW && VisitsNear(visits, delay) && n > 0
    requires length + WINDOW + delay <= n * (WINDOW - delay)
    ensures Passed(State(map[], start), visits, limit, v => OnlyAddress(v, ip) && Within(v, from, from + length)) <= n * limit
    ensures Passed(State(map[], start), visits, limit, v => FromAddress(v, ip) && Within(v, from, from + length)) <= n * (10 * limit)
    ensures Passed(State(map[], start), visits, limit, v => FromUser(v, subject) && Within(v, from, from + length)) <= n * limit
  {
    forall v: Visit
      ensures OnlyAddress(v, ip) <==> Tests(Arrival(Buckets(v.request, limit), v.now), IP(ip), limit)
      ensures FromAddress(v, ip) <==> Tests(Arrival(Buckets(v.request, limit), v.now), IP(ip), 10 * limit)
      ensures FromUser(v, subject) <==> Tests(Arrival(Buckets(v.request, limit), v.now), User(subject), limit)
    {
      TestsOfRequest(v, limit, ip, subject);
    }
    hide Tests, Buckets, OnlyAddress, FromAddress, FromUser, Within;
    Delays(start, visits, limit, from, length, delay, n, IP(ip), limit, v => OnlyAddress(v, ip) && Within(v, from, from + length));
    Delays(start, visits, limit, from, length, delay, n, IP(ip), 10 * limit, v => FromAddress(v, ip) && Within(v, from, from + length));
    Delays(start, visits, limit, from, length, delay, n, User(subject), limit, v => FromUser(v, subject) && Within(v, from, from + length));
  }

  /** Twice the limit in an interval shorter than a window by three delays; with delays of at most fifteen seconds,
      three times the limit in any sixty. */
  lemma DelayedMinute(start: int, visits: seq<Visit>, limit: int, from: int, delay: int, ip: string, subject: string)
    requires limit > 0 && 0 <= delay && 4 * delay <= WINDOW && VisitsNear(visits, delay)
    ensures Passed(State(map[], start), visits, limit, v => OnlyAddress(v, ip) && Within(v, from, from + (WINDOW - 3 * delay))) <= 2 * limit
    ensures Passed(State(map[], start), visits, limit, v => FromUser(v, subject) && Within(v, from, from + (WINDOW - 3 * delay))) <= 2 * limit
    ensures Passed(State(map[], start), visits, limit, v => OnlyAddress(v, ip) && Within(v, from, from + WINDOW)) <= 3 * limit
    ensures Passed(State(map[], start), visits, limit, v => FromAddress(v, ip) && Within(v, from, from + WINDOW)) <= 3 * (10 * limit)
    ensures Passed(State(map[], start), visits, limit, v => FromUser(v, subject) && Within(v, from, from + WINDOW)) <= 3 * limit
  {
    hide Passed, VisitsNear, OnlyAddress, FromAddress, FromUser, Within;
    DelayedBounds(start, visits, limit, from, WINDOW - 3 * delay, delay, 2, ip, subject);
    DelayedBounds(start, visits, limit, from, WINDOW, delay, 3, ip, subject);
  }

  // ---------------------------------------------------------------- twice the limit is not kept

  const MS: int := 1_000_000

  lemma HandleOne(s: State, key: Key, limit: int, now: int)
    requires Current(s.entries, key, now).count < limit && now - s.lastCleanup <= WINDOW
    ensures var e := Current(s.entries, key, now);
            Handle(s, [Bucket(key, limit)], now) == (State(s.entries[key := Entry(e.count + 1, e.resetAt)], s.lastCleanup), true)
  {
    var b := [Bucket(key, limit)];
    assert b[0].key == key;
    var e := Current(s.entries, key, now);
    assert b[..0] == [] && ChargeAll(s.entries, [], now) == s.entries;
    assert ChargeAll(s.entries, b, now) == s.entries[key := Entry(e.count + 1, e.resetAt)];
    assert !Blocked(s.entries, b, now);
  }

  /** A request of `key` with limit 3 that is admitted, and whether it falls into the minute. */
  lemma Counts(s: State, t: State, key: Key, ms: int, rest: seq<Arrival>, k: Key)
    requires Handle(s, [Bucket(key, 3)], ms * MS) == (t, true)
    ensures Admitted(s, [Arrival([Bucket(key, 3)], ms * MS)] + rest, k, 3, 59_960 * MS, 119_960 * MS)
            == (if key == k && 59_960 <= ms < 119_960 then 1 else 0) + Admitted(t, rest, k, 3, 59_960 * MS, 119_960 * MS)
  {
    var a := Arrival([Bucket(key, 3)], ms * MS);
    assert ([a] + rest)[1..] == rest;
    assert a.buckets[0] == Bucket(key, 3);
    assert Tests(a, k, 3) <==> key == k;
    hide Handle, Tests;
  }

  function Requests(k: Key, other: Key): seq<Arrival> {
    First(k) + ([Arrival([Bucket(other, 3)], 60_001 * MS)] + Later(k))
  }

  function First(k: Key): seq<Arrival> {
    [Arrival([Bucket(k, 3)], 0 * MS)] + ([Arrival([Bucket(k, 3)], 59_960 * MS)] + ([Arrival([Bucket(k, 3)], 59_970 * MS)] + []))
  }

  function Later(k: Key): seq<Arrival> {
    [Arrival([Bucket(k, 3)], 59_950 * MS)] + ([Arrival([Bucket(k, 3)], 60_002 * MS)] + ([Arrival([Bucket(k, 3)], 60_003 * MS)] + Last(k)))
  }

  function Last(k: Key): seq<Arrival> {
    [Arrival([Bucket(k, 3)], 119_951 * MS)] + ([Arrival([Bucket(k, 3)], 119_952 * MS)] + ([Arrival([Bucket(k, 3)], 119_953 * MS)] + []))
  }

  /** The three requests of one window, the first of which opens it. */
  lemma OneWindowCounts(s: State, k: Key, ms: int, ms1: int, ms2: int, rest: seq<Arrival>) returns (t: State)
    requires Current(s.entries, k, ms * MS) == Entry(0, ms * MS + WINDOW)
    requires ms <= ms1 <= ms2 && ms2 * MS - s.lastCleanup <= WINDOW && ms2 <= ms + 60_000
    ensures t == State(s.entries[k := Entry(3, ms * MS + WINDOW)], s.lastCleanup)
    ensures Admitted(s, [Arrival([Bucket(k, 3)], ms * MS)] + ([Arrival([Bucket(k, 3)], ms1 * MS)] + ([Arrival([Bucket(k, 3)], ms2 * MS)] + rest)),
                     k, 3, 59_960 * MS, 119_960 * MS)
            == (if 59_960 <= ms < 119_960 then 1 else 0) + (if 59_960 <= ms1 < 119_960 then 1 else 0)
               + (if 59_960 <= ms2 < 119_960 then 1 else 0) + Admitted(t, rest, k, 3, 59_960 * MS, 119_960 * MS)
  {
    hide Handle, Admitted;
    HandleOne(s, k, 3, ms * MS);
    var s1 := State(s.entries[k := Entry(1, ms * MS + WINDOW)], s.lastCleanup);
    HandleOne(s1, k, 3, ms1 * MS);
    var s2 := State(s.entries[k := Entry(2, ms * MS + WINDOW)], s.lastCleanup);
    assert s1.entries[k := Entry(2, ms * MS + WINDOW)] == s2.entries;
    HandleOne(s2, k, 3, ms2 * MS);
    t := State(s.entries[k := Entry(3, ms * MS + WINDOW)], s.lastCleanup);
    assert s2.entries[k := Entry(3, ms * MS + WINDOW)] == t.entries;
    var r2 := [Arrival([Bucket(k, 3)], ms2 * MS)] + rest;
    var r1 := [Arrival([Bucket(k, 3)], ms1 * MS)] + r2;
    Counts(s, s1, k, ms, r1, k);
    Counts(s1, s2, k, ms1, r2, k);
    Counts(s2, t, k, ms2, rest, k);
  }

  /** The sweep of the other key's request. */
  lemma SweepCounts(s: State, k: Key, other: Key, rest: seq<Arrival>) returns (t: State)
    requires k != other && s == State(map[k := Entry(3, WINDOW)], 0)
    ensures t == State(map[other := Entry(1, 60_001 * MS + WINDOW)], 60_001 * MS)
    ensures Admitted(s, [Arrival([Bucket(other, 3)], 60_001 * MS)] + rest, k, 3, 59_960 * MS, 119_960 * MS)
            == Admitted(t, rest, k, 3, 59_960 * MS, 119_960 * MS)
  {
    var now := 60_001 * MS;
    assert Cleanup(s, now) == State(map[], now);
    HandleOne(State(map[], now), other, 3, now);
    assert Cleanup(State(map[], now), now) == State(map[], now);
    t := State(map[other := Entry(1, now + WINDOW)], now);
    assert Handle(s, [Bucket(other, 3)], now) == (t, true);
    hide Handle, Admitted;
    Counts(s, t, other, 60_001, rest, k);
  }

  lemma NearRequests(k: Key, other: Key)
    ensures NearOrder(Requests(k, other), 51 * MS)
  {
    var run := Requests(k, other);
    assert |run| == 10;
    assert run[0].now == 0 && run[1].now == 59_960 * MS && run[2].now == 59_970 * MS && run[3].now == 60_001 * MS;
    assert run[4].now == 59_950 * MS && run[5].now == 60_002 * MS && run[6].now == 60_003 * MS;
    assert run[7].now == 119_951 * MS && run[8].now == 119_952 * MS && run[9].now == 119_953 * MS;
  }

  /** With one delay of 51 milliseconds, seven requests with limit 3 pass within sixty seconds. */
  lemma TwiceTheLimitIsExceeded(k: Key, other: Key)
    requires k != other
    ensures NearOrder(Requests(k, other), 51 * MS)
    ensures Admitted(State(map[], 0), Requests(k, other), k, 3, 59_960 * MS, 59_960 * MS + WINDOW) == 7
  {
    NearRequests(k, other);
    hide Admitted, Handle, NearOrder;
    var sweep := [Arrival([Bucket(other, 3)], 60_001 * MS)] + Later(k);
    var s1 := OneWindowCounts(State(map[], 0), k, 0, 59_960, 59_970, sweep);
    assert Requests(k, other)
        == [Arrival([Bucket(k, 3)], 0 * MS)] + ([Arrival([Bucket(k, 3)], 59_960 * MS)] + ([Arrival([Bucket(k, 3)], 59_970 * MS)] + sweep));
    assert s1.entries == map[k := Entry(3, WINDOW)];
    var s2 := SweepCounts(s1, k, other, Later(k));
    var s3 := OneWindowCounts(s2, k, 59_950, 60_002, 60_003, Last(k));
    var s4 := OneWindowCounts(s3, k, 119_951, 119_952, 119_953, []);
    AdmitsNone(s4, k);
  }

  lemma AdmitsNone(s: State, k: Key)
    ensures Admitted(s, [], k, 3, 59_960 * MS, 119_960 * MS) == 0
  {}
}

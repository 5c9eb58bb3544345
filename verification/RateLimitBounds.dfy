/** What the limiter's bounds mean for requests: their buckets are those of rateLimitBuckets. */
module RateLimitBounds {
  import opened RateLimit

  /** A request in lock order, with the time it read before taking the lock. */
  datatype Visit = Visit(request: Request, now: int)

  function Arrivals(visits: seq<Visit>, limit: int): (run: seq<Arrival>)
    ensures |run| == |visits| && forall i | 0 <= i < |visits| :: run[i] == Arrival(Buckets(visits[i].request, limit), visits[i].now)
  {
    if visits == [] then [] else [Arrival(Buckets(visits[0].request, limit), visits[0].now)] + Arrivals(visits[1..], limit)
  }

  /** How many of the visits that `counts` selects are admitted. */
  function Passed(s: State, visits: seq<Visit>, limit: int, counts: Visit -> bool): nat
    decreases |visits|
  {
    if visits == [] then 0
    else
      var (t, admitted) := Handle(s, Buckets(visits[0].request, limit), visits[0].now);
      (if admitted && counts(visits[0]) then 1 else 0) + Passed(t, visits[1..], limit, counts)
  }

  /** The request comes from this address. */
  predicate FromAddress(v: Visit, ip: string) { v.request.ip == ip }

  /** The request has only its address's bucket: it is anonymous, or on a strict route. */
  predicate OnlyAddress(v: Visit, ip: string) {
    v.request.ip == ip && (v.request.subject == "" || StrictIPRoute(v.request.method_, v.request.path))
  }

  /** The request has a bucket for this user. */
  predicate FromUser(v: Visit, subject: string) {
    v.request.subject == subject != "" && !StrictIPRoute(v.request.method_, v.request.path)
  }

  predicate Within(v: Visit, from: int, to: int) { from <= v.now < to }

  // ---------------------------------------------------------------- which bucket tests which request

  lemma ArrivalsWellFormed(visits: seq<Visit>, limit: int)
    requires limit > 0
    ensures WellFormed(Arrivals(visits, limit))
  {
    var run := Arrivals(visits, limit);
    forall a | a in run ensures DistinctKeys(a.buckets) && forall b | b in a.buckets :: b.limit > 0 {
      var i :| 0 <= i < |run| && run[i] == a;
      BucketsOfRequest(visits[i].request, limit);
    }
  }

  /** A request is tested against the base limit of its address exactly if it has only that bucket, against ten
      times the limit if it comes from there at all, and against its user's limit if it has a user's bucket. */
  lemma TestsOfRequest(v: Visit, limit: int, ip: string, subject: string)
    requires limit > 0
    ensures var a := Arrival(Buckets(v.request, limit), v.now);
            && (Tests(a, IP(ip), limit) <==> OnlyAddress(v, ip))
            && (Tests(a, IP(ip), 10 * limit) <==> FromAddress(v, ip))
            && (Tests(a, User(subject), limit) <==> FromUser(v, subject))
  {
    var r := v.request;
    var b := Buckets(r, limit);
    assert |b| == 1 ==> b[0] == Bucket(IP(r.ip), limit);
    assert |b| != 1 ==> |b| == 2 && b[0] == Bucket(User(r.subject), limit) && b[1] == Bucket(IP(r.ip), limit * 10);
  }

  /** The requests counted are those that test `key` against at most `cap` in [from, to). */
  ghost predicate Selects(visits: seq<Visit>, limit: int, counts: Visit -> bool, key: Key, cap: int, from: int, to: int) {
    forall v | v in visits :: counts(v) <==> Tests(Arrival(Buckets(v.request, limit), v.now), key, cap) && from <= v.now < to
  }

  lemma {:induction false} PassedIsAdmitted(s: State, visits: seq<Visit>, limit: int, counts: Visit -> bool,
                                            key: Key, cap: int, from: int, to: int)
    requires Selects(visits, limit, counts, key, cap, from, to)
    ensures Passed(s, visits, limit, counts) == Admitted(s, Arrivals(visits, limit), key, cap, from, to)
    decreases |visits|
  {
    hide Handle, Tests, Buckets;
    if visits != [] {
      var v := visits[0];
      assert v in visits && forall x | x in visits[1..] :: x in visits;
      assert Arrivals(visits, limit)[1..] == Arrivals(visits[1..], limit);
      PassedIsAdmitted(Handle(s, Buckets(v.request, limit), v.now).0, visits[1..], limit, counts, key, cap, from, to);
    }
  }

  // ---------------------------------------------------------------- one window of an address

  function Earliest(visits: seq<Visit>): (t: int)
    ensures forall v | v in visits :: t <= v.now
  {
    if visits == [] then 0
    else
      var rest := Earliest(visits[1..]);
      assert visits == [visits[0]] + visits[1..];
      if visits[0].now < rest then visits[0].now else rest
  }

  /** The address has no window or an old one; the first request is admitted and opens one, which no later reading
      leaves. */
  ghost predicate OneWindow(s: State, visits: seq<Visit>, limit: int, ip: string) {
    && visits != [] && visits[0].request.ip == ip
    && (IP(ip) in s.entries ==> visits[0].now > s.entries[IP(ip)].resetAt)
    && Handle(s, Buckets(visits[0].request, limit), visits[0].now).1
    && forall v | v in visits :: v.now <= visits[0].now + WINDOW
  }

  lemma WindowOpens(s: State, visits: seq<Visit>, limit: int, ip: string)
    requires limit > 0 && OneWindow(s, visits, limit, ip)
    ensures var t := Handle(s, Buckets(visits[0].request, limit), visits[0].now).0;
            IP(ip) in t.entries && t.entries[IP(ip)] == Entry(1, visits[0].now + WINDOW)
  {
    var b := Buckets(visits[0].request, limit);
    BucketsOfRequest(visits[0].request, limit);
    assert b[|b| - 1].key == IP(ip);
    AllOrNothing(s, b, visits[0].now, IP(ip));
  }

  /** After the window has opened, at most one less than `cap` of the requests tested against `cap` pass. */
  lemma WindowLeaves(t: State, rest: seq<Visit>, limit: int, ip: string, cap: int, end: int, counts: Visit -> bool)
    requires limit > 0 && cap > 0 && IP(ip) in t.entries && t.entries[IP(ip)] == Entry(1, end)
    requires forall v | v in rest :: v.now <= end
    requires forall v: Visit :: counts(v) <==> Tests(Arrival(Buckets(v.request, limit), v.now), IP(ip), cap)
    ensures Passed(t, rest, limit, counts) <= cap - 1
  {
    hide Handle, Tests, Buckets;
    var from, to := Earliest(rest), end + 1;
    var run := Arrivals(rest, limit);
    ArrivalsWellFormed(rest, limit);
    PassedIsAdmitted(t, rest, limit, counts, IP(ip), cap, from, to);
    forall a | a in run ensures a.now <= end { var i :| 0 <= i < |run| && run[i] == a; assert rest[i] in rest; }
    WindowBound(t, run, IP(ip), cap, from, to);
  }

  /** Within one window of an address, in whatever order the clock was read: at most `limit` of the requests that
      have only the address's bucket are admitted, and at most ten times `limit` of all. */
  lemma AddressWindowBound(s: State, visits: seq<Visit>, limit: int, ip: string)
    requires limit > 0 && OneWindow(s, visits, limit, ip)
    ensures Passed(s, visits, limit, v => OnlyAddress(v, ip)) <= limit
    ensures Passed(s, visits, limit, v => FromAddress(v, ip)) <= 10 * limit
  {
    WindowOpens(s, visits, limit, ip);
    forall v: Visit
      ensures OnlyAddress(v, ip) <==> Tests(Arrival(Buckets(v.request, limit), v.now), IP(ip), limit)
      ensures FromAddress(v, ip) <==> Tests(Arrival(Buckets(v.request, limit), v.now), IP(ip), 10 * limit)
    {
      TestsOfRequest(v, limit, ip, "");
    }
    hide Handle, Tests, Buckets, OnlyAddress, FromAddress;
    var t := Handle(s, Buckets(visits[0].request, limit), visits[0].now).0;
    WindowLeaves(t, visits[1..], limit, ip, limit, visits[0].now + WINDOW, v => OnlyAddress(v, ip));
    WindowLeaves(t, visits[1..], limit, ip, 10 * limit, visits[0].now + WINDOW, v => FromAddress(v, ip));
  }

  // ---------------------------------------------------------------- any 60 seconds

  ghost predicate VisitsInOrder(visits: seq<Visit>) { forall i, j | 0 <= i <= j < |visits| :: visits[i].now <= visits[j].now }

  lemma Slides(start: int, visits: seq<Visit>, limit: int, from: int, key: Key, cap: int, counts: Visit -> bool)
    requires limit > 0 && cap > 0 && VisitsInOrder(visits)
    requires forall v: Visit :: counts(v) <==> Tests(Arrival(Buckets(v.request, limit), v.now), key, cap) && Within(v, from, from + WINDOW)
    ensures Passed(State(map[], start), visits, limit, counts) <= 2 * cap
  {
    hide Tests, Buckets;
    ArrivalsWellFormed(visits, limit);
    PassedIsAdmitted(State(map[], start), visits, limit, counts, key, cap, from, from + WINDOW);
    SlidingBound(State(map[], start), Arrivals(visits, limit), key, cap, from);
  }

  /** With clock readings in lock order, in any half-open 60 seconds: at most twice `limit` of an address's requests
      that have only its bucket, at most twenty times `limit` of all its requests, and at most twice `limit` of a
      user's requests are admitted. */
  lemma SlidingBounds(start: int, visits: seq<Visit>, limit: int, from: int, ip: string, subject: string)
    requires limit > 0 && VisitsInOrder(visits)
    ensures Passed(State(map[], start), visits, limit, v => OnlyAddress(v, ip) && Within(v, from, from + WINDOW)) <= 2 * limit
    ensures Passed(State(map[], start), visits, limit, v => FromAddress(v, ip) && Within(v, from, from + WINDOW)) <= 20 * limit
    ensures Passed(State(map[], start), visits, limit, v => FromUser(v, subject) && Within(v, from, from + WINDOW)) <= 2 * limit
  {
    forall v: Visit
      ensures OnlyAddress(v, ip) <==> Tests(Arrival(Buckets(v.request, limit), v.now), IP(ip), limit)
      ensures FromAddress(v, ip) <==> Tests(Arrival(Buckets(v.request, limit), v.now), IP(ip), 10 * limit)
      ensures FromUser(v, subject) <==> Tests(Arrival(Buckets(v.request, limit), v.now), User(subject), limit)
    {
      TestsOfRequest(v, limit, ip, subject);
    }
    hide Tests, Buckets, OnlyAddress, FromAddress, FromUser, Within;
    Slides(start, visits, limit, from, IP(ip), limit, v => OnlyAddress(v, ip) && Within(v, from, from + WINDOW));
    Slides(start, visits, limit, from, IP(ip), 10 * limit, v => FromAddress(v, ip) && Within(v, from, from + WINDOW));
    Slides(start, visits, limit, from, User(subject), limit, v => FromUser(v, subject) && Within(v, from, from + WINDOW));
  }
}

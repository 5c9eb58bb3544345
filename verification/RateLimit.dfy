/** The fixed-window rate limiter: lazy expiry, periodic cleanup, two buckets charged all-or-nothing,
    and one IP counter tested against two limits. Times are integers (nanoseconds). */
module RateLimit {
  import opened Wrappers
  import opened GoText

  const WINDOW: int := 60_000_000_000

  datatype Entry = Entry(count: int, resetAt: int)

  /** The map keys "ip:" + address and "user:" + subject. */
  datatype Key = IP(address: string) | User(subject: string)

  function KeyText(k: Key): string {
    match k case IP(a) => "ip:" + a case User(u) => "user:" + u
  }

  lemma KeyTextInjective(a: Key, b: Key)
    requires KeyText(a) == KeyText(b)
    ensures a == b
  {
    assert KeyText(a)[0] == KeyText(b)[0];
    if a.IP? {
      assert a.address == KeyText(a)[3..] && b.address == KeyText(b)[3..];
    } else {
      assert a.subject == KeyText(a)[5..] && b.subject == KeyText(b)[5..];
    }
  }

  datatype Bucket = Bucket(key: Key, limit: int)

  datatype State = State(entries: map<Key, Entry>, lastCleanup: int)

  /** What the middleware reads of a request: `subject` is the verified token's trimmed subject, "" if none. */
  datatype Request = Request(ip: string, method_: string, path: string, subject: string)

  predicate StrictIPRoute(method_: string, path: string) {
    method_ == "POST" && path in ["/api/v1/auth/register", "/api/v1/auth/login", "/api/v1/auth/google", "/api/v1/auth/refresh"]
  }

  function Buckets(r: Request, limit: int): (b: seq<Bucket>)
    ensures |b| >= 1
  {
    if StrictIPRoute(r.method_, r.path) || r.subject == "" then [Bucket(IP(r.ip), limit)]
    else [Bucket(User(r.subject), limit), Bucket(IP(r.ip), limit * 10)]
  }

  predicate DistinctKeys(b: seq<Bucket>) { forall i, j | 0 <= i < j < |b| :: b[i].key != b[j].key }

  predicate Charges(b: seq<Bucket>, key: Key) { exists i | 0 <= i < |b| :: b[i].key == key }

  /** The keys of one request are distinct and every limit is positive. The first bucket, whose quota the client is
      told, is the user's with the base limit, before the address with ten times it; a request that is anonymous or on
      one of the four routes has the address with the base limit only. */
  lemma BucketsOfRequest(r: Request, limit: int)
    requires limit > 0
    ensures DistinctKeys(Buckets(r, limit)) && forall b | b in Buckets(r, limit) :: b.limit > 0
    ensures var lone := r.subject == "" || (r.method_ == "POST" && (
                          r.path == "/api/v1/auth/register" || r.path == "/api/v1/auth/login" ||
                          r.path == "/api/v1/auth/google" || r.path == "/api/v1/auth/refresh"));
            && Buckets(r, limit)[0] == Bucket(if lone then IP(r.ip) else User(r.subject), limit)
            && Buckets(r, limit)[1..] == if lone then [] else [Bucket(IP(r.ip), 10 * limit)]
  {}

  // ---------------------------------------------------------------- one request

  /** Entries whose window is over are dropped, at most once a window. */
  function Cleanup(s: State, now: int): State {
    if now - s.lastCleanup > WINDOW
    then State(map k | k in s.entries && !(now > s.entries[k].resetAt) :: s.entries[k], now)
    else s
  }

  /** The entry a bucket is tested against: the stored one, or a fresh one when it is absent or over. */
  function Current(entries: map<Key, Entry>, key: Key, now: int): Entry {
    if key in entries && !(now > entries[key].resetAt) then entries[key] else Entry(0, now + WINDOW)
  }

  predicate Blocked(entries: map<Key, Entry>, buckets: seq<Bucket>, now: int) {
    exists b | b in buckets :: Current(entries, b.key, now).count >= b.limit
  }

  function ChargeAll(entries: map<Key, Entry>, buckets: seq<Bucket>, now: int): map<Key, Entry> {
    if buckets == [] then entries
    else
      var key := buckets[|buckets| - 1].key;
      var e := Current(entries, key, now);
      ChargeAll(entries, buckets[..|buckets| - 1], now)[key := Entry(e.count + 1, e.resetAt)]
  }

  /** Charging stores every bucket's tested entry with one more, and touches nothing else. */
  lemma {:induction false} ChargedOnce(entries: map<Key, Entry>, buckets: seq<Bucket>, now: int, key: Key)
    ensures var t := ChargeAll(entries, buckets, now);
            var e := Current(entries, key, now);
            if Charges(buckets, key) then key in t && t[key] == Entry(e.count + 1, e.resetAt)
            else (key in t <==> key in entries) && (key in t ==> t[key] == entries[key])
    decreases |buckets|
  {
    if buckets != [] {
      var init := buckets[..|buckets| - 1];
      ChargedOnce(entries, init, now, key);
      assert Charges(init, key) ==> Charges(buckets, key);
      if buckets[|buckets| - 1].key != key && Charges(buckets, key) {
        var i :| 0 <= i < |buckets| && buckets[i].key == key;
        assert init[i].key == key;
      }
    }
  }

  /** The limiter without cleanup. */
  function Decide(entries: map<Key, Entry>, buckets: seq<Bucket>, now: int): (map<Key, Entry>, bool) {
    if Blocked(entries, buckets, now) then (entries, false) else (ChargeAll(entries, buckets, now), true)
  }

  function Handle(s: State, buckets: seq<Bucket>, now: int): (State, bool) {
    var clean := Cleanup(s, now);
    var (entries, admitted) := Decide(clean.entries, buckets, now);
    (State(entries, clean.lastCleanup), admitted)
  }

  /** What the client is told: the limit, how much of it is left and when the window ends; or the limit that is full. */
  datatype Answer = GoesOn(limit: int, remaining: int, resetAt: int) | TooMany(limit: int)

  class Limiter {
    var entries: map<Key, Entry>
    var lastCleanup: int
    const limit: int

    ghost function View(): State
      reads this
    {
      State(entries, lastCleanup)
    }

    predicate Valid()
      reads this
    {
      limit > 0 && forall key | key in entries :: entries[key].count >= 1
    }

    constructor (limit: int, now: int)
      requires limit > 0
      ensures Valid() && View() == State(map[], now) && this.limit == limit
    {
      entries, lastCleanup, this.limit := map[], now, limit;
    }

    /** The sweep visits the keys in any order. */
    method Sweep(now: int)
      modifies this
      ensures View() == Cleanup(old(View()), now)
      ensures var due := now - old(lastCleanup) > 60_000_000_000;
              && (forall key :: key in entries <==> key in old(entries) && !(due && now > old(entries)[key].resetAt))
              && (forall key | key in entries :: entries[key] == old(entries)[key])
              && lastCleanup == if due then now else old(lastCleanup)
    {
      if now - lastCleanup > WINDOW {
        ghost var stored := entries;
        var keys := entries.Keys;
        while keys != {}
          invariant keys <= stored.Keys
          invariant entries == map k | k in stored && (k in keys || !(now > stored[k].resetAt)) :: stored[k]
          decreases keys
        {
          var key :| key in keys;
          keys := keys - {key};
          if now > entries[key].resetAt { entries := entries - {key}; }
        }
        lastCleanup := now;
      }
    }

    /** The entries the buckets are tested against, and the first bucket that is full or -1. */
    method Inspect(buckets: seq<Bucket>, now: int) returns (current: seq<Entry>, blocked: int)
      ensures |current| == |buckets| && forall j | 0 <= j < |buckets| :: current[j] == Current(entries, buckets[j].key, now)
      ensures -1 <= blocked < |buckets|
      ensures forall j | 0 <= j < if blocked == -1 then |buckets| else blocked :: current[j].count < buckets[j].limit
      ensures blocked >= 0 ==> current[blocked].count >= buckets[blocked].limit
    {
      current, blocked := [], -1;
      for i := 0 to |buckets|
        invariant |current| == i && forall j | 0 <= j < i :: current[j] == Current(entries, buckets[j].key, now)
        invariant -1 <= blocked < i
        invariant forall j | 0 <= j < if blocked == -1 then i else blocked :: current[j].count < buckets[j].limit
        invariant blocked >= 0 ==> current[blocked].count >= buckets[blocked].limit
      {
        var key := buckets[i].key;
        var entry := if key in entries && !(now > entries[key].resetAt) then entries[key] else Entry(0, now + WINDOW);
        current := current + [entry];
        if blocked == -1 && entry.count >= buckets[i].limit { blocked := i; }
      }
    }

    /** Every bucket is charged once. */
    method Charge(buckets: seq<Bucket>, inspected: seq<Entry>, now: int) returns (first: Entry)
      requires |buckets| >= 1 && DistinctKeys(buckets)
      requires |inspected| == |buckets|
      requires forall j | 0 <= j < |buckets| :: inspected[j] == Current(entries, buckets[j].key, now)
      modifies this`entries
      ensures entries == ChargeAll(old(entries), buckets, now)
      ensures buckets[0].key in entries && first == entries[buckets[0].key] && first.count == inspected[0].count + 1
    {
      ghost var clean := entries;
      var current := inspected;
      for i := 0 to |buckets|
        invariant |current| == |buckets| && forall j | i <= j < |buckets| :: current[j] == inspected[j]
        invariant i > 0 ==> current[0] == Entry(inspected[0].count + 1, inspected[0].resetAt)
        invariant entries == ChargeAll(clean, buckets[..i], now)
      {
        current := current[i := Entry(current[i].count + 1, current[i].resetAt)];
        entries := entries[buckets[i].key := current[i]];
        assert buckets[..i + 1][..i] == buckets[..i];
      }
      assert buckets[..|buckets|] == buckets && Charges(buckets, buckets[0].key);
      ChargedOnce(clean, buckets, now, buckets[0].key);
      return current[0];
    }

    /** One request under the lock. */
    method Admit(buckets: seq<Bucket>, now: int) returns (a: Answer)
      requires |buckets| >= 1 && DistinctKeys(buckets) && forall b | b in buckets :: b.limit > 0
      modifies this
      ensures (View(), a.GoesOn?) == Handle(old(View()), buckets, now)
      ensures a.GoesOn? ==>
                && buckets[0].key in entries
                && a == GoesOn(buckets[0].limit, buckets[0].limit - entries[buckets[0].key].count, entries[buckets[0].key].resetAt)
      ensures a.TooMany? ==>
                exists k | 0 <= k < |buckets| ::
                  && a.limit == buckets[k].limit && Current(old(entries), buckets[k].key, now).count >= buckets[k].limit
                  && forall j | 0 <= j < k :: Current(old(entries), buckets[j].key, now).count < buckets[j].limit
    {
      Sweep(now);
      assert forall key :: Current(entries, key, now) == Current(old(entries), key, now);
      var current, blocked := Inspect(buckets, now);
      if blocked >= 0 {
        assert buckets[blocked] in buckets && Blocked(entries, buckets, now);
        assert entries[buckets[blocked].key := current[blocked]] == entries;
        entries := entries[buckets[blocked].key := current[blocked]];
        return TooMany(buckets[blocked].limit);
      }
      var first := Charge(buckets, current, now);
      return GoesOn(buckets[0].limit, buckets[0].limit - first.count, first.resetAt);
    }

    /** The middleware on a request. A lone request, which is anonymous or on one of four routes, is charged to its
        address and told about that; any other is charged to its user and its address and told about its user. */
    method Serve(r: Request, now: int) returns (a: Answer)
      requires Valid()
      modifies this
      ensures Valid() && (View(), a.GoesOn?) == Handle(old(View()), Buckets(r, limit), now)
      ensures var lone := r.subject == "" || (r.method_ == "POST" && (
                            r.path == "/api/v1/auth/register" || r.path == "/api/v1/auth/login" ||
                            r.path == "/api/v1/auth/google" || r.path == "/api/v1/auth/refresh"));
              var user, address := Used(old(entries), User(r.subject), now), Used(old(entries), IP(r.ip), now);
              var told := if lone then IP(r.ip) else User(r.subject);
              && (a.GoesOn? <==> if lone then address < limit else user < limit && address < 10 * limit)
              && (a.GoesOn? ==>
                    && told in entries && a == GoesOn(limit, limit - entries[told].count, entries[told].resetAt) && 0 <= a.remaining < limit
                    && entries[told].count == (if lone then address else user) + 1
                    && IP(r.ip) in entries && entries[IP(r.ip)].count == address + 1
                    && a.resetAt == if told in old(entries) && old(entries)[told].resetAt >= now then old(entries)[told].resetAt
                                    else now + 60_000_000_000)
              && (a.TooMany? ==> a.limit == if lone || user >= limit then limit else 10 * limit)
    {
      var buckets := Buckets(r, limit);
      BucketsOfRequest(r, limit);
      a := Admit(buckets, now);
      ServedEntries(old(View()), r, limit, now);
    }
  }

  /** How much of its limit a key has used at that time. */
  function Used(entries: map<Key, Entry>, key: Key, now: int): int {
    if key in entries && now <= entries[key].resetAt then entries[key].count else 0
  }

  /** Serving keeps every stored count positive, and counts the request once for each of its keys. */
  lemma ServedEntries(s: State, r: Request, limit: int, now: int)
    requires limit > 0 && forall key | key in s.entries :: s.entries[key].count >= 1
    ensures var (t, admitted) := Handle(s, Buckets(r, limit), now);
            && (forall key | key in t.entries :: t.entries[key].count >= 1)
            && (admitted <==> forall b | b in Buckets(r, limit) :: Current(s.entries, b.key, now).count < b.limit)
            && (admitted ==> forall b | b in Buckets(r, limit) ::
                  b.key in t.entries && t.entries[b.key] == Entry(Current(s.entries, b.key, now).count + 1, Current(s.entries, b.key, now).resetAt))
  {
    BucketsOfRequest(r, limit);
    var b := Buckets(r, limit);
    var (t, admitted) := Handle(s, b, now);
    forall key ensures key in t.entries ==> t.entries[key].count >= 1 { AllOrNothing(s, b, now, key); }
    forall i | 0 <= i < |b| && admitted
      ensures b[i].key in t.entries
      ensures t.entries[b[i].key] == Entry(Current(s.entries, b[i].key, now).count + 1, Current(s.entries, b[i].key, now).resetAt)
    {
      assert Charges(b, b[i].key);
      AllOrNothing(s, b, now, b[i].key);
    }
    AllOrNothing(s, b, now, IP(r.ip));
  }

  // ---------------------------------------------------------------- one step, seen per bucket

  /** A rejected request charges no bucket; an admitted one charges each of its buckets once and nothing else. */
  lemma AllOrNothing(s: State, buckets: seq<Bucket>, now: int, key: Key)
    requires forall b | b in buckets :: b.limit > 0
    ensures var (t, admitted) := Handle(s, buckets, now);
            var clean := Cleanup(s, now).entries;
            && (admitted <==> forall b | b in buckets :: Current(s.entries, b.key, now).count < b.limit)
            && (!admitted ==> t.entries == clean)
            && (admitted && Charges(buckets, key) ==>
                  key in t.entries && t.entries[key].count == Current(s.entries, key, now).count + 1
                  && t.entries[key].resetAt == Current(s.entries, key, now).resetAt)
            && (!Charges(buckets, key) ==> (key in t.entries <==> key in clean) && (key in clean ==> t.entries[key] == clean[key]))
  {
    var clean := Cleanup(s, now).entries;
    assert forall k :: Current(clean, k, now) == Current(s.entries, k, now);
    ChargedOnce(clean, buckets, now, key);
    if Charges(buckets, key) {
      var i :| 0 <= i < |buckets| && buckets[i].key == key;
      assert buckets[i] in buckets;
    }
  }

  // ---------------------------------------------------------------- runs

  /** A request in lock order, with the time it read before taking the lock. */
  datatype Arrival = Arrival(buckets: seq<Bucket>, now: int)

  ghost predicate WellFormed(run: seq<Arrival>) {
    forall a | a in run :: DistinctKeys(a.buckets) && forall b | b in a.buckets :: b.limit > 0
  }

  ghost predicate InOrder(run: seq<Arrival>) {
    forall i, j | 0 <= i <= j < |run| :: run[i].now <= run[j].now
  }

  function Decisions(s: State, run: seq<Arrival>): seq<bool>
    decreases |run|
  {
    if run == [] then []
    else
      var (t, admitted) := Handle(s, run[0].buckets, run[0].now);
      [admitted] + Decisions(t, run[1..])
  }

  function After(s: State, run: seq<Arrival>): State
    decreases |run|
  {
    if run == [] then s else After(Handle(s, run[0].buckets, run[0].now).0, run[1..])
  }

  /** The request tests `key` against at most `limit`. */
  predicate Tests(a: Arrival, key: Key, limit: int) {
    exists i | 0 <= i < |a.buckets| :: a.buckets[i].key == key && a.buckets[i].limit <= limit
  }

  /** How many requests of the run that test `key` against at most `limit` are admitted in [from, to). */
  function Admitted(s: State, run: seq<Arrival>, key: Key, limit: int, from: int, to: int): nat
    decreases |run|
  {
    if run == [] then 0
    else
      var (t, admitted) := Handle(s, run[0].buckets, run[0].now);
      (if admitted && Tests(run[0], key, limit) && from <= run[0].now < to then 1 else 0)
      + Admitted(t, run[1..], key, limit, from, to)
  }

  function Left(limit: int, count: int): nat { if count < limit then limit - count else 0 }

  /** Within one window of a key, whatever the order of the clock readings: as long as every reading is
      no later than the window's end, at most what is left of `limit` is admitted. */
  lemma {:induction false} WindowBound(s: State, run: seq<Arrival>, key: Key, limit: int, from: int, to: int)
    requires WellFormed(run) && key in s.entries
    requires forall a | a in run :: a.now <= s.entries[key].resetAt
    ensures Admitted(s, run, key, limit, from, to) <= Left(limit, s.entries[key].count)
    decreases |run|
  {
    if run != [] {
      var a := run[0];
      assert a in run;
      var (t, admitted) := Handle(s, a.buckets, a.now);
      AllOrNothing(s, a.buckets, a.now, key);
      assert key in t.entries && t.entries[key].resetAt == s.entries[key].resetAt;
      assert forall x | x in run[1..] :: x in run;
      WindowBound(t, run[1..], key, limit, from, to);
    }
  }

  /** The sliding bound: with clock readings in lock order, any half-open 60-second interval admits at
      most twice `limit` requests that test `key` against at most `limit`. */
  lemma {:induction false} SlidingBound(s: State, run: seq<Arrival>, key: Key, limit: int, from: int)
    requires WellFormed(run) && InOrder(run) && limit > 0
    requires key in s.entries ==> s.entries[key].count >= 0
    ensures Admitted(s, run, key, limit, from, from + WINDOW) <= 2 * limit
    decreases |run|
  {
    if run != [] {
      var a := run[0];
      assert a in run;
      if from <= a.now {
        BoundInside(s, run, key, limit, from);
      } else {
        var (t, admitted) := Handle(s, a.buckets, a.now);
        AllOrNothing(s, a.buckets, a.now, key);
        assert forall x | x in run[1..] :: x in run;
        SlidingBound(t, run[1..], key, limit, from);
      }
    }
  }

  /** What an interval of one window's length can still admit once it has begun. */
  function Room(s: State, key: Key, limit: int, from: int): nat
    requires limit > 0
  {
    if key !in s.entries then limit
    else if s.entries[key].resetAt >= from + WINDOW - 1 then Left(limit, s.entries[key].count)
    else Left(limit, s.entries[key].count) + limit
  }

  lemma StepUsesRoom(s: State, a: Arrival, key: Key, limit: int, from: int)
    requires DistinctKeys(a.buckets) && (forall b | b in a.buckets :: b.limit > 0) && limit > 0
    requires from <= a.now < from + WINDOW
    requires key in s.entries ==> s.entries[key].count >= 0
    ensures var (t, admitted) := Handle(s, a.buckets, a.now);
            && (key in t.entries ==> t.entries[key].count >= 0)
            && (if admitted && Tests(a, key, limit) then 1 else 0) + Room(t, key, limit, from) <= Room(s, key, limit, from)
  {
    AllOrNothing(s, a.buckets, a.now, key);
    if Tests(a, key, limit) {
      var i :| 0 <= i < |a.buckets| && a.buckets[i].key == key && a.buckets[i].limit <= limit;
      assert a.buckets[i] in a.buckets;
    }
    hide Handle;
  }

  lemma {:induction false} BoundInside(s: State, run: seq<Arrival>, key: Key, limit: int, from: int)
    requires WellFormed(run) && InOrder(run) && limit > 0
    requires forall a | a in run :: from <= a.now
    requires key in s.entries ==> s.entries[key].count >= 0
    ensures Admitted(s, run, key, limit, from, from + WINDOW) <= Room(s, key, limit, from) <= 2 * limit
    decreases |run|
  {
    hide Handle, Tests;
    if run != [] {
      var a := run[0];
      assert a in run;
      if a.now < from + WINDOW {
        StepUsesRoom(s, a, key, limit, from);
        assert forall x | x in run[1..] :: x in run;
        BoundInside(Handle(s, a.buckets, a.now).0, run[1..], key, limit, from);
      } else {
        NoneLater(s, run, key, limit, from, from + WINDOW);
      }
    }
  }

  lemma {:induction false} NoneLater(s: State, run: seq<Arrival>, key: Key, limit: int, from: int, to: int)
    requires forall a | a in run :: to <= a.now
    ensures Admitted(s, run, key, limit, from, to) == 0
    decreases |run|
  {
    if run != [] {
      assert run[0] in run && forall x | x in run[1..] :: x in run;
      NoneLater(Handle(s, run[0].buckets, run[0].now).0, run[1..], key, limit, from, to);
    }
  }

  // ---------------------------------------------------------------- counters, without any assumption on the clock

  /** Every stored counter is at least one and at most the largest limit its key is tested against. */
  ghost predicate CountersBounded(s: State, top: map<Key, int>) {
    forall k | k in s.entries :: k in top && 1 <= s.entries[k].count <= top[k]
  }

  lemma {:induction false} CountersStayBounded(s: State, run: seq<Arrival>, top: map<Key, int>)
    requires WellFormed(run) && CountersBounded(s, top)
    requires forall a, b | a in run && b in a.buckets :: b.key in top && b.limit <= top[b.key]
    ensures CountersBounded(After(s, run), top)
    decreases |run|
  {
    if run != [] {
      var a := run[0];
      assert a in run;
      var t := Handle(s, a.buckets, a.now).0;
      forall k | k in t.entries ensures k in top && 1 <= t.entries[k].count <= top[k] {
        AllOrNothing(s, a.buckets, a.now, k);
        if Charges(a.buckets, k) {
          var i :| 0 <= i < |a.buckets| && a.buckets[i].key == k;
          assert a.buckets[i] in a.buckets;
        }
      }
      assert forall x | x in run[1..] :: x in run;
      CountersStayBounded(t, run[1..], top);
    }
  }

  /** A request that comes more than a window after the last sweep leaves no entry whose window is over. */
  lemma SweepLeavesLiveEntries(s: State, buckets: seq<Bucket>, now: int, key: Key)
    requires now - s.lastCleanup > WINDOW
    ensures var t := Handle(s, buckets, now).0;
            t.lastCleanup == now && (key in t.entries ==> t.entries[key].resetAt >= now)
  {
    ChargedOnce(Cleanup(s, now).entries, buckets, now, key);
  }

  // ---------------------------------------------------------------- cleanup is invisible

  function DecisionsForever(entries: map<Key, Entry>, run: seq<Arrival>): seq<bool>
    decreases |run|
  {
    if run == [] then []
    else
      var (t, admitted) := Decide(entries, run[0].buckets, run[0].now);
      [admitted] + DecisionsForever(t, run[1..])
  }

  function Readings(run: seq<Arrival>): (ts: seq<int>)
    ensures |ts| == |run| && forall i | 0 <= i < |run| :: ts[i] == run[i].now
  {
    seq(|run|, i requires 0 <= i < |run| => run[i].now)
  }

  /** The time of the last sweep before arrival n; it depends on the readings only. */
  function LastAt(ts: seq<int>, start: int, n: nat): int
    requires n <= |ts|
    decreases n, 0
  {
    if n == 0 then start else if SweepAt(ts, start, n - 1) then ts[n - 1] else LastAt(ts, start, n - 1)
  }

  predicate SweepAt(ts: seq<int>, start: int, j: nat)
    requires j < |ts|
    decreases j, 1
  {
    ts[j] - LastAt(ts, start, j) > WINDOW
  }

  /** The sweep at j finds a window that ended at r over, and the later reading i falls into that window again. */
  predicate Revives(ts: seq<int>, start: int, r: int, j: nat, i: nat) {
    j < i < |ts| && SweepAt(ts, start, j) && r < ts[j] && ts[i] <= r
  }

  ghost predicate NeverRevives(ts: seq<int>, start: int, r: int, n: nat) {
    forall j, i | n <= j :: !Revives(ts, start, r, j, i)
  }

  /** No sweep drops a window opened by an earlier reading that a later reading falls into. */
  ghost predicate NoneRevives(ts: seq<int>, start: int) {
    forall m | 0 <= m < |ts| :: NeverRevives(ts, start, ts[m] + WINDOW, m + 1)
  }

  /** After n arrivals: what the limiter still has agrees with the one that never deletes, and what it has
      dropped is over for every later reading. */
  ghost predicate Agrees(s: State, all: map<Key, Entry>, ts: seq<int>, start: int, n: nat)
    requires n <= |ts|
  {
    && s.lastCleanup == LastAt(ts, start, n)
    && forall k :: AgreesAt(s.entries, all, ts, start, n, k)
  }

  ghost predicate AgreesAt(entries: map<Key, Entry>, all: map<Key, Entry>, ts: seq<int>, start: int, n: nat, k: Key) {
    && (k in entries ==> k in all && entries[k] == all[k])
    && (k in all && k !in entries ==> OverFrom(ts, n, all[k].resetAt))
    && (k in all ==> NeverRevives(ts, start, all[k].resetAt, n))
  }

  ghost predicate OverFrom(ts: seq<int>, n: nat, r: int) { forall i | n <= i < |ts| :: ts[i] > r }

  lemma SweepTime(s: State, ts: seq<int>, start: int, n: nat)
    requires n < |ts| && s.lastCleanup == LastAt(ts, start, n)
    ensures Cleanup(s, ts[n]).lastCleanup == LastAt(ts, start, n + 1)
  {}

  /** A sweep keeps the agreement. */
  lemma SweepAgrees(s: State, all: map<Key, Entry>, ts: seq<int>, start: int, n: nat, k: Key)
    requires n < |ts| && Agrees(s, all, ts, start, n)
    ensures AgreesAt(Cleanup(s, ts[n]).entries, all, ts, start, n, k)
  {
    assert AgreesAt(s.entries, all, ts, start, n, k);
    if k in s.entries && k !in Cleanup(s, ts[n]).entries {
      assert SweepAt(ts, start, n);
      forall i | n <= i < |ts| ensures ts[i] > all[k].resetAt {
        if n < i { assert !Revives(ts, start, all[k].resetAt, n, i); }
      }
    }
  }

  lemma ChargeAgrees(entries: map<Key, Entry>, all: map<Key, Entry>, ts: seq<int>, start: int, n: nat, buckets: seq<Bucket>, k: Key)
    requires n < |ts| && AgreesAt(entries, all, ts, start, n, k)
    requires NeverRevives(ts, start, ts[n] + WINDOW, n + 1)
    ensures AgreesAt(ChargeAll(entries, buckets, ts[n]), ChargeAll(all, buckets, ts[n]), ts, start, n + 1, k)
  {
    ChargedOnce(entries, buckets, ts[n], k);
    ChargedOnce(all, buckets, ts[n], k);
  }

  lemma LaterAgrees(entries: map<Key, Entry>, all: map<Key, Entry>, ts: seq<int>, start: int, n: nat, k: Key)
    requires n < |ts| && AgreesAt(entries, all, ts, start, n, k)
    ensures AgreesAt(entries, all, ts, start, n + 1, k)
    ensures Current(entries, k, ts[n]) == Current(all, k, ts[n])
  {}

  /** One arrival: both limiters decide alike and go on agreeing. */
  lemma StepAgrees(s: State, all: map<Key, Entry>, ts: seq<int>, start: int, n: nat, buckets: seq<Bucket>)
    requires n < |ts| && Agrees(s, all, ts, start, n) && NeverRevives(ts, start, ts[n] + WINDOW, n + 1)
    ensures Handle(s, buckets, ts[n]).1 == Decide(all, buckets, ts[n]).1
    ensures Agrees(Handle(s, buckets, ts[n]).0, Decide(all, buckets, ts[n]).0, ts, start, n + 1)
  {
    var now, n' := ts[n], n + 1;
    var clean := Cleanup(s, now);
    SweepTime(s, ts, start, n);
    forall k ensures AgreesAt(clean.entries, all, ts, start, n, k) { SweepAgrees(s, all, ts, start, n, k); }
    hide Cleanup, ChargeAll, AgreesAt, NeverRevives, LastAt, Current;
    forall k ensures Current(clean.entries, k, now) == Current(all, k, now) {
      LaterAgrees(clean.entries, all, ts, start, n, k);
    }
    assert Blocked(clean.entries, buckets, now) <==> Blocked(all, buckets, now);
    hide Blocked;
    var t, t' := Handle(s, buckets, now).0, Decide(all, buckets, now).0;
    forall k ensures AgreesAt(t.entries, t', ts, start, n', k) {
      LaterAgrees(clean.entries, all, ts, start, n, k);
      ChargeAgrees(clean.entries, all, ts, start, n, buckets, k);
    }
  }

  lemma {:induction false} SameDecisions(s: State, all: map<Key, Entry>, run: seq<Arrival>, ts: seq<int>, start: int, n: nat)
    requires n <= |ts| && Agrees(s, all, ts, start, n) && Readings(run) == ts[n..]
    requires forall m | n <= m < |ts| :: NeverRevives(ts, start, ts[m] + WINDOW, m + 1)
    ensures Decisions(s, run) == DecisionsForever(all, run)
    decreases |run|
  {
    hide Agrees, Handle, Decide, NeverRevives;
    if run != [] {
      var a := run[0];
      assert a.now == Readings(run)[0] == ts[n];
      StepAgrees(s, all, ts, start, n, a.buckets);
      assert Readings(run[1..]) == Readings(run)[1..] == ts[n + 1..];
      SameDecisions(Handle(s, a.buckets, a.now).0, Decide(all, a.buckets, a.now).0, run[1..], ts, start, n + 1);
    }
  }

  /** What cleanup may have dropped by `now`: entries whose window is over. */
  ghost predicate Forgets(entries: map<Key, Entry>, all: map<Key, Entry>, now: int) {
    forall k :: (k in entries ==> k in all && entries[k] == all[k]) &&
                (k in all && k !in entries ==> now > all[k].resetAt)
  }

  /** With clock readings in lock order, the limiter with cleanup takes the same decisions as one that
      never drops an entry. */
  lemma CleanupIsInvisible(s: State, all: map<Key, Entry>, run: seq<Arrival>, now: int)
    requires WellFormed(run) && InOrder(run) && (run != [] ==> now <= run[0].now) && Forgets(s.entries, all, now)
    ensures Decisions(s, run) == DecisionsForever(all, run)
  {
    var ts := Readings(run);
    assert ts[0..] == ts;
    hide Cleanup, LastAt, SweepAt;
    assert Agrees(s, all, ts, s.lastCleanup, 0) by {
      assert LastAt(ts, s.lastCleanup, 0) == s.lastCleanup by { FirstSweep(ts, s.lastCleanup); }
      forall k ensures AgreesAt(s.entries, all, ts, s.lastCleanup, 0, k) {}
    }
    SameDecisions(s, all, run, ts, s.lastCleanup, 0);
  }

  lemma FirstSweep(ts: seq<int>, start: int)
    ensures LastAt(ts, start, 0) == start
  {}

  // ---------------------------------------------------------------- when cleanup is invisible, exactly

  /** Every run that reads the clock so decides as the limiter that never deletes an entry. */
  ghost predicate Invisible(ts: seq<int>, start: int) {
    forall run | WellFormed(run) && Readings(run) == ts :: Decisions(State(map[], start), run) == DecisionsForever(map[], run)
  }

  /** A request with one bucket of limit 1: of `k` at m and i, of another key at all other arrivals. */
  function Probe(ts: seq<int>, k: Key, other: Key, m: nat, i: nat): (run: seq<Arrival>)
    ensures |run| == |ts|
    ensures forall x | 0 <= x < |ts| :: run[x] == Arrival([Bucket(if x == m || x == i then k else other, 1)], ts[x])
  {
    seq(|ts|, x requires 0 <= x < |ts| => Arrival([Bucket(if x == m || x == i then k else other, 1)], ts[x]))
  }

  /** One request of the probe leaves every other key's entry, but for the sweep. */
  lemma ProbeStep(s: State, all: map<Key, Entry>, key: Key, now: int, k: Key)
    ensures var t, t' := Handle(s, [Bucket(key, 1)], now).0, Decide(all, [Bucket(key, 1)], now).0;
            && t.lastCleanup == Cleanup(s, now).lastCleanup
            && (k != key ==>
                  && (k in t.entries <==> k in Cleanup(s, now).entries)
                  && (k in t.entries ==> t.entries[k] == Cleanup(s, now).entries[k])
                  && (k in t' <==> k in all) && (k in all ==> t'[k] == all[k]))
  {
    var b := [Bucket(key, 1)];
    ChargedOnce(Cleanup(s, now).entries, b, now, k);
    ChargedOnce(all, b, now, k);
  }

  /** What the two limiters know of k at arrival n of the probe. */
  ghost predicate Probed(s: State, all: map<Key, Entry>, ts: seq<int>, start: int, k: Key, m: nat, j: nat, n: nat)
    requires m < |ts| && n <= |ts|
  {
    && s.lastCleanup == LastAt(ts, start, n)
    && (n <= m ==> k !in s.entries && k !in all)
    && (n > m ==> k in all && all[k] == Entry(1, ts[m] + WINDOW) && (k in s.entries ==> s.entries[k] == all[k]))
    && (n > j ==> k !in s.entries)
  }

  lemma ProbedStep(s: State, all: map<Key, Entry>, ts: seq<int>, start: int, k: Key, other: Key, m: nat, j: nat, i: nat, n: nat)
    requires m < j < i < |ts| && n < i && k != other && Probed(s, all, ts, start, k, m, j, n)
    requires Revives(ts, start, ts[m] + WINDOW, j, i)
    ensures var b := [Bucket(if n == m then k else other, 1)];
            Probed(Handle(s, b, ts[n]).0, Decide(all, b, ts[n]).0, ts, start, k, m, j, n + 1)
  {
    var key := if n == m then k else other;
    hide Handle, Decide;
    ProbeStep(s, all, key, ts[n], k);
    SweepTime(s, ts, start, n);
    if n == m {
      ProbeOpens(s, all, k, ts[n]);
    }
  }

  lemma ProbeOpens(s: State, all: map<Key, Entry>, k: Key, now: int)
    requires k !in s.entries && k !in all
    ensures var t, t' := Handle(s, [Bucket(k, 1)], now).0, Decide(all, [Bucket(k, 1)], now).0;
            k in t' && t'[k] == Entry(1, now + WINDOW) && k in t.entries && t.entries[k] == t'[k]
  {
    ChargeOne(all, k, now);
    ChargeOne(Cleanup(s, now).entries, k, now);
  }

  /** At the second request of k, only the limiter with cleanup admits. */
  lemma {:induction false} ProbeDiffers(s: State, all: map<Key, Entry>, ts: seq<int>, start: int, k: Key, other: Key,
                                        m: nat, j: nat, i: nat, n: nat)
    requires m < j < i < |ts| && n <= i && k != other && Probed(s, all, ts, start, k, m, j, n)
    requires Revives(ts, start, ts[m] + WINDOW, j, i)
    ensures var rest := Probe(ts, k, other, m, i)[n..];
            |Decisions(s, rest)| > i - n && |DecisionsForever(all, rest)| > i - n
            && Decisions(s, rest)[i - n] && !DecisionsForever(all, rest)[i - n]
    decreases i - n
  {
    var rest := Probe(ts, k, other, m, i)[n..];
    assert rest[0] == Probe(ts, k, other, m, i)[n];
    if n == i {
      var b := [Bucket(k, 1)];
      assert rest[0] == Arrival(b, ts[i]);
      assert b[0] in b && Current(all, k, ts[i]).count == 1;
      assert Blocked(all, b, ts[i]);
      ChargeOne(Cleanup(s, ts[i]).entries, k, ts[i]);
    } else {
      ProbedStep(s, all, ts, start, k, other, m, j, i, n);
      hide Handle, Decide, Probed, Revives;
      var a := rest[0];
      assert rest[1..] == Probe(ts, k, other, m, i)[n + 1..];
      var t, t' := Handle(s, a.buckets, a.now).0, Decide(all, a.buckets, a.now).0;
      ProbeDiffers(t, t', ts, start, k, other, m, j, i, n + 1);
      assert Decisions(s, rest)[1..] == Decisions(t, rest[1..]);
      assert DecisionsForever(all, rest)[1..] == DecisionsForever(t', rest[1..]);
    }
  }

  /** The readings show the deletion of entries exactly when some reading opens a window, a later sweep finds the
      window over, and a still later reading falls into it again. */
  lemma CleanupInvisibleExactly(ts: seq<int>, start: int)
    ensures Invisible(ts, start) <==> NoneRevives(ts, start)
  {
    hide Invisible, NoneRevives;
    if NoneRevives(ts, start) { InvisibleUnlessRevived(ts, start); } else { VisibleWhenRevived(ts, start); }
  }

  lemma InvisibleUnlessRevived(ts: seq<int>, start: int)
    requires NoneRevives(ts, start)
    ensures Invisible(ts, start)
  {
    hide Decisions, DecisionsForever, LastAt, SweepAt, NeverRevives;
    FirstSweep(ts, start);
    assert ts[0..] == ts;
    forall run | WellFormed(run) && Readings(run) == ts
      ensures Decisions(State(map[], start), run) == DecisionsForever(map[], run)
    {
      SameDecisions(State(map[], start), map[], run, ts, start, 0);
    }
  }

  lemma ProbeIsARun(ts: seq<int>, k: Key, other: Key, m: nat, i: nat)
    ensures WellFormed(Probe(ts, k, other, m, i)) && Readings(Probe(ts, k, other, m, i)) == ts
  {
    var run := Probe(ts, k, other, m, i);
    forall a | a in run ensures DistinctKeys(a.buckets) && forall b | b in a.buckets :: b.limit > 0 {
      var x :| 0 <= x < |run| && run[x] == a;
    }
  }

  lemma ProbeFromStart(ts: seq<int>, start: int, k: Key, other: Key, m: nat, j: nat, i: nat)
    requires m < j && m < |ts| && k != other && Revives(ts, start, ts[m] + WINDOW, j, i)
    ensures var run := Probe(ts, k, other, m, i);
            Decisions(State(map[], start), run) != DecisionsForever(map[], run)
  {
    var run := Probe(ts, k, other, m, i);
    FirstSweep(ts, start);
    assert run[0..] == run;
    hide Decisions, DecisionsForever, Revives, Probe;
    ProbeDiffers(State(map[], start), map[], ts, start, k, other, m, j, i, 0);
  }

  lemma VisibleWhenRevived(ts: seq<int>, start: int)
    requires !NoneRevives(ts, start)
    ensures !Invisible(ts, start)
  {
    hide Decisions, DecisionsForever, LastAt, SweepAt, WellFormed, Readings;
    var m :| 0 <= m < |ts| && !NeverRevives(ts, start, ts[m] + WINDOW, m + 1);
    var j, i :| m + 1 <= j && Revives(ts, start, ts[m] + WINDOW, j, i);
    ProbeFromStart(ts, start, IP("a"), IP("b"), m, j, i);
    ProbeIsARun(ts, IP("a"), IP("b"), m, i);
  }

  /** Three requests with one reading that goes back: a sweep by another key forgets a window that has not ended
      for the last reading. */
  lemma CleanupVisibleWhenClockGoesBack(k: Key, other: Key)
    requires k != other
    ensures var b, c := [Bucket(k, 1)], [Bucket(other, 1)];
            var run := [Arrival(b, 0), Arrival(c, WINDOW + 1), Arrival(b, WINDOW)];
            Decisions(State(map[], 0), run) != DecisionsForever(map[], run)
  {
    var ts := [0, WINDOW + 1, WINDOW];
    assert LastAt(ts, 0, 0) == 0;
    assert !SweepAt(ts, 0, 0) && LastAt(ts, 0, 1) == 0;
    assert Revives(ts, 0, ts[0] + WINDOW, 1, 2);
    hide Decisions, DecisionsForever, LastAt, SweepAt, Revives;
    ProbeFromStart(ts, 0, k, other, 0, 1, 2);
    assert Probe(ts, k, other, 0, 2)
        == [Arrival([Bucket(k, 1)], 0), Arrival([Bucket(other, 1)], WINDOW + 1), Arrival([Bucket(k, 1)], WINDOW)];
  }

  lemma ChargeOne(entries: map<Key, Entry>, key: Key, now: int)
    requires Current(entries, key, now).count < 1
    ensures Decide(entries, [Bucket(key, 1)], now)
         == (entries[key := Entry(Current(entries, key, now).count + 1, Current(entries, key, now).resetAt)], true)
  {
    var b := [Bucket(key, 1)];
    assert b[0].key == key;
    var e := Current(entries, key, now);
    assert b[..0] == [] && ChargeAll(entries, [], now) == entries;
    assert ChargeAll(entries, b, now) == entries[key := Entry(e.count + 1, e.resetAt)];
    assert !Blocked(entries, b, now);
  }
}

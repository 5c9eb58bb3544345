/** Catch-up paging over the event log, acknowledged cursors, and the mobile client's paging loop. */
module Sync {
  import opened Wrappers

  /** A number stands for each event, workspace, user and device id. */
  datatype Event = Event(id: int, workspace: int)

  /** The outbox_events table in (created_at, id) order; ids are unique. */
  type Log = seq<Event>

  predicate Has(log: Log, id: int) { log != [] && (log[0].id == id || Has(log[1..], id)) }

  predicate Unique(log: Log) { log == [] || (!Has(log[1..], log[0].id) && Unique(log[1..])) }

  /** What lies after the event `id`, whatever its workspace; nothing if there is no such event. */
  function After(log: Log, id: int): Log {
    if log == [] then [] else if log[0].id == id then log[1..] else After(log[1..], id)
  }

  function From(log: Log, cursor: Option<int>): Log { if cursor.None? then log else After(log, cursor.value) }

  function Of(log: Log, workspace: int): Log {
    if log == [] then []
    else if log[0].workspace == workspace then [log[0]] + Of(log[1..], workspace)
    else Of(log[1..], workspace)
  }

  /** What a catch-up from `cursor` has to deliver: None is the empty cursor. */
  function Events(log: Log, workspace: int, cursor: Option<int>): Log { Of(From(log, cursor), workspace) }

  /** ListEvents: the SQL query of repository.go with its LIMIT. */
  function ListEvents(log: Log, workspace: int, cursor: Option<int>, limit: nat): Log {
    var all := Events(log, workspace, cursor);
    if |all| <= limit then all else all[..limit]
  }

  function PageSize(limit: int): (n: nat)
    ensures 1 <= n <= 200 && (1 <= limit <= 200 ==> n == limit)
  {
    if limit <= 0 || limit > 200 then 100 else limit
  }

  datatype Page = Page(events: seq<Event>, next: Option<int>, hasMore: bool)

  function PageOf(log: Log, workspace: int, cursor: Option<int>, limit: int): Page {
    var n := PageSize(limit);
    var listed := ListEvents(log, workspace, cursor, n + 1);
    var events := if |listed| > n then listed[..n] else listed;
    Page(events, if events == [] then None else Some(events[|events| - 1].id), |listed| > n)
  }

  // ---------------------------------------------------------------- what there is to deliver

  /** The row lies after the event that the cursor names; with an empty cursor every row does. */
  ghost predicate Follows(log: Log, k: nat, cursor: Option<int>)
    requires k < |log|
  {
    cursor.None? || exists i | 0 <= i < k :: log[i].id == cursor.value
  }

  lemma {:induction false} AfterIsSuffix(log: Log, id: int) returns (n: nat)
    ensures n <= |log| && After(log, id) == log[n..]
    ensures forall k | 0 <= k < |log| :: n <= k <==> Follows(log, k, Some(id))
    decreases |log|
  {
    if log == [] {
      n := 0;
    } else if log[0].id == id {
      n := 1;
    } else {
      n := AfterIsSuffix(log[1..], id);
      n := n + 1;
      assert After(log[1..], id) == log[1..][n - 1..] == log[n..];
      forall k | 0 <= k < |log| ensures n <= k <==> Follows(log, k, Some(id)) {
        if k > 0 {
          assert Follows(log[1..], k - 1, Some(id)) <==> Follows(log, k, Some(id)) by {
            assert forall i | 0 <= i < k - 1 :: log[1..][i] == log[i + 1];
            if i :| 0 <= i < k && log[i].id == id { assert log[1..][i - 1].id == id; }
          }
        }
      }
    }
  }

  lemma {:induction false} OfPicks(log: Log, workspace: int, n: nat) returns (rows: seq<nat>)
    requires n <= |log|
    ensures |rows| == |Of(log[n..], workspace)|
    ensures forall j | 0 <= j < |rows| :: n <= rows[j] < |log| && Of(log[n..], workspace)[j] == log[rows[j]]
    ensures forall i, j | 0 <= i < j < |rows| :: rows[i] < rows[j]
    ensures forall k | 0 <= k < |log| :: k in rows <==> n <= k && log[k].workspace == workspace
    decreases |log| - n
  {
    if n == |log| {
      rows := [];
    } else {
      assert log[n..][1..] == log[n + 1..];
      rows := OfPicks(log, workspace, n + 1);
      if log[n].workspace == workspace { rows := [n] + rows; }
    }
  }

  /** What there is to deliver is the workspace's rows after the cursor, each once and in the order of the table. */
  lemma EventsExactly(log: Log, workspace: int, cursor: Option<int>) returns (rows: seq<nat>)
    ensures |rows| == |Events(log, workspace, cursor)|
    ensures forall j | 0 <= j < |rows| :: rows[j] < |log| && Events(log, workspace, cursor)[j] == log[rows[j]]
    ensures forall i, j | 0 <= i < j < |rows| :: rows[i] < rows[j]
    ensures forall k | 0 <= k < |log| :: k in rows <==> log[k].workspace == workspace && Follows(log, k, cursor)
  {
    var n := 0;
    assert log[0..] == log;
    if cursor.Some? { n := AfterIsSuffix(log, cursor.value); }
    rows := OfPicks(log, workspace, n);
  }

  // ---------------------------------------------------------------- one page

  lemma {:induction false} AfterPastPrefix(log: Log, more: Log, id: int)
    requires Has(log, id)
    ensures After(log + more, id) == After(log, id) + more && Has(log + more, id)
    decreases |log|
  {
    assert (log + more)[1..] == log[1..] + more;
    if log[0].id != id { AfterPastPrefix(log[1..], more, id); }
  }

  lemma {:induction false} AfterUnknown(log: Log, id: int)
    requires !Has(log, id)
    ensures After(log, id) == []
    decreases |log|
  {
    if log != [] { AfterUnknown(log[1..], id); }
  }

  lemma {:induction false} OfConcat(a: Log, b: Log, workspace: int)
    ensures Of(a + b, workspace) == Of(a, workspace) + Of(b, workspace)
    decreases |a|
  {
    if a == [] {
      assert a + b == b;
    } else {
      assert (a + b)[1..] == a[1..] + b && (a + b)[0] == a[0];
      OfConcat(a[1..], b, workspace);
      var rest := Of(a[1..], workspace);
      assert [a[0]] + (rest + Of(b, workspace)) == ([a[0]] + rest) + Of(b, workspace);
    }
  }

  lemma {:induction false} OfIsInLog(log: Log, workspace: int, k: nat)
    requires k < |Of(log, workspace)|
    ensures Has(log, Of(log, workspace)[k].id)
    decreases |log|
  {
    var here := if log[0].workspace == workspace then 1 else 0;
    if k >= here { OfIsInLog(log[1..], workspace, k - here); }
  }

  /** The event at `k` of the answer, used as a cursor, leaves what follows it. */
  lemma {:induction false} CursorSplits(log: Log, workspace: int, k: nat)
    requires Unique(log) && k < |Of(log, workspace)|
    ensures Of(After(log, Of(log, workspace)[k].id), workspace) == Of(log, workspace)[k + 1..]
    decreases |log|
  {
    var rest := Of(log[1..], workspace);
    if log[0].workspace != workspace {
      OfIsInLog(log[1..], workspace, k);
      CursorSplits(log[1..], workspace, k);
    } else if k == 0 {
      assert ([log[0]] + rest)[1..] == rest;
    } else {
      OfIsInLog(log[1..], workspace, k - 1);
      CursorSplits(log[1..], workspace, k - 1);
      assert ([log[0]] + rest)[k + 1..] == rest[k..];
    }
  }

  lemma {:induction false} AfterAfter(log: Log, first: int, second: int)
    requires Unique(log) && Has(After(log, first), second)
    ensures Has(log, second) && After(After(log, first), second) == After(log, second)
    decreases |log|
  {
    if log[0].id != first { AfterAfter(log[1..], first, second); }
  }

  predicate Known(log: Log, cursor: Option<int>) { cursor.Some? ==> Has(log, cursor.value) }

  /** Events that arrive later come after everything there was to deliver. */
  lemma EventsGrow(log: Log, more: Log, workspace: int, cursor: Option<int>)
    requires Known(log, cursor)
    ensures Events(log + more, workspace, cursor) == Events(log, workspace, cursor) + Of(more, workspace)
  {
    if cursor.Some? { AfterPastPrefix(log, more, cursor.value); }
    OfConcat(From(log, cursor), more, workspace);
  }

  lemma EventsAreKnown(log: Log, workspace: int, cursor: Option<int>, k: nat)
    requires Unique(log) && k < |Events(log, workspace, cursor)|
    ensures Known(log, cursor) && Known(log, Some(Events(log, workspace, cursor)[k].id))
  {
    OfIsInLog(From(log, cursor), workspace, k);
    if cursor.Some? {
      if !Has(log, cursor.value) { AfterUnknown(log, cursor.value); }
      AfterAfter(log, cursor.value, Events(log, workspace, cursor)[k].id);
    }
  }

  /** A page: its events and what its cursor leaves make up what there was to deliver; a page that says there is
      more has a cursor and is full, and one that does not leaves nothing. */
  lemma PageSplits(log: Log, workspace: int, cursor: Option<int>, limit: int)
    requires Unique(log)
    ensures var page, all := PageOf(log, workspace, cursor, limit), Events(log, workspace, cursor);
            && page.events == all[..|page.events|]
            && (page.hasMore ==> page.next.Some? && |page.events| == PageSize(limit) < |all|)
            && (!page.hasMore ==> page.events == all)
            && (page.next.None? <==> all == [])
            && (page.next.Some? ==> Known(log, page.next) && Events(log, workspace, page.next) == all[|page.events|..])
  {
    hide Events, Unique, Has, Known;
    var page, all := PageOf(log, workspace, cursor, limit), Events(log, workspace, cursor);
    if page.next.Some? {
      var k := |page.events| - 1;
      assert all[k] == page.events[k];
      EventsAreKnown(log, workspace, cursor, k);
      CursorLeaves(log, workspace, cursor, k);
    }
  }

  lemma CursorLeaves(log: Log, workspace: int, cursor: Option<int>, k: nat)
    requires Unique(log) && k < |Events(log, workspace, cursor)|
    ensures Events(log, workspace, Some(Events(log, workspace, cursor)[k].id)) == Events(log, workspace, cursor)[k + 1..]
  {
    var c := Events(log, workspace, cursor)[k].id;
    OfIsInLog(From(log, cursor), workspace, k);
    if cursor.Some? {
      AfterAfter(log, cursor.value, c);
      SuffixUnique(log, cursor.value);
    }
    CursorSplits(From(log, cursor), workspace, k);
  }

  lemma {:induction false} SuffixUnique(log: Log, id: int)
    requires Unique(log)
    ensures Unique(After(log, id))
    decreases |log|
  {
    if log != [] && log[0].id != id { SuffixUnique(log[1..], id); }
  }

  // ---------------------------------------------------------------- the client's loop

  /** What a client has after its loop: the events, its cursor, how many pages it asked for, and whether it stopped
      because a page said there is no more. */
  datatype Drained = Drained(events: seq<Event>, cursor: Option<int>, pages: nat, finished: bool)

  /** The loop of the mobile client; `logs[k]` is the table when page k is asked for. */
  function Drain(logs: seq<Log>, workspace: int, cursor: Option<int>, limit: int): Drained {
    if logs == [] then Drained([], cursor, 0, false)
    else
      var page := PageOf(logs[0], workspace, cursor, limit);
      if page.next.None? then Drained(page.events, cursor, 1, true)
      else if !page.hasMore then Drained(page.events, page.next, 1, true)
      else
        var rest := Drain(logs[1..], workspace, page.next, limit);
        Drained(page.events + rest.events, rest.cursor, rest.pages + 1, rest.finished)
  }

  /** Between pages events are only appended. */
  predicate Growing(logs: seq<Log>) {
    |logs| <= 1 || (logs[0] <= logs[1] && Growing(logs[1..]))
  }

  predicate AllUnique(logs: seq<Log>) { logs == [] || (Unique(logs[0]) && AllUnique(logs[1..])) }

  lemma {:induction false} GrowsTo(logs: seq<Log>, k: nat)
    requires Growing(logs) && k < |logs|
    ensures logs[0] <= logs[k]
    decreases |logs|
  {
    if k > 0 { GrowsTo(logs[1..], k - 1); }
  }

  /** What the client has collected, then what its cursor still leaves, is what there was to deliver, in order, with no
      gap and no duplicate; a client that stopped because there is no more has it all. */
  lemma {:induction false} DrainIsExact(logs: seq<Log>, workspace: int, cursor: Option<int>, limit: int)
    requires logs != [] && Growing(logs) && AllUnique(logs)
    ensures var d := Drain(logs, workspace, cursor, limit);
            && 1 <= d.pages <= |logs|
            && var last := logs[d.pages - 1];
               && d.events + Events(last, workspace, d.cursor) == Events(last, workspace, cursor)
               && (d.finished ==> d.events == Events(last, workspace, cursor))
               && (!d.finished ==> d.pages == |logs|)
    decreases |logs|
  {
    hide Events, PageOf, Unique, Known;
    var page, d := PageOf(logs[0], workspace, cursor, limit), Drain(logs, workspace, cursor, limit);
    var all := Events(logs[0], workspace, cursor);
    PageSplits(logs[0], workspace, cursor, limit);
    assert all == page.events + all[|page.events|..];
    if page.next.Some? && page.hasMore {
      if |logs| > 1 {
        DrainIsExact(logs[1..], workspace, page.next, limit);
        var last := logs[d.pages - 1];
        assert last == logs[1..][d.pages - 2];
        GrowsTo(logs, d.pages - 1);
        var more := last[|logs[0]|..];
        assert last == logs[0] + more;
        EventsAreKnown(logs[0], workspace, cursor, 0);
        EventsGrow(logs[0], more, workspace, cursor);
        EventsGrow(logs[0], more, workspace, page.next);
        var rest := Drain(logs[1..], workspace, page.next, limit);
        Regroup(page.events, rest.events, Events(last, workspace, d.cursor), all[|page.events|..], Of(more, workspace));
        assert d.finished ==> rest.events == Events(last, workspace, page.next);
      } else {
        assert Drain(logs[1..], workspace, page.next, limit) == Drained([], page.next, 0, false);
      }
    }
  }

  lemma Regroup(page: Log, rest: Log, left: Log, old_: Log, more: Log)
    requires rest + left == old_ + more
    ensures (page + rest) + left == (page + old_) + more
    ensures left == [] ==> page + rest == (page + old_) + more
    ensures page + (old_ + more) == (page + old_) + more
  {
    assert (page + rest) + left == page + (rest + left);
  }

  /** While nothing is appended, the loop stops by itself after a bounded number of pages. */
  lemma {:induction false} QuietDrainFinishes(logs: seq<Log>, log: Log, workspace: int, cursor: Option<int>, limit: int)
    requires logs != [] && Unique(log) && forall k | 0 <= k < |logs| :: logs[k] == log
    requires |Events(log, workspace, cursor)| <= |logs| * PageSize(limit)
    ensures Drain(logs, workspace, cursor, limit).finished
    decreases |logs|
  {
    hide Events, PageOf, Unique, Known;
    var page := PageOf(log, workspace, cursor, limit);
    PageSplits(log, workspace, cursor, limit);
    if page.next.Some? && page.hasMore {
      assert (|logs| - 1) * PageSize(limit) == |logs| * PageSize(limit) - PageSize(limit);
      assert |logs| > 1;
      QuietDrainFinishes(logs[1..], log, workspace, page.next, limit);
    }
  }

  // ---------------------------------------------------------------- when the table is not only appended to

  /** A row is placed by its created_at, set when its transaction began: it can land before rows already delivered. */
  function Insert(log: Log, k: nat, e: Event): Log
    requires k <= |log|
    decreases |log|
  {
    if k == 0 then [e] + log else [log[0]] + Insert(log[1..], k - 1, e)
  }

  function Position(log: Log, id: int): nat
    requires Has(log, id)
  {
    if log[0].id == id then 0 else 1 + Position(log[1..], id)
  }

  /** A late event of the workspace is among what a client with cursor `id` gets next exactly when it lands after
      that event. */
  lemma LateEventSeenExactly(log: Log, k: nat, e: Event, id: int)
    requires k <= |log| && Has(log, id) && !Has(log, e.id) && Unique(log)
    ensures e in Events(Insert(log, k, e), e.workspace, Some(id)) <==> k > Position(log, id)
  {
    LateEventAfter(log, k, e, id);
    OfHolds(After(Insert(log, k, e), id), e);
    if e in After(Insert(log, k, e), id) { HoldsHas(After(Insert(log, k, e), id), e); }
  }

  lemma {:induction false} OfHolds(log: Log, e: Event)
    ensures e in Of(log, e.workspace) <==> e in log
    decreases |log|
  {
    if log != [] {
      OfHolds(log[1..], e);
      assert log == [log[0]] + log[1..];
    }
  }

  lemma {:induction false} HoldsHas(log: Log, e: Event)
    requires e in log
    ensures Has(log, e.id)
    decreases |log|
  {
    if log[0] != e {
      assert log == [log[0]] + log[1..];
      HoldsHas(log[1..], e);
    }
  }

  lemma {:induction false} LateEventAfter(log: Log, k: nat, e: Event, id: int)
    requires k <= |log| && Has(log, id) && !Has(log, e.id) && Unique(log)
    ensures Has(After(Insert(log, k, e), id), e.id) <==> k > Position(log, id)
    ensures k > Position(log, id) ==> e in After(Insert(log, k, e), id)
    decreases |log|
  {
    if k == 0 {
      assert Insert(log, k, e)[1..] == log;
      AfterHas(log, id, e.id);
    } else {
      assert Insert(log, k, e)[1..] == Insert(log[1..], k - 1, e);
      if log[0].id == id {
        InsertHas(log[1..], k - 1, e);
      } else {
        LateEventAfter(log[1..], k - 1, e, id);
      }
    }
  }

  lemma {:induction false} InsertHas(log: Log, k: nat, e: Event)
    requires k <= |log|
    ensures Has(Insert(log, k, e), e.id) && e in Insert(log, k, e)
    decreases |log|
  {
    if k > 0 {
      assert Insert(log, k, e)[1..] == Insert(log[1..], k - 1, e);
      InsertHas(log[1..], k - 1, e);
    }
  }

  lemma {:induction false} AfterHas(log: Log, id: int, other: int)
    requires !Has(log, other)
    ensures !Has(After(log, id), other)
    decreases |log|
  {
    if log != [] && log[0].id != id { AfterHas(log[1..], id, other); }
  }

  /** CleanupDeadOutbox deletes rows, which can include the one a cursor names. */
  function Without(log: Log, ids: set<int>): Log {
    if log == [] then []
    else if log[0].id in ids then Without(log[1..], ids)
    else [log[0]] + Without(log[1..], ids)
  }

  lemma {:induction false} WithoutHas(log: Log, ids: set<int>, id: int)
    ensures Has(Without(log, ids), id) <==> Has(log, id) && id !in ids
    decreases |log|
  {
    if log != [] {
      WithoutHas(log[1..], ids, id);
      if log[0].id !in ids { assert Without(log, ids)[1..] == Without(log[1..], ids); }
    }
  }

  lemma {:induction false} AfterWithout(log: Log, ids: set<int>, id: int)
    requires Has(log, id) && id !in ids
    ensures After(Without(log, ids), id) == Without(After(log, id), ids)
    decreases |log|
  {
    var rest := Without(log[1..], ids);
    if log[0].id !in ids { assert Without(log, ids)[1..] == rest; }
    if log[0].id != id { AfterWithout(log[1..], ids, id); }
  }

  lemma {:induction false} OfWithout(log: Log, ids: set<int>, workspace: int)
    ensures Of(Without(log, ids), workspace) == Without(Of(log, workspace), ids)
    decreases |log|
  {
    if log != [] {
      OfWithout(log[1..], ids, workspace);
      if log[0].id !in ids { assert Without(log, ids)[1..] == Without(log[1..], ids); }
      if log[0].workspace == workspace { assert Of(log, workspace)[1..] == Of(log[1..], workspace); }
    }
  }

  /** After a cleanup a client that sends its own cursor resumes there, missing only deleted rows, exactly when the row
      the cursor names is still there or nothing was left to deliver; otherwise it is told that there is nothing. */
  lemma CleanupKeepsCursorExactly(log: Log, ids: set<int>, workspace: int, id: int)
    requires Has(log, id)
    ensures Events(Without(log, ids), workspace, Some(id)) == Without(Events(log, workspace, Some(id)), ids)
            <==> (id !in ids || Without(Events(log, workspace, Some(id)), ids) == [])
  {
    WithoutHas(log, ids, id);
    if id !in ids {
      AfterWithout(log, ids, id);
      OfWithout(After(log, id), ids, workspace);
    } else {
      AfterUnknown(Without(log, ids), id);
    }
  }

  /** A cursor that a client sends and that names no row gets an empty last page. */
  lemma LostCursorStalls(log: Log, workspace: int, id: int, limit: int)
    requires !Has(log, id)
    ensures PageOf(log, workspace, Some(id), limit) == Page([], None, false)
  {
    AfterUnknown(log, id);
  }

  // ---------------------------------------------------------------- acknowledged cursors

  /** The primary key of mobile_sync_cursors. */
  datatype Device = Device(user: int, workspace: int, device: int)

  /** The cursor event must belong to the workspace. */
  predicate Owned(log: Log, workspace: int, id: int) {
    log != [] && ((log[0].id == id && log[0].workspace == workspace) || Owned(log[1..], workspace, id))
  }

  /** The cursor that a request sends is the one it resumes after, whatever its device has acknowledged. */
  lemma OwnCursorWins(user: int, workspace: int, device: int, cursor: Option<int>)
    requires cursor.Some?
    ensures forall acks :: Resolve(acks, user, workspace, Some(device), cursor) == cursor
  {}

  lemma {:induction false} OwnedExactly(log: Log, workspace: int, id: int)
    ensures Owned(log, workspace, id) <==> Event(id, workspace) in log
    decreases |log|
  {
    if log != [] {
      OwnedExactly(log[1..], workspace, id);
      assert log == [log[0]] + log[1..];
    }
  }

  lemma {:induction false} OfIsOwned(log: Log, workspace: int, k: nat)
    requires k < |Of(log, workspace)|
    ensures Owned(log, workspace, Of(log, workspace)[k].id)
    decreases |log|
  {
    var here := if log[0].workspace == workspace then 1 else 0;
    if k >= here { OfIsOwned(log[1..], workspace, k - here); }
  }

  lemma {:induction false} AfterOwned(log: Log, id: int, workspace: int, other: int)
    requires Owned(After(log, id), workspace, other)
    ensures Owned(log, workspace, other)
    decreases |log|
  {
    if log != [] && log[0].id != id { AfterOwned(log[1..], id, workspace, other); }
  }

  /** The cursor of a page names an event of the workspace, so it can be acknowledged. */
  lemma PageIsOwned(log: Log, workspace: int, cursor: Option<int>, limit: int)
    ensures var page := PageOf(log, workspace, cursor, limit);
            page.next.Some? ==> Owned(log, workspace, page.next.value)
  {
    var page := PageOf(log, workspace, cursor, limit);
    if page.next.Some? {
      OfIsOwned(From(log, cursor), workspace, |page.events| - 1);
      if cursor.Some? { AfterOwned(log, cursor.value, workspace, page.next.value); }
    }
  }

  /** An empty cursor stands for the device's acknowledged one, if the request names a device that has one. */
  function Resolve(acks: map<Device, int>, user: int, workspace: int, device: Option<int>, cursor: Option<int>): Option<int> {
    if cursor.Some? || device.None? then cursor
    else
      var key := Device(user, workspace, device.value);
      if key in acks then Some(acks[key]) else None
  }

  function Rank(log: Log, workspace: int, id: int): nat {
    if log == [] || log[0].id == id then 0
    else (if log[0].workspace == workspace then 1 else 0) + Rank(log[1..], workspace, id)
  }

  /** In the whole list of the workspace's events, an owned cursor leaves exactly what follows its event. */
  lemma {:induction false} OwnedCursorResumes(log: Log, workspace: int, id: int)
    requires Owned(log, workspace, id) && Unique(log)
    ensures var all, k := Events(log, workspace, None), Rank(log, workspace, id);
            Has(log, id) && k < |all| && all[k] == Event(id, workspace) && Events(log, workspace, Some(id)) == all[k + 1..]
    decreases |log|
  {
    var all := Of(log, workspace);
    if Owned(log[1..], workspace, id) {
      OwnedCursorResumes(log[1..], workspace, id);
      if log[0].workspace == workspace { assert all[1..] == Of(log[1..], workspace); }
    } else {
      assert all[1..] == Of(log[1..], workspace);
    }
  }

  /** After an acknowledgement the device's next catch-up with an empty cursor, however much the table has grown,
      has to deliver exactly what follows the acknowledged event, whatever was acknowledged before. */
  lemma AckResumesExactly(log: Log, more: Log, acks: map<Device, int>, key: Device, id: int)
    requires Owned(log, key.workspace, id) && Unique(log + more)
    ensures var resolved := Resolve(acks[key := id], key.user, key.workspace, Some(key.device), None);
            var all, k := Events(log + more, key.workspace, None), Rank(log + more, key.workspace, id);
            k < |all| && all[k].id == id && Events(log + more, key.workspace, resolved) == all[k + 1..]
  {
    OwnedGrows(log, more, key.workspace, id);
    OwnedCursorResumes(log + more, key.workspace, id);
  }

  lemma {:induction false} OwnedGrows(log: Log, more: Log, workspace: int, id: int)
    requires Owned(log, workspace, id)
    ensures Owned(log + more, workspace, id)
    decreases |log|
  {
    assert (log + more)[1..] == log[1..] + more;
    if Owned(log[1..], workspace, id) { OwnedGrows(log[1..], more, workspace, id); }
  }

  // ---------------------------------------------------------------- cleanup and acknowledged cursors

  /** The foreign key of mobile_sync_cursors: deleting an event clears the cursors that name it (ON DELETE SET NULL). */
  function Cleared(acks: map<Device, int>, ids: set<int>): map<Device, int> {
    map key | key in acks && acks[key] !in ids :: acks[key]
  }

  /** All events of the workspace up to and including `id` are deleted too. */
  predicate AllDeletedUpTo(log: Log, workspace: int, id: int, ids: set<int>) {
    forall e | e in Of(log, workspace)[..Upto(log, workspace, id)] :: e.id in ids
  }

  function Upto(log: Log, workspace: int, id: int): nat {
    var n := Rank(log, workspace, id) + 1;
    if n <= |Of(log, workspace)| then n else |Of(log, workspace)|
  }

  lemma {:induction false} WithoutConcat(a: Log, b: Log, ids: set<int>)
    ensures Without(a + b, ids) == Without(a, ids) + Without(b, ids)
    decreases |a|
  {
    if a == [] {
      assert a + b == b;
    } else {
      assert (a + b)[1..] == a[1..] + b;
      WithoutConcat(a[1..], b, ids);
      assert [a[0]] + (Without(a[1..], ids) + Without(b, ids)) == ([a[0]] + Without(a[1..], ids)) + Without(b, ids);
    }
  }

  lemma {:induction false} WithoutAll(log: Log, ids: set<int>)
    ensures Without(log, ids) == [] <==> forall e | e in log :: e.id in ids
    decreases |log|
  {
    if log != [] {
      WithoutAll(log[1..], ids);
      assert log == [log[0]] + log[1..];
    }
  }

  /** What a device that acknowledged `id` gets after a cleanup and more events: what follows the acknowledged event
      if its row is left, and everything there still is otherwise. */
  lemma AckAfterCleanup(log: Log, more: Log, acks: map<Device, int>, key: Device, id: int, ids: set<int>)
    requires Owned(log, key.workspace, id) && Unique(log)
    ensures var rest := Without(log, ids) + more;
            var resolved := Resolve(Cleared(acks[key := id], ids), key.user, key.workspace, Some(key.device), None);
            Events(rest, key.workspace, resolved)
            == Without(if id in ids then Of(log, key.workspace) else Events(log, key.workspace, Some(id)), ids) + Of(more, key.workspace)
  {
    OwnedCursorResumes(log, key.workspace, id);
    WithoutHas(log, ids, id);
    if id in ids {
      OfConcat(Without(log, ids), more, key.workspace);
      OfWithout(log, ids, key.workspace);
    } else {
      AfterPastPrefix(Without(log, ids), more, id);
      AfterWithout(log, ids, id);
      OfConcat(Without(After(log, id), ids), more, key.workspace);
      OfWithout(After(log, id), ids, key.workspace);
    }
  }

  /** After an acknowledgement, a cleanup and more events, the device's empty-cursor catch-up resumes exactly after the
      acknowledged event, missing only deleted rows, if and only if that event's row is left or all the workspace's
      events before it are gone as well; otherwise it delivers again everything there still is. */
  lemma AckSurvivesCleanupExactly(log: Log, more: Log, acks: map<Device, int>, key: Device, id: int, ids: set<int>)
    requires Owned(log, key.workspace, id) && Unique(log)
    ensures var rest := Without(log, ids) + more;
            var resolved := Resolve(Cleared(acks[key := id], ids), key.user, key.workspace, Some(key.device), None);
            var resumed := Without(Events(log, key.workspace, Some(id)), ids) + Of(more, key.workspace);
            && (Events(rest, key.workspace, resolved) == resumed <==> id !in ids || AllDeletedUpTo(log, key.workspace, id, ids))
            && (id in ids ==> Events(rest, key.workspace, resolved) == Of(rest, key.workspace))
  {
    AckAfterCleanup(log, more, acks, key, id, ids);
    OwnedCursorResumes(log, key.workspace, id);
    OfConcat(Without(log, ids), more, key.workspace);
    OfWithout(log, ids, key.workspace);
    var all, n := Of(log, key.workspace), Upto(log, key.workspace, id);
    assert all == all[..n] + all[n..];
    WithoutConcat(all[..n], all[n..], ids);
    WithoutAll(all[..n], ids);
    hide Without, Of, Owned, Rank, Unique, Has;
    Shorter(Without(all[..n], ids), Without(all[n..], ids), Of(more, key.workspace));
  }

  lemma Shorter(a: Log, b: Log, c: Log)
    ensures a + b + c == b + c <==> a == []
  {
    if a == [] {
      assert a + b + c == b + c;
    } else {
      assert |a + b + c| > |b + c|;
    }
  }

  /** The two tables. */
  datatype Stored = Stored(log: Log, acks: map<Device, int>)

  /** Land is an event whose created_at puts it at position k. */
  datatype Change = Append(events: Log) | Land(k: nat, event: Event) | Acknowledge(key: Device, id: int) | Cleanup(ids: set<int>)

  function Changed(t: Stored, c: Change): Stored {
    match c
    case Append(events) => t.(log := t.log + events)
    case Land(k, e) => if k <= |t.log| then t.(log := Insert(t.log, k, e)) else t
    case Acknowledge(key, id) => if Owned(t.log, key.workspace, id) then t.(acks := t.acks[key := id]) else t
    case Cleanup(ids) => Stored(Without(t.log, ids), Cleared(t.acks, ids))
  }

  function AllChanged(t: Stored, changes: seq<Change>): Stored
    decreases |changes|
  {
    if changes == [] then t else AllChanged(Changed(t, changes[0]), changes[1..])
  }

  lemma {:induction false} InsertPlaces(log: Log, k: nat, e: Event)
    requires k <= |log|
    ensures Insert(log, k, e) == log[..k] + [e] + log[k..]
    decreases |log|
  {
    if k > 0 { InsertPlaces(log[1..], k - 1, e); }
  }

  lemma {:induction false} WithoutExactly(log: Log, ids: set<int>, e: Event)
    ensures e in Without(log, ids) <==> e in log && e.id !in ids
    decreases |log|
  {
    if log != [] {
      WithoutExactly(log[1..], ids, e);
      assert log == [log[0]] + log[1..];
    }
  }

  /** What each change makes of the two tables, row by row. */
  lemma ChangedRows(t: Stored, c: Change, e: Event, key: Device)
    ensures var after := Changed(t, c);
            match c
            case Append(events) => after == Stored(t.log + events, t.acks)
            case Land(k, late) => k <= |t.log| ==> after == Stored(t.log[..k] + [late] + t.log[k..], t.acks)
            case Acknowledge(device, id) =>
              after == if Event(id, device.workspace) in t.log then Stored(t.log, t.acks[device := id]) else t
            case Cleanup(ids) =>
              && (e in after.log <==> e in t.log && e.id !in ids)
              && (key in after.acks <==> key in t.acks && t.acks[key] !in ids)
              && (key in after.acks ==> after.acks[key] == t.acks[key])
  {
    match c
    case Append(_) =>
    case Land(k, late) => if k <= |t.log| { InsertPlaces(t.log, k, late); }
    case Acknowledge(device, id) => OwnedExactly(t.log, device.workspace, id);
    case Cleanup(ids) => WithoutExactly(t.log, ids, e);
  }

  ghost predicate AckOwned(t: Stored, key: Device) { key in t.acks ==> Owned(t.log, key.workspace, t.acks[key]) }

  lemma {:induction false} InsertOwned(log: Log, k: nat, e: Event, workspace: int, id: int)
    requires k <= |log| && Owned(log, workspace, id)
    ensures Owned(Insert(log, k, e), workspace, id)
    decreases |log|
  {
    if k == 0 {
      assert Insert(log, k, e)[1..] == log;
    } else {
      assert Insert(log, k, e)[1..] == Insert(log[1..], k - 1, e);
      if Owned(log[1..], workspace, id) { InsertOwned(log[1..], k - 1, e, workspace, id); }
    }
  }

  lemma {:induction false} WithoutOwned(log: Log, ids: set<int>, workspace: int, id: int)
    requires Owned(log, workspace, id) && id !in ids
    ensures Owned(Without(log, ids), workspace, id)
    decreases |log|
  {
    if Owned(log[1..], workspace, id) { WithoutOwned(log[1..], ids, workspace, id); }
    if log[0].id !in ids { assert Without(log, ids)[1..] == Without(log[1..], ids); }
  }

  lemma ChangeKeepsAck(t: Stored, c: Change, key: Device)
    requires AckOwned(t, key)
    ensures AckOwned(Changed(t, c), key)
  {
    hide Owned, Insert, Without;
    if key in t.acks {
      match c
      case Append(events) => OwnedGrows(t.log, events, key.workspace, t.acks[key]);
      case Land(k, e) => if k <= |t.log| { InsertOwned(t.log, k, e, key.workspace, t.acks[key]); }
      case Acknowledge(_, _) =>
      case Cleanup(ids) => if t.acks[key] !in ids { WithoutOwned(t.log, ids, key.workspace, t.acks[key]); }
    }
  }

  /** Whatever happens to the tables, an acknowledged cursor names an event of its workspace that is still there: a
      device that sends no cursor of its own is never left with one that is lost. */
  lemma {:induction false} AcksStayOwned(t: Stored, changes: seq<Change>, key: Device)
    requires AckOwned(t, key)
    ensures AckOwned(AllChanged(t, changes), key)
    decreases |changes|
  {
    hide Changed, AckOwned;
    if changes != [] {
      ChangeKeepsAck(t, changes[0], key);
      AcksStayOwned(Changed(t, changes[0]), changes[1..], key);
    }
  }

  datatype AckError = ValidationError | CursorNotFound

  /** The service and its tables. */
  class Server {
    var log: Log
    var acks: map<Device, int>

    ghost function View(): Stored
      reads this
    {
      Stored(log, acks)
    }

    constructor ()
      ensures View() == Stored([], map[])
    {
      log, acks := [], map[];
    }

    method Append(events: seq<Event>)
      modifies this`log
      ensures log == old(log) + events
    {
      log := log + events;
    }

    /** CleanupDeadOutbox deletes `ids`; the foreign key clears the cursors that name them. */
    method Cleanup(ids: set<int>)
      modifies this
      ensures View() == Changed(old(View()), Change.Cleanup(ids))
    {
      log := Without(log, ids);
      acks := Cleared(acks, ids);
    }

    method CatchUp(user: int, workspace: int, device: Option<int>, cursor: Option<int>, limit: int) returns (page: Page)
      ensures page == PageOf(log, workspace, Resolve(acks, user, workspace, device, cursor), limit)
      ensures var n := if 1 <= limit <= 200 then limit else 100;
              var from := if cursor.Some? then cursor
                          else if device.Some? && Device(user, workspace, device.value) in acks
                          then Some(acks[Device(user, workspace, device.value)]) else None;
              var all := Events(log, workspace, from);
              && page.events == (if |all| <= n then all else all[..n])
              && (page.hasMore <==> |all| > n)
              && page.next == if all == [] then None else Some(page.events[|page.events| - 1].id)
    {
      hide Events;
      var n := limit;
      if n <= 0 || n > 200 {
        n := 100;
      }
      var from := cursor;
      if from.None? && device.Some? && Device(user, workspace, device.value) in acks {
        from := Some(acks[Device(user, workspace, device.value)]);
      }
      var events := ListEvents(log, workspace, from, n + 1);
      var hasMore := |events| > n;
      if hasMore {
        events := events[..n];
      }
      var next := None;
      if |events| > 0 {
        next := Some(events[|events| - 1].id);
      }
      page := Page(events, next, hasMore);
    }

    method Ack(user: int, workspace: int, device: Option<int>, cursor: Option<int>) returns (r: Result<int, AckError>)
      modifies this`acks
      ensures device.None? || cursor.None? <==> r == Err(ValidationError)
      ensures r.Ok? <==> device.Some? && cursor.Some? && Event(cursor.value, workspace) in log
      ensures r.Ok? ==> r.value == cursor.value && acks == old(acks)[Device(user, workspace, device.value) := cursor.value]
      ensures r.Err? ==> acks == old(acks)
    {
      if device.None? || cursor.None? {
        return Err(ValidationError);
      }
      OwnedExactly(log, workspace, cursor.value);
      if !Owned(log, workspace, cursor.value) {
        return Err(CursorNotFound);
      }
      acks := acks[Device(user, workspace, device.value) := cursor.value];
      return Ok(cursor.value);
    }
  }

  /** The table at each page when `arrivals[k]` is appended just before page k. */
  function Tables(log: Log, arrivals: seq<Log>): seq<Log>
    decreases |arrivals|
  {
    if arrivals == [] then [] else [log + arrivals[0]] + Tables(log + arrivals[0], arrivals[1..])
  }

  /** The loop `d` has collected `events` in `k` pages and goes on as `rest`. */
  ghost predicate Continues(d: Drained, events: seq<Event>, k: nat, rest: Drained) {
    d == Drained(events + rest.events, rest.cursor, k + rest.pages, rest.finished)
  }

  lemma DrainStep(log: Log, arrivals: seq<Log>, workspace: int, at: Option<int>, limit: int, d: Drained, events: seq<Event>, k: nat)
    requires arrivals != [] && Continues(d, events, k, Drain(Tables(log, arrivals), workspace, at, limit))
    ensures var log' := log + arrivals[0];
            var page := PageOf(log', workspace, at, limit);
            && (page.next.None? ==> !page.hasMore && page.events == [] && d == Drained(events, at, k + 1, true))
            && (page.next.Some? ==> page.events != [] && page.next == Some(page.events[|page.events| - 1].id))
            && (page.next.Some? && !page.hasMore ==> d == Drained(events + page.events, page.next, k + 1, true))
            && (page.next.Some? && page.hasMore ==>
                  Continues(d, events + page.events, k + 1, Drain(Tables(log', arrivals[1..]), workspace, page.next, limit)))
  {
    PageShape(log + arrivals[0], workspace, at, limit);
    hide PageOf, Tables;
    var log' := log + arrivals[0];
    var page, tables := PageOf(log', workspace, at, limit), Tables(log, arrivals);
    TablesSplit(log, arrivals);
    if page.next.None? {
      assert events + page.events == events;
    } else if page.hasMore {
      var rest := Drain(tables[1..], workspace, page.next, limit);
      hide Drain;
      Assoc(events, page.events, rest.events);
    }
  }

  lemma TablesSplit(log: Log, arrivals: seq<Log>)
    requires arrivals != []
    ensures var t := Tables(log, arrivals);
            t != [] && t[0] == log + arrivals[0] && t[1..] == Tables(log + arrivals[0], arrivals[1..])
  {}

  lemma Assoc(a: Log, b: Log, c: Log)
    ensures a + (b + c) == (a + b) + c
  {}

  /** The cursor of the last event collected is stored and acknowledged; nothing has changed before the first one. */
  predicate Saved(events: seq<Event>, cursor: Option<int>, acks: map<Device, int>, key: Device, cursor0: Option<int>, acks0: map<Device, int>) {
    if events == [] then cursor == cursor0 && acks == acks0
    else cursor == Some(events[|events| - 1].id) && acks == acks0[key := events[|events| - 1].id]
  }

  lemma NothingSaved(cursor: Option<int>, acks: map<Device, int>, key: Device)
    ensures Saved([], cursor, acks, key, cursor, acks)
  {}

  lemma SavedPage(events: seq<Event>, cursor: Option<int>, acks: map<Device, int>, page: seq<Event>, cursor': Option<int>, acks': map<Device, int>,
                  key: Device, cursor0: Option<int>, acks0: map<Device, int>)
    requires Saved(events, cursor, acks, key, cursor0, acks0) && Saved(page, cursor', acks', key, cursor, acks)
    ensures Saved(events + page, cursor', acks', key, cursor0, acks0)
  {
    if page == [] {
      assert events + page == events;
    } else {
      assert (events + page)[|events + page| - 1] == page[|page| - 1];
      assert forall k: Device :: k in acks' <==> k in acks0 || k == key;
    }
  }

  lemma SavedMeans(events: seq<Event>, cursor: Option<int>, acks: map<Device, int>, key: Device, cursor0: Option<int>, acks0: map<Device, int>)
    requires Saved(events, cursor, acks, key, cursor0, acks0)
    ensures |events| > 0 ==> cursor == Some(events[|events| - 1].id) && acks == acks0[key := events[|events| - 1].id]
    ensures |events| == 0 ==> cursor == cursor0 && acks == acks0
  {}

  /** The mobile app's stored cursor for one workspace, and its loop of at most |arrivals| pages. */
  class Phone {
    const user: int
    const workspace: int
    const device: int
    var cursor: Option<int>

    constructor (user: int, workspace: int, device: int)
      ensures cursor == None && this.user == user && this.workspace == workspace && this.device == device
    {
      this.user, this.workspace, this.device := user, workspace, device;
      cursor := None;
    }

    /** One page: fetch it, and store and acknowledge its cursor if it has one. */
    method Turn(server: Server, arrived: Log, limit: int) returns (page: Page)
      modifies this`cursor, server
      ensures server.log == old(server.log) + arrived
      ensures page == PageOf(server.log, workspace, old(Resolve(server.acks, user, workspace, Some(device), cursor)), limit)
      ensures cursor == if page.next.Some? then page.next else old(cursor)
      ensures Saved(page.events, cursor, server.acks, Device(user, workspace, device), old(cursor), old(server.acks))
    {
      hide PageOf, Owned, Events, Resolve;
      server.Append(arrived);
      ghost var at := Resolve(server.acks, user, workspace, Some(device), cursor);
      page := server.CatchUp(user, workspace, Some(device), cursor, limit);
      PageShape(server.log, workspace, at, limit);
      if page.next.None? {
        return;
      }
      cursor := page.next;
      PageIsOwned(server.log, workspace, at, limit);
      OwnedExactly(server.log, workspace, page.next.value);
      var acked := server.Ack(user, workspace, Some(device), cursor);
    }

    method Execute(server: Server, arrivals: seq<Log>, limit: int) returns (events: seq<Event>, hasMore: bool)
      modifies this`cursor, server
      ensures var from := old(Resolve(server.acks, user, workspace, Some(device), cursor));
              var d := Drain(Tables(old(server.log), arrivals), workspace, from, limit);
              && events == d.events && (hasMore <==> !d.finished && arrivals != [])
              && (|events| > 0 ==> cursor == d.cursor && cursor == Some(events[|events| - 1].id))
              && (|events| == 0 ==> cursor == old(cursor))
      ensures server.acks == if |events| == 0 then old(server.acks)
                             else old(server.acks)[Device(user, workspace, device) := events[|events| - 1].id]
    {
      hide PageOf, Drain, Tables, Continues, Resolve, Saved;
      ghost var key := Device(user, workspace, device);
      NothingSaved(cursor, server.acks, key);
      events, hasMore := [], false;
      ghost var at := Resolve(server.acks, user, workspace, Some(device), cursor);
      ghost var d := Drain(Tables(server.log, arrivals), workspace, at, limit);
      var k := 0;
      assert arrivals[k..] == arrivals;
      NothingYet(d);
      while k < |arrivals|
        invariant k <= |arrivals|
        invariant at == Resolve(server.acks, user, workspace, Some(device), cursor)
        invariant |events| > 0 ==> at == cursor
        invariant hasMore <==> k > 0
        invariant Saved(events, cursor, server.acks, key, old(cursor), old(server.acks))
        invariant Continues(d, events, k, Drain(Tables(server.log, arrivals[k..]), workspace, at, limit))
      {
        DrainStep(server.log, arrivals[k..], workspace, at, limit, d, events, k);
        assert arrivals[k..][1..] == arrivals[k + 1..];
        ghost var cursorWas, acksWere := cursor, server.acks;
        var page := Turn(server, arrivals[k], limit);
        SavedPage(events, cursorWas, acksWere, page.events, cursor, server.acks, key, old(cursor), old(server.acks));
        events := events + page.events;
        hasMore := page.hasMore;
        if page.next.None? {
          SavedMeans(events, cursor, server.acks, key, old(cursor), old(server.acks));
          return;
        }
        at := page.next;
        OwnCursorWins(user, workspace, device, cursor);
        if !page.hasMore {
          SavedMeans(events, cursor, server.acks, key, old(cursor), old(server.acks));
          return;
        }
        k := k + 1;
      }
      SavedMeans(events, cursor, server.acks, key, old(cursor), old(server.acks));
      OutOfPages(server.log, workspace, at, limit, d, events, k);
    }
  }

  lemma NothingYet(d: Drained)
    ensures Continues(d, [], 0, d)
  {
    assert [] + d.events == d.events;
  }

  lemma OutOfPages(log: Log, workspace: int, at: Option<int>, limit: int, d: Drained, events: seq<Event>, k: nat)
    requires Continues(d, events, k, Drain(Tables(log, []), workspace, at, limit))
    ensures d == Drained(events, at, k, false)
  {
    assert events + [] == events;
  }

  lemma PageShape(log: Log, workspace: int, cursor: Option<int>, limit: int)
    ensures var page := PageOf(log, workspace, cursor, limit);
            && (page.next.None? <==> page.events == []) && (page.next.None? ==> !page.hasMore)
            && (page.events != [] ==> page.next == Some(page.events[|page.events| - 1].id))
  {}
}

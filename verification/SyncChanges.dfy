/** What the client's paging loop delivers when the table changes in any way between its pages. */
module SyncChanges {
  import opened Wrappers
  import opened Sync

  /** The place of an event in (created_at, id) order, which it has for ever. */
  type Order = int -> int

  predicate Above(log: Log, order: Order, x: int) { log == [] || (order(log[0].id) > x && Above(log[1..], order, x)) }

  predicate Sorted(log: Log, order: Order) { log == [] || (Above(log[1..], order, order(log[0].id)) && Sorted(log[1..], order)) }

  predicate AllSorted(logs: seq<Log>, order: Order) { logs == [] || (Sorted(logs[0], order) && AllSorted(logs[1..], order)) }

  predicate Beyond(cursor: Option<int>, order: Order, e: Event) { cursor.Some? ==> order(e.id) > order(cursor.value) }

  // ---------------------------------------------------------------- sorted tables

  lemma {:induction false} AboveHolds(log: Log, order: Order, x: int, e: Event)
    requires Above(log, order, x) && e in log
    ensures order(e.id) > x
    decreases |log|
  {
    if log[0] != e {
      assert log == [log[0]] + log[1..];
      AboveHolds(log[1..], order, x, e);
    }
  }

  lemma {:induction false} AboveHasNot(log: Log, order: Order, id: int)
    requires Above(log, order, order(id))
    ensures !Has(log, id)
    decreases |log|
  {
    if log != [] { AboveHasNot(log[1..], order, id); }
  }

  lemma {:induction false} SortedIsUnique(log: Log, order: Order)
    requires Sorted(log, order)
    ensures Unique(log)
    decreases |log|
  {
    if log != [] {
      AboveHasNot(log[1..], order, log[0].id);
      SortedIsUnique(log[1..], order);
    }
  }

  lemma {:induction false} HasAbove(log: Log, order: Order, x: int, id: int)
    requires Above(log, order, x) && Has(log, id)
    ensures order(id) > x
    decreases |log|
  {
    if log[0].id != id { HasAbove(log[1..], order, x, id); }
  }

  /** In a sorted table what lies after an event is what its place in the order says. */
  lemma {:induction false} AfterIsBeyond(log: Log, order: Order, id: int, e: Event)
    requires Sorted(log, order) && Has(log, id)
    ensures Sorted(After(log, id), order) && (e in After(log, id) <==> e in log && order(e.id) > order(id))
    decreases |log|
  {
    assert log == [log[0]] + log[1..];
    if log[0].id == id {
      if e in log[1..] { AboveHolds(log[1..], order, order(id), e); }
    } else {
      AfterIsBeyond(log[1..], order, id, e);
      HasAbove(log[1..], order, order(log[0].id), id);
    }
  }

  lemma {:induction false} OfKeepsAbove(log: Log, order: Order, workspace: int, x: int)
    requires Above(log, order, x)
    ensures Above(Of(log, workspace), order, x)
    decreases |log|
  {
    if log != [] {
      OfKeepsAbove(log[1..], order, workspace, x);
      if log[0].workspace == workspace { assert Of(log, workspace)[1..] == Of(log[1..], workspace); }
    }
  }

  lemma {:induction false} OfIsSorted(log: Log, order: Order, workspace: int, e: Event)
    requires Sorted(log, order)
    ensures Sorted(Of(log, workspace), order) && (e in Of(log, workspace) <==> e in log && e.workspace == workspace)
    decreases |log|
  {
    if log != [] {
      OfIsSorted(log[1..], order, workspace, e);
      OfKeepsAbove(log[1..], order, workspace, order(log[0].id));
      assert log == [log[0]] + log[1..];
      if log[0].workspace == workspace { assert Of(log, workspace)[1..] == Of(log[1..], workspace); }
    }
  }

  /** What a catch-up from a cursor has to deliver: nothing if the cursor's row is gone. */
  lemma EventsAreBeyond(log: Log, order: Order, workspace: int, cursor: Option<int>, e: Event)
    requires Sorted(log, order)
    ensures Sorted(Events(log, workspace, cursor), order)
    ensures e in Events(log, workspace, cursor) <==> e in log && e.workspace == workspace && Known(log, cursor) && Beyond(cursor, order, e)
  {
    if Known(log, cursor) {
      if cursor.Some? { AfterIsBeyond(log, order, cursor.value, e); }
      OfIsSorted(From(log, cursor), order, workspace, e);
    } else {
      AfterUnknown(log, cursor.value);
    }
  }

  lemma {:induction false} PrefixSorted(list: Log, order: Order, n: nat, x: int)
    requires n <= |list|
    ensures Sorted(list, order) ==> Sorted(list[..n], order)
    ensures Above(list, order, x) ==> Above(list[..n], order, x)
    decreases n
  {
    if n > 0 {
      assert list[..n][1..] == list[1..][..n - 1];
      PrefixSorted(list[1..], order, n - 1, x);
      PrefixSorted(list[1..], order, n - 1, order(list[0].id));
    }
  }

  /** The first n of a sorted list are those up to its n-th. */
  lemma {:induction false} PrefixIsUpTo(list: Log, order: Order, n: nat, e: Event)
    requires Sorted(list, order) && 0 < n <= |list|
    ensures e in list[..n] <==> e in list && order(e.id) <= order(list[n - 1].id)
    decreases n
  {
    assert list == [list[0]] + list[1..];
    if n == 1 {
      assert list[..1] == [list[0]];
      if e in list[1..] { AboveHolds(list[1..], order, order(list[0].id), e); }
    } else {
      assert list[..n] == [list[0]] + list[1..][..n - 1] && list[n - 1] == list[1..][n - 2];
      PrefixIsUpTo(list[1..], order, n - 1, e);
      assert list[1..][n - 2] in list[1..];
      AboveHolds(list[1..], order, order(list[0].id), list[1..][n - 2]);
    }
  }

  // ---------------------------------------------------------------- one page

  /** A page holds, in order, the workspace's events beyond its cursor up to its next cursor; one that is not followed by
      more holds all of them. */
  lemma PageHolds(log: Log, order: Order, workspace: int, cursor: Option<int>, limit: int, e: Event)
    requires Sorted(log, order)
    ensures var page := PageOf(log, workspace, cursor, limit);
            var there := e in log && e.workspace == workspace && Known(log, cursor) && Beyond(cursor, order, e);
            && Sorted(page.events, order)
            && (e in page.events <==> there && (page.hasMore ==> !Beyond(page.next, order, e)))
            && (page.next.None? ==> page.events == [] && !page.hasMore)
            && (e in page.events ==> !Beyond(page.next, order, e))
  {
    SortedIsUnique(log, order);
    EventsAreBeyond(log, order, workspace, cursor, e);
    PageSplits(log, workspace, cursor, limit);
    PageShape(log, workspace, cursor, limit);
    var page, all := PageOf(log, workspace, cursor, limit), Events(log, workspace, cursor);
    hide PageOf, Events, Unique, Sorted, Known;
    PrefixSorted(all, order, |page.events|, 0);
    if page.events != [] {
      PrefixIsUpTo(all, order, |page.events|, e);
      assert page.events[|page.events| - 1] == all[|page.events| - 1];
    }
  }

  /** A page's next cursor is a place beyond its cursor. */
  lemma PageAdvances(log: Log, order: Order, workspace: int, cursor: Option<int>, limit: int)
    requires Sorted(log, order) && PageOf(log, workspace, cursor, limit).next.Some?
    ensures cursor.Some? ==> order(PageOf(log, workspace, cursor, limit).next.value) > order(cursor.value)
    ensures Known(log, cursor)
  {
    var page := PageOf(log, workspace, cursor, limit);
    PageShape(log, workspace, cursor, limit);
    var last := page.events[|page.events| - 1];
    assert last in page.events;
    PageHolds(log, order, workspace, cursor, limit, last);
  }

  // ---------------------------------------------------------------- the whole loop

  /** The cursor that the client sends for page k. */
  function CursorAt(logs: seq<Log>, workspace: int, cursor: Option<int>, limit: int, k: nat): Option<int>
    requires k <= |logs|
    decreases k
  {
    if k == 0 then cursor else CursorAt(logs[1..], workspace, PageOf(logs[0], workspace, cursor, limit).next, limit, k - 1)
  }

  /** Page k is the one whose span holds e, and e was in the table when the page was read: e lies beyond the page's
      cursor, whose row was there, and, unless the page was the last of all, not beyond the next one. */
  ghost predicate OnPage(logs: seq<Log>, order: Order, workspace: int, cursor: Option<int>, limit: int, k: nat, e: Event) {
    var d := Drain(logs, workspace, cursor, limit);
    && k < d.pages && k < |logs|
    && var c := CursorAt(logs, workspace, cursor, limit, k);
       && e in logs[k] && e.workspace == workspace && Known(logs[k], c) && Beyond(c, order, e)
       && (k + 1 < d.pages || !d.finished ==> !Beyond(CursorAt(logs, workspace, cursor, limit, k + 1), order, e))
  }

  lemma OnFirstPage(logs: seq<Log>, order: Order, workspace: int, cursor: Option<int>, limit: int, e: Event)
    requires logs != [] && Sorted(logs[0], order)
    ensures OnPage(logs, order, workspace, cursor, limit, 0, e) <==> e in PageOf(logs[0], workspace, cursor, limit).events
  {
    PageHolds(logs[0], order, workspace, cursor, limit, e);
    hide PageOf, Sorted, Known, Beyond;
    var page, d := PageOf(logs[0], workspace, cursor, limit), Drain(logs, workspace, cursor, limit);
    if |logs| > 1 { DrainPages(logs[1..], workspace, page.next, limit); }
    assert |logs| == 1 ==> Drain(logs[1..], workspace, page.next, limit) == Drained([], page.next, 0, false);
    assert page.hasMore <==> 1 < d.pages || !d.finished;
    assert CursorAt(logs, workspace, cursor, limit, 1) == CursorAt(logs[1..], workspace, page.next, limit, 0) == page.next;
  }

  lemma OnLaterPage(logs: seq<Log>, order: Order, workspace: int, cursor: Option<int>, limit: int, k: nat, e: Event)
    requires logs != [] && PageOf(logs[0], workspace, cursor, limit).next.Some? && PageOf(logs[0], workspace, cursor, limit).hasMore
    ensures OnPage(logs, order, workspace, cursor, limit, k + 1, e)
            <==> OnPage(logs[1..], order, workspace, PageOf(logs[0], workspace, cursor, limit).next, limit, k, e)
  {
    hide PageOf, Known, Beyond;
  }

  /** However the table changes between pages, the client gets an event exactly when it is there at the page whose span
      holds it. */
  lemma {:induction false} DrainUnderChanges(logs: seq<Log>, order: Order, workspace: int, cursor: Option<int>, limit: int, e: Event)
    requires AllSorted(logs, order)
    ensures e in Drain(logs, workspace, cursor, limit).events <==> exists k: nat :: OnPage(logs, order, workspace, cursor, limit, k, e)
    decreases |logs|
  {
    hide PageOf, Sorted, OnPage;
    if logs != [] {
      var page := PageOf(logs[0], workspace, cursor, limit);
      OnFirstPage(logs, order, workspace, cursor, limit, e);
      if page.next.Some? && page.hasMore {
        DrainUnderChanges(logs[1..], order, workspace, page.next, limit, e);
        forall k: nat
          ensures OnPage(logs, order, workspace, cursor, limit, k + 1, e) <==> OnPage(logs[1..], order, workspace, page.next, limit, k, e)
        {
          OnLaterPage(logs, order, workspace, cursor, limit, k, e);
        }
        Shifted(logs, order, workspace, cursor, limit, page.next, e);
      } else {
        OnlyFirstPage(logs, order, workspace, cursor, limit, e);
      }
    } else {
      NoPage(order, workspace, cursor, limit, e);
    }
  }

  lemma NoPage(order: Order, workspace: int, cursor: Option<int>, limit: int, e: Event)
    ensures forall k: nat :: !OnPage([], order, workspace, cursor, limit, k, e)
  {}

  lemma OnlyFirstPage(logs: seq<Log>, order: Order, workspace: int, cursor: Option<int>, limit: int, e: Event)
    requires logs != [] && Drain(logs, workspace, cursor, limit).pages == 1
    ensures forall k: nat :: OnPage(logs, order, workspace, cursor, limit, k, e) ==> k == 0
  {}

  lemma Shifted(logs: seq<Log>, order: Order, workspace: int, cursor: Option<int>, limit: int, next: Option<int>, e: Event)
    requires logs != []
    requires forall k: nat :: OnPage(logs, order, workspace, cursor, limit, k + 1, e) <==> OnPage(logs[1..], order, workspace, next, limit, k, e)
    ensures (exists k: nat :: OnPage(logs, order, workspace, cursor, limit, k, e))
            <==> OnPage(logs, order, workspace, cursor, limit, 0, e) || exists k: nat :: OnPage(logs[1..], order, workspace, next, limit, k, e)
  {
    hide OnPage;
    if exists k: nat :: OnPage(logs, order, workspace, cursor, limit, k, e) {
      var k: nat :| OnPage(logs, order, workspace, cursor, limit, k, e);
      if k > 0 {
        var j: nat := k - 1;
        assert OnPage(logs[1..], order, workspace, next, limit, j, e);
      }
    }
    if exists k: nat :: OnPage(logs[1..], order, workspace, next, limit, k, e) {
      var k: nat :| OnPage(logs[1..], order, workspace, next, limit, k, e);
      assert OnPage(logs, order, workspace, cursor, limit, k + 1, e);
    }
  }

  /** And it gets the events in order, each once, all beyond its starting cursor and none beyond its last. */
  lemma {:induction false} DrainStaysInOrder(logs: seq<Log>, order: Order, workspace: int, cursor: Option<int>, limit: int, e: Event)
    requires AllSorted(logs, order)
    ensures var d := Drain(logs, workspace, cursor, limit);
            && Sorted(d.events, order)
            && (e in d.events ==> Beyond(cursor, order, e) && !Beyond(d.cursor, order, e))
            && (Beyond(d.cursor, order, e) ==> Beyond(cursor, order, e))
            && (cursor.Some? ==> Above(d.events, order, order(cursor.value)))
    decreases |logs|
  {
    hide PageOf, Sorted, Above;
    if logs == [] {
      NoEvents(order, if cursor.Some? then order(cursor.value) else 0);
    } else {
      var page := PageOf(logs[0], workspace, cursor, limit);
      PageHolds(logs[0], order, workspace, cursor, limit, e);
      NoEvents(order, if cursor.Some? then order(cursor.value) else 0);
      if cursor.Some? { PageAbove(logs[0], order, workspace, cursor, limit); }
      if page.next.Some? {
        PageAdvances(logs[0], order, workspace, cursor, limit);
        if page.hasMore {
          DrainStaysInOrder(logs[1..], order, workspace, page.next, limit, e);
          var rest := Drain(logs[1..], workspace, page.next, limit);
          PageEnds(logs[0], order, workspace, cursor, limit);
          JoinSorted(page.events, rest.events, order, order(page.next.value));
          if cursor.Some? { JoinAbove(page.events, rest.events, order, order(cursor.value), order(page.next.value)); }
        }
      }
    }
  }

  lemma NoEvents(order: Order, x: int)
    ensures Sorted([], order) && Above([], order, x)
  {}

  /** Every event of the list is at most at x. */
  predicate UpTo(list: Log, order: Order, x: int) { list == [] || (order(list[0].id) <= x && UpTo(list[1..], order, x)) }

  lemma {:induction false} UpToByMembers(list: Log, order: Order, x: int)
    requires forall e | e in list :: order(e.id) <= x
    ensures UpTo(list, order, x)
    decreases |list|
  {
    if list != [] {
      assert list[0] in list && forall e | e in list[1..] :: e in list;
      UpToByMembers(list[1..], order, x);
    }
  }

  lemma {:induction false} AboveByMembers(list: Log, order: Order, x: int)
    requires forall e | e in list :: order(e.id) > x
    ensures Above(list, order, x)
    decreases |list|
  {
    if list != [] {
      assert list[0] in list && forall e | e in list[1..] :: e in list;
      AboveByMembers(list[1..], order, x);
    }
  }

  lemma PageEnds(log: Log, order: Order, workspace: int, cursor: Option<int>, limit: int)
    requires Sorted(log, order) && PageOf(log, workspace, cursor, limit).next.Some?
    ensures UpTo(PageOf(log, workspace, cursor, limit).events, order, order(PageOf(log, workspace, cursor, limit).next.value))
  {
    hide PageOf, Sorted, UpTo;
    var page := PageOf(log, workspace, cursor, limit);
    forall e | e in page.events ensures order(e.id) <= order(page.next.value) { PageHolds(log, order, workspace, cursor, limit, e); }
    UpToByMembers(page.events, order, order(page.next.value));
  }

  lemma PageAbove(log: Log, order: Order, workspace: int, cursor: Option<int>, limit: int)
    requires Sorted(log, order) && cursor.Some?
    ensures Above(PageOf(log, workspace, cursor, limit).events, order, order(cursor.value))
  {
    hide PageOf, Sorted, Above;
    var page := PageOf(log, workspace, cursor, limit);
    forall e | e in page.events ensures order(e.id) > order(cursor.value) { PageHolds(log, order, workspace, cursor, limit, e); }
    AboveByMembers(page.events, order, order(cursor.value));
  }

  lemma {:induction false} JoinAbove(a: Log, b: Log, order: Order, x: int, y: int)
    requires Above(a, order, x) && Above(b, order, y) && x <= y
    ensures Above(a + b, order, x)
    decreases |a| + |b|
  {
    if a != [] {
      assert (a + b)[1..] == a[1..] + b;
      JoinAbove(a[1..], b, order, x, y);
    } else {
      assert a + b == b;
      if b != [] {
        JoinAbove([], b[1..], order, x, y);
        assert [] + b[1..] == b[1..];
      }
    }
  }

  lemma {:induction false} JoinSorted(a: Log, b: Log, order: Order, y: int)
    requires Sorted(a, order) && Sorted(b, order) && UpTo(a, order, y) && Above(b, order, y)
    ensures Sorted(a + b, order)
    decreases |a|
  {
    if a == [] {
      assert a + b == b;
    } else {
      assert (a + b)[1..] == a[1..] + b;
      JoinSorted(a[1..], b, order, y);
      JoinAbove(a[1..], b, order, order(a[0].id), y);
    }
  }

  // ---------------------------------------------------------------- events that stay

  /** The event is in the table at every page. */
  predicate Stays(logs: seq<Log>, e: Event) { logs == [] || (e in logs[0] && Stays(logs[1..], e)) }

  /** An event that is in the table all the time is delivered, whatever else changes, exactly when the loop ends by itself
      with a cursor that was still there, or has passed the event before. */
  lemma {:induction false} SteadyEventsExactly(logs: seq<Log>, order: Order, workspace: int, cursor: Option<int>, limit: int, e: Event)
    requires logs != [] && AllSorted(logs, order) && Stays(logs, e) && e.workspace == workspace && Beyond(cursor, order, e)
    ensures var d := Drain(logs, workspace, cursor, limit);
            && 1 <= d.pages <= |logs|
            && var last := d.pages - 1;
               e in d.events <==> (d.finished && Known(logs[last], CursorAt(logs, workspace, cursor, limit, last)))
                                  || !Beyond(d.cursor, order, e)
    decreases |logs|
  {
    hide PageOf, Sorted, Known;
    var page := PageOf(logs[0], workspace, cursor, limit);
    PageHolds(logs[0], order, workspace, cursor, limit, e);
    if page.next.Some? {
      PageAdvances(logs[0], order, workspace, cursor, limit);
      if page.hasMore {
        DrainStaysInOrder(logs[1..], order, workspace, page.next, limit, e);
        if |logs| > 1 && Beyond(page.next, order, e) { SteadyEventsExactly(logs[1..], order, workspace, page.next, limit, e); }
        if |logs| > 1 { DrainPages(logs[1..], workspace, page.next, limit); }
      }
    }
  }

  lemma DrainPages(logs: seq<Log>, workspace: int, cursor: Option<int>, limit: int)
    requires logs != []
    ensures 1 <= Drain(logs, workspace, cursor, limit).pages <= |logs|
    decreases |logs|
  {
    if |logs| > 1 { DrainPages(logs[1..], workspace, PageOf(logs[0], workspace, cursor, limit).next, limit); }
  }
}

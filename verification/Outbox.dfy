/** Outbox processing: which calls Process makes, in which order, whatever each call answers. */
module Outbox {
  import opened Wrappers
  import opened GoText

  const SECOND: int := 1_000_000_000
  const MAX_RETRIES: int := 5

  datatype Event = Event(id: int, retryCount: int)

  /** One call and whether it succeeded. Stage k of an attempt is handler k; the stage after the last handler is
      the publisher, if there is one. */
  datatype Action =
    | Call(stage: nat, event: Event, ok: bool)
    | MarkPublished(event: Event, ok: bool)
    | MarkFailed(event: Event, retryAfter: int, maxRetries: int, ok: bool)

  type Log = seq<Action>

  /** The n-th call ever made succeeds if `answers(n)`: any behaviour of handlers, publisher and repository. */
  type Answers = nat -> bool

  // ---------------------------------------------------------------- the retry delay

  function RetryDelay(retryCount: int): int {
    var delay := Wrap64((retryCount + 1) * (30 * SECOND));
    if delay > 300 * SECOND then 300 * SECOND else delay
  }

  function Min(a: int, b: int): int { if a < b then a else b }

  /** Half a minute more for each retry, at most five minutes, exactly up to the count whose 64-bit product still
      fits; from the next one on, and for as many again, the delay is negative. */
  lemma RetryDelayExactly(retryCount: nat)
    requires retryCount <= 614_891_468
    ensures RetryDelay(retryCount) == Min((retryCount + 1) * (30 * SECOND), 300 * SECOND) <==> retryCount <= 307_445_733
    ensures retryCount > 307_445_733 <==> RetryDelay(retryCount) < 0
  {}

  // ---------------------------------------------------------------- the life of a row

  datatype RowStatus = Pending | Processing | Failed | Published | Dead

  /** The columns of an outbox_events row that decide about retries. */
  datatype Row = Row(status: RowStatus, retryCount: int)

  const INSERTED := Row(Pending, 0)

  /** What workers do to one row, each whenever it comes to it: a slow worker's row can be claimed again. */
  datatype RowStep = ClaimRow | PublishRow | FailRow

  predicate Claimable(r: Row) { r.status.Pending? || r.status.Failed? || r.status.Processing? }

  function ApplyRow(r: Row, step: RowStep): Row {
    match step
    case ClaimRow => if Claimable(r) then r.(status := Processing) else r
    case PublishRow => r.(status := Published)
    case FailRow => Row(if r.retryCount + 1 >= MAX_RETRIES then Dead else Failed, r.retryCount + 1)
  }

  function RunRow(r: Row, steps: seq<RowStep>): Row
    decreases |steps|
  {
    if steps == [] then r else RunRow(ApplyRow(r, steps[0]), steps[1..])
  }

  /** Whatever the workers did, a row that can be claimed has failed fewer than the maximum number of times. */
  lemma {:induction false} ClaimedBelowMaximum(r: Row, steps: seq<RowStep>)
    requires r.retryCount >= 0 && (Claimable(r) ==> r.retryCount < MAX_RETRIES)
    ensures var after := RunRow(r, steps);
            after.retryCount >= 0 && (Claimable(after) ==> after.retryCount < MAX_RETRIES)
    decreases |steps|
  {
    if steps != [] { ClaimedBelowMaximum(ApplyRow(r, steps[0]), steps[1..]); }
  }

  function Failures(steps: seq<RowStep>): nat
    decreases |steps|
  {
    if steps == [] then 0 else Failures(steps[..|steps| - 1]) + if steps[|steps| - 1] == FailRow then 1 else 0
  }

  lemma {:induction false} RunRowSnoc(r: Row, steps: seq<RowStep>)
    requires steps != []
    ensures RunRow(r, steps) == ApplyRow(RunRow(r, steps[..|steps| - 1]), steps[|steps| - 1])
    decreases |steps|
  {
    hide ApplyRow;
    if |steps| == 1 {
      assert steps[1..] == [] && steps[..0] == [];
    } else {
      RunRowSnoc(ApplyRow(r, steps[0]), steps[1..]);
      assert steps[..|steps| - 1][1..] == steps[1..][..|steps| - 2];
    }
  }

  /** What a row tells of its life: it counts its failures; a published row was published last, a failed or dead one
      failed last, dead from the fifth failure on; and a claim is in vain exactly on a published or dead row. */
  lemma {:induction false} RowTellsItsLife(steps: seq<RowStep>)
    ensures var r := RunRow(INSERTED, steps);
            && r.retryCount == Failures(steps)
            && (Claimable(r) <==> r.status in {Pending, Processing, Failed})
            && (steps == [] ==> r.status == Pending)
            && (steps != [] ==>
                  var before, last := RunRow(INSERTED, steps[..|steps| - 1]), steps[|steps| - 1];
                  && (last == PublishRow ==> r.status == Published)
                  && (last == FailRow ==> r.status == if Failures(steps) >= 5 then Dead else Failed)
                  && (last == ClaimRow ==> r.status == if before.status in {Published, Dead} then before.status else Processing))
    decreases |steps|
  {
    if steps != [] {
      RowTellsItsLife(steps[..|steps| - 1]);
      RunRowSnoc(INSERTED, steps);
    }
  }

  /** So the delay of a claimed event is half a minute more than the one before it, and two and a half minutes at most. */
  lemma ClaimedDelay(steps: seq<RowStep>)
    requires Claimable(RunRow(INSERTED, steps))
    ensures var n := RunRow(INSERTED, steps).retryCount;
            && RetryDelay(n) == (n + 1) * 30_000_000_000 <= 150_000_000_000
            && (n > 0 ==> RetryDelay(n) == RetryDelay(n - 1) + 30_000_000_000)
  {
    ClaimedBelowMaximum(INSERTED, steps);
  }

  /** The row, and the workers that have claimed it and have not marked it yet: a claim older than five minutes does not
      keep others from claiming, and MarkPublished and MarkFailed ask for no status. */
  datatype Held = Held(row: Row, holders: set<nat>)

  datatype WorkerStep = Takes(worker: nat) | Publishes(worker: nat) | Fails(worker: nat) | Dies(worker: nat)

  function ApplyHeld(h: Held, step: WorkerStep): Held {
    match step
    case Takes(w) => if Claimable(h.row) then Held(ApplyRow(h.row, ClaimRow), h.holders + {w}) else h
    case Publishes(w) => if w in h.holders then Held(ApplyRow(h.row, PublishRow), h.holders - {w}) else h
    case Fails(w) => if w in h.holders then Held(ApplyRow(h.row, FailRow), h.holders - {w}) else h
    case Dies(w) => h.(holders := h.holders - {w})
  }

  function RunHeld(h: Held, steps: seq<WorkerStep>): Held
    decreases |steps|
  {
    if steps == [] then h else RunHeld(ApplyHeld(h, steps[0]), steps[1..])
  }

  /** A worker that claims a row holds it until it marks it or dies; marks of a worker that holds it always take effect. */
  lemma WorkerSteps(h: Held, w: nat)
    ensures var taken := ApplyHeld(h, Takes(w));
            if h.row.status in {Pending, Processing, Failed} then taken == Held(h.row.(status := Processing), h.holders + {w}) else taken == h
    ensures w in h.holders ==>
              && ApplyHeld(h, Publishes(w)) == Held(h.row.(status := Published), h.holders - {w})
              && ApplyHeld(h, Fails(w))
                 == Held(Row(if h.row.retryCount + 1 >= 5 then Dead else Failed, h.row.retryCount + 1), h.holders - {w})
    ensures w !in h.holders ==> ApplyHeld(h, Publishes(w)) == h && ApplyHeld(h, Fails(w)) == h
    ensures ApplyHeld(h, Dies(w)) == Held(h.row, h.holders - {w})
  {}

  /** Nobody is left who could make the row claimable again. */
  predicate Closed(h: Held) { !Claimable(h.row) && (h.holders == {} || h.row.retryCount + 1 >= MAX_RETRIES) }

  /** After these steps the event can be claimed. */
  predicate ClaimableAfter(h: Held, steps: seq<WorkerStep>) { Claimable(RunHeld(h, steps).row) }

  lemma {:induction false} ClosedForGood(h: Held, steps: seq<WorkerStep>)
    requires Closed(h)
    ensures !ClaimableAfter(h, steps)
    decreases |steps|
  {
    if steps != [] { ClosedForGood(ApplyHeld(h, steps[0]), steps[1..]); }
  }

  /** A published event is never claimed again, whatever the workers do, exactly when no worker still holds a claim on it
      or one more failure would make it dead. */
  lemma PublishedForGoodExactly(h: Held)
    requires h.row.status.Published?
    ensures (forall steps :: !ClaimableAfter(h, steps)) <==> h.holders == {} || h.row.retryCount + 1 >= MAX_RETRIES
  {
    if Closed(h) {
      forall steps ensures !ClaimableAfter(h, steps) { ClosedForGood(h, steps); }
    } else {
      var w :| w in h.holders;
      var steps := [Fails(w)];
      assert steps[1..] == [] && RunHeld(h, steps) == ApplyHeld(h, Fails(w));
      assert ClaimableAfter(h, steps);
    }
  }

  // ---------------------------------------------------------------- the calls of one Process

  /** processEvent from `stage` on; `stages` counts the handlers and the publisher. */
  function Attempt(answers: Answers, stages: nat, log: Log, e: Event, stage: nat): (Log, bool)
    requires stage <= stages
    decreases stages - stage
  {
    if stage == stages then (log, true)
    else
      var ok := answers(|log|);
      var next := log + [Call(stage, e, ok)];
      if ok then Attempt(answers, stages, next, e, stage + 1) else (next, false)
  }

  /** An attempt calls the stages one after the other up to the first that fails, and ends well exactly when none does. */
  lemma {:induction false} AttemptExactly(answers: Answers, stages: nat, log: Log, e: Event, stage: nat)
    requires stage <= stages
    ensures var (after, ok) := Attempt(answers, stages, log, e, stage);
            && log <= after && |after| <= |log| + stages - stage
            && (if ok then |after| == |log| + stages - stage else |after| > |log|)
            && forall p | |log| <= p < |after| :: after[p] == Call(stage + p - |log|, e, ok || p < |after| - 1) && after[p].ok == answers(p)
    decreases stages - stage
  {
    if stage < stages && answers(|log|) {
      var next := log + [Call(stage, e, true)];
      AttemptExactly(answers, stages, next, e, stage + 1);
      assert Attempt(answers, stages, log, e, stage).0[|log|] == next[|log|];
    }
  }

  /** The loop of Process; the second result is false if MarkPublished failed. */
  function Batch(answers: Answers, stages: nat, log: Log, events: seq<Event>): (Log, bool)
    decreases |events|
  {
    if events == [] then (log, true)
    else
      var e := events[0];
      var attempt := Attempt(answers, stages, log, e, 0);
      var after, ok := attempt.0, answers(|attempt.0|);
      if !attempt.1 then
        Batch(answers, stages, after + [MarkFailed(e, RetryDelay(e.retryCount), MAX_RETRIES, ok)], events[1..])
      else if ok then Batch(answers, stages, after + [MarkPublished(e, true)], events[1..])
      else (after + [MarkPublished(e, false)], false)
  }

  /** Any number of Process calls, each with the batch it claimed. */
  function Run(answers: Answers, stages: nat, log: Log, batches: seq<seq<Event>>): Log
    decreases |batches|
  {
    if batches == [] then log else Run(answers, stages, Batch(answers, stages, log, batches[0]).0, batches[1..])
  }

  /** Each call of a run is told to succeed exactly if its answer says so. */
  lemma {:induction false} BatchHeedsAnswers(answers: Answers, stages: nat, log: Log, events: seq<Event>)
    requires forall p | 0 <= p < |log| :: log[p].ok == answers(p)
    ensures forall p | 0 <= p < |Batch(answers, stages, log, events).0| :: Batch(answers, stages, log, events).0[p].ok == answers(p)
    decreases |events|
  {
    if events != [] {
      var e := events[0];
      AttemptExactly(answers, stages, log, e, 0);
      var attempt := Attempt(answers, stages, log, e, 0);
      var after, ok := attempt.0, answers(|attempt.0|);
      assert forall p | 0 <= p < |after| :: after[p].ok == answers(p);
      hide Attempt;
      if !attempt.1 {
        BatchHeedsAnswers(answers, stages, after + [MarkFailed(e, RetryDelay(e.retryCount), MAX_RETRIES, ok)], events[1..]);
      } else if ok {
        BatchHeedsAnswers(answers, stages, after + [MarkPublished(e, true)], events[1..]);
      }
    }
  }

  // ---------------------------------------------------------------- what comes just before what

  /** A stage is called right after the one before it succeeded on the same event, and an event is marked published
      right after its last stage did. */
  ghost predicate InOrder(stages: nat, log: Log, p: nat) {
    p < |log| ==>
      match log[p]
      case Call(stage, e, _) => stage < stages && (stage > 0 ==> p > 0 && log[p - 1] == Call(stage - 1, e, true))
      case MarkPublished(e, _) => stages > 0 ==> p > 0 && log[p - 1] == Call(stages - 1, e, true)
      case MarkFailed(e, delay, max, _) =>
        delay == RetryDelay(e.retryCount) && max == MAX_RETRIES && p > 0 && log[p - 1].Call? && log[p - 1].event == e && !log[p - 1].ok
  }

  ghost predicate Inv(stages: nat, log: Log) { forall p :: InOrder(stages, log, p) }

  lemma Push(stages: nat, log: Log, a: Action)
    requires Inv(stages, log) && InOrder(stages, log + [a], |log|)
    ensures Inv(stages, log + [a])
  {
    forall p ensures InOrder(stages, log + [a], p) {
      assert InOrder(stages, log, p);
    }
  }

  predicate EndsWith(log: Log, stage: nat, e: Event) {
    stage > 0 ==> |log| > 0 && log[|log| - 1] == Call(stage - 1, e, true)
  }

  lemma {:induction false} AttemptKeepsInv(answers: Answers, stages: nat, log: Log, e: Event, stage: nat)
    requires stage <= stages && Inv(stages, log) && EndsWith(log, stage, e)
    ensures var r := Attempt(answers, stages, log, e, stage);
            && Inv(stages, r.0)
            && (r.1 ==> EndsWith(r.0, stages, e))
            && (!r.1 ==> |r.0| > 0 && r.0[|r.0| - 1].Call? && r.0[|r.0| - 1].event == e && !r.0[|r.0| - 1].ok)
    decreases stages - stage
  {
    hide Inv;
    if stage < stages {
      var a := Call(stage, e, answers(|log|));
      Push(stages, log, a);
      if a.ok { AttemptKeepsInv(answers, stages, log + [a], e, stage + 1); }
    }
  }

  lemma {:induction false} BatchKeepsInv(answers: Answers, stages: nat, log: Log, events: seq<Event>)
    requires Inv(stages, log)
    ensures Inv(stages, Batch(answers, stages, log, events).0)
    decreases |events|
  {
    hide Inv, Attempt;
    if events != [] {
      var e := events[0];
      AttemptKeepsInv(answers, stages, log, e, 0);
      var attempt := Attempt(answers, stages, log, e, 0);
      var after, ok := attempt.0, answers(|attempt.0|);
      if !attempt.1 {
        var a := MarkFailed(e, RetryDelay(e.retryCount), MAX_RETRIES, ok);
        Push(stages, after, a);
        BatchKeepsInv(answers, stages, after + [a], events[1..]);
      } else {
        Push(stages, after, MarkPublished(e, ok));
        if ok { BatchKeepsInv(answers, stages, after + [MarkPublished(e, ok)], events[1..]); }
      }
    }
  }

  lemma {:induction false} RunKeepsInv(answers: Answers, stages: nat, log: Log, batches: seq<seq<Event>>)
    requires Inv(stages, log)
    ensures Inv(stages, Run(answers, stages, log, batches))
    decreases |batches|
  {
    hide Inv, Batch;
    if batches != [] {
      BatchKeepsInv(answers, stages, log, batches[0]);
      RunKeepsInv(answers, stages, Batch(answers, stages, log, batches[0]).0, batches[1..]);
    }
  }

  // ---------------------------------------------------------------- over every run

  /** Every stage up to `stage` has succeeded on `e`, one right after the other, just before position p. */
  ghost predicate AttemptBefore(log: Log, p: nat, e: Event, stage: nat)
    decreases stage
  {
    stage == 0 || (0 < p <= |log| && log[p - 1] == Call(stage - 1, e, true) && AttemptBefore(log, p - 1, e, stage - 1))
  }

  lemma {:induction false} StagesBefore(stages: nat, log: Log, p: nat, e: Event, stage: nat)
    requires Inv(stages, log) && p <= |log|
    requires stage > 0 ==> p > 0 && log[p - 1] == Call(stage - 1, e, true)
    ensures AttemptBefore(log, p, e, stage)
    decreases stage
  {
    if stage > 0 {
      assert InOrder(stages, log, p - 1);
      StagesBefore(stages, log, p - 1, e, stage - 1);
    }
  }

  /** An event is marked published only right after every handler and the publisher succeeded on it in one attempt. */
  lemma PublishedOnlyAfterAll(answers: Answers, stages: nat, batches: seq<seq<Event>>, p: nat)
    requires p < |Run(answers, stages, [], batches)| && Run(answers, stages, [], batches)[p].MarkPublished?
    ensures var log := Run(answers, stages, [], batches); AttemptBefore(log, p, log[p].event, stages)
  {
    hide Run;
    RunKeepsInv(answers, stages, [], batches);
    var log := Run(answers, stages, [], batches);
    assert InOrder(stages, log, p);
    StagesBefore(stages, log, p, log[p].event, stages);
  }

  /** How often `stage` was called on `e`, or succeeded. */
  function Calls(log: Log, e: Event, stage: nat): nat {
    if log == [] then 0
    else
      var a := log[|log| - 1];
      Calls(log[..|log| - 1], e, stage) + (if a.Call? && a.stage == stage && a.event == e then 1 else 0)
  }

  function Successes(log: Log, e: Event, stage: nat): nat {
    if log == [] then 0
    else Successes(log[..|log| - 1], e, stage) + (if log[|log| - 1] == Call(stage, e, true) then 1 else 0)
  }

  lemma {:induction false} CallsFollowSuccesses(stages: nat, log: Log, e: Event, stage: nat)
    requires Inv(stages, log)
    ensures Calls(log, e, stage + 1) <= Successes(log, e, stage) <= Calls(log, e, stage)
    decreases |log|
  {
    if log != [] {
      var n := |log| - 1;
      PrefixKeepsInv(stages, log, n);
      CallsFollowSuccesses(stages, log[..n], e, stage);
      if log[n].Call? && log[n].stage == stage + 1 && log[n].event == e {
        assert InOrder(stages, log, n);
        PrefixKeepsInv(stages, log, n - 1);
        CallsFollowSuccesses(stages, log[..n - 1], e, stage);
        assert log[..n][..n - 1] == log[..n - 1];
      }
    }
  }

  lemma PrefixKeepsInv(stages: nat, log: Log, n: nat)
    requires Inv(stages, log) && n <= |log|
    ensures Inv(stages, log[..n])
  {
    forall p ensures InOrder(stages, log[..n], p) { assert InOrder(stages, log, p); }
  }

  /** At every moment of every run, a stage has been called on an event no more often than the stage before it has
      succeeded; so handler i has run at least as often as handler i + 1, and the last one as often as the publisher. */
  lemma StagesRunInOrder(answers: Answers, stages: nat, batches: seq<seq<Event>>, moment: nat, e: Event, stage: nat)
    requires moment <= |Run(answers, stages, [], batches)|
    ensures var log := Run(answers, stages, [], batches)[..moment];
            Calls(log, e, stage + 1) <= Successes(log, e, stage) <= Calls(log, e, stage)
  {
    hide Run;
    RunKeepsInv(answers, stages, [], batches);
    PrefixKeepsInv(stages, Run(answers, stages, [], batches), moment);
    CallsFollowSuccesses(stages, Run(answers, stages, [], batches)[..moment], e, stage);
  }

  // ---------------------------------------------------------------- one batch

  /** The events marked, in order. */
  function Marked(log: Log): seq<Event> {
    if log == [] then []
    else
      var a := log[|log| - 1];
      if a.Call? then Marked(log[..|log| - 1]) else Marked(log[..|log| - 1]) + [a.event]
  }

  lemma MarkedPush(log: Log, a: Action)
    ensures Marked(log + [a]) == if a.Call? then Marked(log) else Marked(log) + [a.event]
  {
    assert (log + [a])[..|log|] == log;
  }

  lemma {:induction false} AttemptMarksNothing(answers: Answers, stages: nat, log: Log, e: Event, stage: nat)
    requires stage <= stages
    ensures Marked(Attempt(answers, stages, log, e, stage).0) == Marked(log) && log <= Attempt(answers, stages, log, e, stage).0
    ensures forall p | |log| <= p < |Attempt(answers, stages, log, e, stage).0| :: Attempt(answers, stages, log, e, stage).0[p].event == e
    decreases stages - stage
  {
    hide Marked;
    if stage < stages {
      var a := Call(stage, e, answers(|log|));
      MarkedPush(log, a);
      if a.ok { AttemptMarksNothing(answers, stages, log + [a], e, stage + 1); }
    }
  }

  /** A batch marks each of its events once, in order; a failing MarkPublished is its last call, and then the events
      after it are neither handled nor marked. */
  lemma {:induction false} BatchMarksInOrder(answers: Answers, stages: nat, log: Log, events: seq<Event>)
    ensures var r := Batch(answers, stages, log, events);
            var k := |Marked(r.0)| - |Marked(log)|;
            && 0 <= k <= |events| && log <= r.0 && Marked(r.0) == Marked(log) + events[..k]
            && (forall p | |log| <= p < |r.0| :: r.0[p].event in events[..k])
            && (r.1 ==> k == |events|)
            && (!r.1 ==> k > 0 && |r.0| > |log| && r.0[|r.0| - 1] == MarkPublished(events[k - 1], false))
            && (forall p | |log| <= p < |r.0| && r.0[p].MarkPublished? && !r.0[p].ok :: p == |r.0| - 1 && !r.1)
    decreases |events|
  {
    hide Marked, Attempt;
    if events != [] {
      var e := events[0];
      AttemptMarksNothing(answers, stages, log, e, 0);
      AttemptCallsOnly(answers, stages, log, e, 0);
      var attempt := Attempt(answers, stages, log, e, 0);
      var after, ok := attempt.0, answers(|attempt.0|);
      var a := if attempt.1 then MarkPublished(e, ok) else MarkFailed(e, RetryDelay(e.retryCount), MAX_RETRIES, ok);
      MarkedPush(after, a);
      if attempt.1 && !ok {
        assert events[..1] == [e];
      } else {
        BatchMarksInOrder(answers, stages, after + [a], events[1..]);
        var k := |Marked(Batch(answers, stages, log, events).0)| - |Marked(log)|;
        assert events[..k] == [e] + events[1..][..k - 1];
      }
    }
  }

  lemma {:induction false} AttemptCallsOnly(answers: Answers, stages: nat, log: Log, e: Event, stage: nat)
    requires stage <= stages
    ensures log <= Attempt(answers, stages, log, e, stage).0
    ensures forall p | |log| <= p < |Attempt(answers, stages, log, e, stage).0| :: Attempt(answers, stages, log, e, stage).0[p].Call?
    decreases stages - stage
  {
    if stage < stages && answers(|log|) { AttemptCallsOnly(answers, stages, log + [Call(stage, e, true)], e, stage + 1); }
  }

  /** The event was claimed with a count a row can have. */
  ghost predicate Claimed(e: Event) { exists steps :: Claimable(RunRow(INSERTED, steps)) && e.retryCount == RunRow(INSERTED, steps).retryCount }

  lemma {:induction false} RunActsOnBatches(answers: Answers, stages: nat, log: Log, batches: seq<seq<Event>>, p: nat)
    requires |log| <= p < |Run(answers, stages, log, batches)|
    ensures exists b :: b in batches && Run(answers, stages, log, batches)[p].event in b
    decreases |batches|
  {
    hide Batch;
    if batches != [] {
      BatchMarksInOrder(answers, stages, log, batches[0]);
      var next := Batch(answers, stages, log, batches[0]).0;
      RunExtends(answers, stages, next, batches[1..]);
      if p < |next| {
        assert batches[0] in batches && Run(answers, stages, log, batches)[p] == next[p];
      } else {
        RunActsOnBatches(answers, stages, next, batches[1..], p);
        assert batches == [batches[0]] + batches[1..];
      }
    }
  }

  lemma {:induction false} RunExtends(answers: Answers, stages: nat, log: Log, batches: seq<seq<Event>>)
    ensures log <= Run(answers, stages, log, batches)
    decreases |batches|
  {
    hide Batch;
    if batches != [] {
      BatchMarksInOrder(answers, stages, log, batches[0]);
      RunExtends(answers, stages, Batch(answers, stages, log, batches[0]).0, batches[1..]);
    }
  }

  /** Over all runs on claimed events, a failure is recorded right after a failing call on that event, with half a
      minute for each try so far, two and a half minutes at most. */
  lemma FailuresAreDelayed(answers: Answers, stages: nat, batches: seq<seq<Event>>, p: nat)
    requires forall b, e | b in batches && e in b :: Claimed(e)
    requires p < |Run(answers, stages, [], batches)| && Run(answers, stages, [], batches)[p].MarkFailed?
    ensures var log := Run(answers, stages, [], batches);
            && log[p].retryAfter == (log[p].event.retryCount + 1) * 30_000_000_000 && log[p].maxRetries == 5
            && 30_000_000_000 <= log[p].retryAfter <= 150_000_000_000
            && p > 0 && log[p - 1].Call? && log[p - 1].event == log[p].event && !log[p - 1].ok
  {
    hide Run, RetryDelay, RunRow;
    RunKeepsInv(answers, stages, [], batches);
    RunActsOnBatches(answers, stages, [], batches, p);
    var log := Run(answers, stages, [], batches);
    assert InOrder(stages, log, p);
    var steps :| Claimable(RunRow(INSERTED, steps)) && log[p].event.retryCount == RunRow(INSERTED, steps).retryCount;
    ClaimedDelay(steps);
    ClaimedBelowMaximum(INSERTED, steps);
  }

  // ---------------------------------------------------------------- the service object

  class Service {
    const handlers: nat
    const hasPublisher: bool
    const answers: Answers
    var log: Log

    constructor (handlers: nat, hasPublisher: bool, answers: Answers)
      ensures this.handlers == handlers && this.hasPublisher == hasPublisher && this.answers == answers && log == []
    {
      this.handlers, this.hasPublisher, this.answers := handlers, hasPublisher, answers;
      log := [];
    }

    function Stages(): nat { handlers + if hasPublisher then 1 else 0 }

    method ProcessEvent(e: Event) returns (ok: bool)
      modifies this`log
      ensures (log, ok) == Attempt(answers, Stages(), old(log), e, 0)
      ensures var n, end := |old(log)|, |old(log)| + handlers + (if hasPublisher then 1 else 0);
              && old(log) <= log && |log| <= end && (if ok then |log| == end else |log| > n)
              && forall p | n <= p < |log| :: log[p] == Call(p - n, e, ok || p < |log| - 1) && log[p].ok == answers(p)
    {
      AttemptExactly(answers, Stages(), log, e, 0);
      for k := 0 to handlers
        invariant Attempt(answers, Stages(), log, e, k) == Attempt(answers, Stages(), old(log), e, 0)
      {
        ok := answers(|log|);
        log := log + [Call(k, e, ok)];
        if !ok {
          return;
        }
      }
      if !hasPublisher {
        return true;
      }
      ok := answers(|log|);
      log := log + [Call(handlers, e, ok)];
    }

    /** `claimed` is None if Claim fails. */
    method Process(claimed: Option<seq<Event>>) returns (count: int, ok: bool)
      modifies this`log
      ensures claimed.None? ==> log == old(log) && count == 0 && !ok
      ensures claimed.Some? ==>
                (log, ok) == Batch(answers, Stages(), old(log), claimed.value) && count == if ok then |claimed.value| else 0
    {
      if claimed.None? {
        return 0, false;
      }
      var events := claimed.value;
      assert events[0..] == events;
      for k := 0 to |events|
        invariant Batch(answers, Stages(), log, events[k..]) == Batch(answers, Stages(), old(log), events)
      {
        assert events[k..][1..] == events[k + 1..];
        var e := events[k];
        var done := ProcessEvent(e);
        if !done {
          var noted := answers(|log|);
          log := log + [MarkFailed(e, RetryDelay(e.retryCount), MAX_RETRIES, noted)];
        } else {
          var marked := answers(|log|);
          log := log + [MarkPublished(e, marked)];
          if !marked {
            return 0, false;
          }
        }
      }
      return |events|, true;
    }
  }
}

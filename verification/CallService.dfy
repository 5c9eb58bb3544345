/** The call service's methods run to completion; the state machine of `Calls` interleaves their steps. */
module CallService {
  import opened Wrappers
  import opened GoText
  import opened Calls

  /** The announcements of `calls` that get through. */
  function Sent(calls: seq<Call>, delivers: Effect -> bool): seq<Effect> {
    if calls == [] then []
    else
      (if delivers(CallMessage(calls[0])) then [CallMessage(calls[0])] else []) +
      (if delivers(TerminalNotice(calls[0])) then [TerminalNotice(calls[0])] else []) +
      Sent(calls[1..], delivers)
  }

  /** What gets through is the announcements of those calls that can be delivered, and nothing else. */
  lemma {:induction false} SentExactly(calls: seq<Call>, delivers: Effect -> bool, e: Effect)
    ensures e in Sent(calls, delivers) <==> e.call in calls && delivers(e)
    decreases |calls|
  {
    if calls != [] {
      SentExactly(calls[1..], delivers, e);
      assert e.call in calls <==> e.call == calls[0] || e.call in calls[1..];
      assert e == CallMessage(e.call) || e == TerminalNotice(e.call);
    }
  }

  /** The calls are announced in their order, each with its message before its notice. */
  lemma {:induction false} SentInOrder(calls: seq<Call>, delivers: Effect -> bool, k: nat)
    requires k < |calls| && forall e: Effect :: delivers(e)
    ensures var sent := Sent(calls, delivers);
            |sent| == 2 * |calls| && sent[2 * k] == CallMessage(calls[k]) && sent[2 * k + 1] == TerminalNotice(calls[k])
    decreases |calls|
  {
    if |calls| > 1 { SentInOrder(calls[1..], delivers, if k == 0 then 0 else k - 1); }
  }

  /** What ChangeStatus returns for a call that is there. */
  function AnswerOf(call: Call, next: Result<Status, Failure>): Result<Call, Failure> {
    match next
    case Ok(status) => Ok(call.(status := status))
    case Err(error) => Err(error)
  }

  lemma AnswerExactly(call: Call, actor: User, action: Action)
    ensures var r, member := AnswerOf(call, NextStatus(call, actor, action)), actor != NoUser && (actor == call.initiator || actor == call.target);
            && (r == Ok(call.(status := Accepted)) <==> action == Accept && call.status == Ringing && actor == call.target != NoUser)
            && (r == Ok(call.(status := Rejected)) <==> action == Reject && call.status == Ringing && actor == call.target != NoUser)
            && (r == Ok(call.(status := Cancelled)) <==> action == Cancel && call.status == Ringing && actor == call.initiator != NoUser)
            && (r == Ok(call.(status := Ended)) <==> action == Hangup && call.status == Accepted && member)
            && (r == Ok(call.(status := Missed)) <==> action == Miss && call.status == Ringing && member)
            && (r == Err(Forbidden) <==> !member)
            && (r == Err(BadAction) <==> member && action == Unknown)
            && (r.Ok? ==> r.value == call.(status := r.value.status) && r.value.status != Ringing)
            && r != Err(NotFound)
  {
    NextStatusExactly(call, actor, action);
    hide NextStatus;
  }

  class Service {
    var calls: map<CallId, Call>
    var announced: seq<Effect>
    var signals: seq<Signal>
    /** The same state with every goroutine's progress and the history. */
    ghost var world: World

    ghost predicate Valid()
      reads this
    {
      Inv(world) && world.calls == calls && world.announced == announced && world.signals == signals
    }

    constructor ()
      ensures Valid() && world == EMPTY
    {
      calls, announced, signals := map[], [], [];
      world := EMPTY;
      EmptyInv();
    }

    /** `task` performs one step of the machine. */
    ghost method Perform(step: Step)
      requires Inv(world)
      modifies this`world
      ensures Inv(world) && world == Apply(old(world), step) && world == Run(old(world), [step])
    {
      StepKeepsInv(world, step);
      assert [step][1..] == [];
      world := Apply(world, step);
    }

    /** A new call rings. */
    method Create(id: CallId, initiator: User, target: User, now: int)
      requires Valid() && id !in calls
      modifies this
      ensures Valid() && world == Run(old(world), [CreateCall(id, initiator, target, now)])
      ensures calls == old(calls)[id := Call(id, initiator, target, now, Ringing)]
      ensures announced == old(announced) && signals == old(signals)
    {
      hide Inv, Run;
      Perform(CreateCall(id, initiator, target, now));
      calls := calls[id := Call(id, initiator, target, now, Ringing)];
    }

    /** createCallMessage, then notifyCallTerminal; their errors are ignored. */
    method AnnounceEnd(call: Call, delivers: Effect -> bool, ghost p: nat, ghost rest: seq<Effect>)
      requires Valid() && p in world.tasks
      requires world.tasks[p] == Announcing([CallMessage(call), TerminalNotice(call)] + rest)
      modifies this`announced, this`world
      ensures Valid() && p in world.tasks && world.tasks[p] == Announcing(rest)
      ensures announced == old(announced) + Sent([call], delivers)
      ensures world == Run(old(world), [Announce(p, delivers(CallMessage(call))), Announce(p, delivers(TerminalNotice(call)))])
    {
      hide Inv, Apply, Run, Sent;
      SentOne(call, delivers);
      ghost var first := Announce(p, delivers(CallMessage(call)));
      ghost var second := Announce(p, delivers(TerminalNotice(call)));
      ghost var w := world;
      assert [CallMessage(call), TerminalNotice(call)] + rest == [CallMessage(call)] + ([TerminalNotice(call)] + rest);
      AnnounceOne(world, p, first.delivered, CallMessage(call), [TerminalNotice(call)] + rest);
      if delivers(CallMessage(call)) { announced := announced + [CallMessage(call)]; }
      Perform(first);
      AnnounceOne(world, p, second.delivered, TerminalNotice(call), rest);
      if delivers(TerminalNotice(call)) { announced := announced + [TerminalNotice(call)]; }
      Perform(second);
      RunConcat(w, [first], [second]);
      assert [first] + [second] == [first, second];
    }

    /** The ring timer of one call: a guarded update, announced only when it moved the call. */
    method FireRingTimer(id: CallId, now: int, delivers: Effect -> bool, ghost p: nat) returns (moved: bool, ghost steps: seq<Step>)
      requires Valid() && p !in world.tasks
      modifies this
      ensures Valid() && world == Run(old(world), steps)
      ensures moved <==> id in old(calls) && old(calls)[id].status == Ringing && old(calls)[id].createdAt <= now
      ensures calls == if moved then old(calls)[id := old(calls)[id].(status := Missed)] else old(calls)
      ensures announced == old(announced) + if moved then Sent([calls[id]], delivers) else []
      ensures signals == old(signals)
    {
      hide Inv;
      moved := Expirable(calls, id, now);
      ghost var w := world;
      Perform(FireTimer(p, id, now));
      steps := [FireTimer(p, id, now)];
      if moved {
        var call := calls[id].(status := Missed);
        calls := calls[id := call];
        assert world.tasks[p] == Announcing([CallMessage(call), TerminalNotice(call)] + []);
        AnnounceEnd(call, delivers, p, []);
        ghost var announcing := [Announce(p, delivers(CallMessage(call))), Announce(p, delivers(TerminalNotice(call)))];
        RunConcat(w, steps, announcing);
        steps := steps + announcing;
      }
    }

    /** Read, decide, compare-and-set. */
    method ReadAndUpdate(id: CallId, actor: User, action: Action, ghost p: nat) returns (next: Result<Status, Failure>, ghost steps: seq<Step>)
      requires Valid() && p !in world.tasks && id in calls
      modifies this`calls, this`world
      ensures Valid() && p in world.tasks && world == Run(old(world), steps)
      ensures next == NextStatus(old(calls)[id], actor, action)
      ensures next.Err? ==> calls == old(calls)
      ensures next.Ok? ==>
                var updated := old(calls)[id].(status := next.value);
                && calls == old(calls)[id := updated]
                && world.tasks[p] == Announcing(if Terminal(next.value) then [CallMessage(updated), TerminalNotice(updated)] else [])
    {
      hide Inv, Apply, Run, NextStatus;
      ghost var w := world;
      Perform(ReadForChange(p, id, actor, action));
      next := NextStatus(calls[id], actor, action);
      Perform(CommitChange(p));
      steps := [ReadForChange(p, id, actor, action), CommitChange(p)];
      RunConcat(w, [ReadForChange(p, id, actor, action)], [CommitChange(p)]);
      assert [ReadForChange(p, id, actor, action)] + [CommitChange(p)] == steps;
      ReadThenCommit(w, p, id, actor, action);
      if next.Ok? { calls := calls[id := calls[id].(status := next.value)]; }
    }

    /** Read, decide, compare-and-set, announce. */
    method ChangeStatus(id: CallId, actor: User, action: Action, delivers: Effect -> bool, ghost p: nat)
      returns (r: Result<Call, Failure>, ghost steps: seq<Step>)
      requires Valid() && p !in world.tasks
      modifies this
      ensures Valid() && world == Run(old(world), steps)
      ensures r == Err(NotFound) <==> id !in old(calls)
      ensures id in old(calls) ==>
                var call := old(calls)[id];
                var member := actor != NoUser && (actor == call.initiator || actor == call.target);
                && (r == Ok(call.(status := Accepted)) <==> action == Accept && call.status == Ringing && actor == call.target != NoUser)
                && (r == Ok(call.(status := Rejected)) <==> action == Reject && call.status == Ringing && actor == call.target != NoUser)
                && (r == Ok(call.(status := Cancelled)) <==> action == Cancel && call.status == Ringing && actor == call.initiator != NoUser)
                && (r == Ok(call.(status := Ended)) <==> action == Hangup && call.status == Accepted && member)
                && (r == Ok(call.(status := Missed)) <==> action == Miss && call.status == Ringing && member)
                && (r == Err(Forbidden) <==> !member)
                && (r == Err(BadAction) <==> member && action == Unknown)
                && (r.Ok? ==> r.value == call.(status := r.value.status) && r.value.status != Ringing)
      ensures calls == if r.Ok? then old(calls)[id := r.value] else old(calls)
      ensures announced == old(announced) + if r.Ok? && r.value.status != Accepted then Sent([r.value], delivers) else []
      ensures signals == old(signals)
    {
      hide Inv, Apply, Run, Sent, NextStatus, AnswerOf;
      if id !in calls {
        NoSteps(world);
        return Err(NotFound), [];
      }
      ghost var w := world;
      var call := calls[id];
      AnswerExactly(call, actor, action);
      var next;
      next, steps := ReadAndUpdate(id, actor, action, p);
      Decided(call, next);
      if next.Err? { return Err(next.error), steps; }
      var updated := call.(status := next.value);
      if Terminal(next.value) {
        assert world.tasks[p] == Announcing([CallMessage(updated), TerminalNotice(updated)] + []);
        AnnounceEnd(updated, delivers, p, []);
        ghost var announcing := [Announce(p, delivers(CallMessage(updated))), Announce(p, delivers(TerminalNotice(updated)))];
        RunConcat(w, steps, announcing);
        steps := steps + announcing;
      }
      return Ok(updated), steps;
    }

    /** One turn of the worker's loop. */
    method AnnounceNext(moved: seq<Call>, k: nat, delivers: Effect -> bool, ghost p: nat) returns (ghost steps: seq<Step>)
      requires k < |moved| && Valid() && p in world.tasks
      requires world.tasks[p] == Announcing(Announcements(moved[k..]))
      modifies this`announced, this`world
      ensures Valid() && p in world.tasks && world.tasks[p] == Announcing(Announcements(moved[k + 1..]))
      ensures announced + Sent(moved[k + 1..], delivers) == old(announced) + Sent(moved[k..], delivers)
      ensures world == Run(old(world), steps)
    {
      hide Inv, Apply;
      var call := moved[k];
      ghost var rest := moved[k + 1..];
      assert moved[k..] == [call] + rest;
      SentCons(call, rest, delivers);
      steps := [Announce(p, delivers(CallMessage(call))), Announce(p, delivers(TerminalNotice(call)))];
      hide Run, Sent, Announcements;
      AnnounceEnd(call, delivers, p, Announcements(rest));
    }

    /** The worker's loop over the calls it moved. */
    method AnnounceAll(moved: seq<Call>, delivers: Effect -> bool, ghost p: nat) returns (ghost steps: seq<Step>)
      requires Valid() && p in world.tasks && world.tasks[p] == Announcing(Announcements(moved))
      modifies this`announced, this`world
      ensures Valid() && world == Run(old(world), steps)
      ensures announced == old(announced) + Sent(moved, delivers)
      ensures p in world.tasks && world.tasks[p] == Announcing([])
    {
      hide Inv;
      ghost var w := world;
      steps := [];
      var k := 0;
      assert moved[0..] == moved;
      while k < |moved|
        invariant k <= |moved| && Valid() && world == Run(w, steps)
        invariant p in world.tasks && world.tasks[p] == Announcing(Announcements(moved[k..]))
        invariant announced + Sent(moved[k..], delivers) == old(announced) + Sent(moved, delivers)
      {
        ghost var turn := AnnounceNext(moved, k, delivers, p);
        RunConcat(w, steps, turn);
        steps := steps + turn;
        k := k + 1;
      }
    }

    /** The expiry worker. `ids` are the rows the guarded batch update picked and moved. */
    method ExpireUnanswered(ids: seq<CallId>, before: int, delivers: Effect -> bool, ghost p: nat)
      returns (count: nat, ghost steps: seq<Step>)
      requires Valid() && p !in world.tasks && Distinct(ids)
      requires forall id | id in ids :: id in calls && calls[id].status == Ringing && calls[id].createdAt <= before
      modifies this
      ensures Valid() && world == Run(old(world), steps)
      ensures count == |ids|
      ensures calls == map id | id in old(calls) :: if id in ids then old(calls)[id].(status := Missed) else old(calls)[id]
      ensures announced == old(announced) + Sent(Missing(old(calls), ids), delivers)
      ensures signals == old(signals)
    {
      hide Inv;
      ghost var w := world;
      var moved := Missing(calls, ids);
      Perform(ExpireBatch(p, ids, before));
      ExpireMoves(w, p, ids, before);
      calls := map id | id in calls :: if id in ids then calls[id].(status := Missed) else calls[id];
      ghost var announcing := AnnounceAll(moved, delivers, p);
      RunConcat(w, [ExpireBatch(p, ids, before)], announcing);
      return |moved|, [ExpireBatch(p, ids, before)] + announcing;
    }

    /** SendSignal: read, check, store. */
    method SendSignal(id: CallId, actor: User, kind: SignalKind, ghost p: nat)
      returns (r: Result<Signal, Failure>, ghost steps: seq<Step>)
      requires Valid() && p !in world.tasks
      modifies this
      ensures Valid() && world == Run(old(world), steps)
      ensures r == Err(NotFound) <==> id !in old(calls)
      ensures id in old(calls) ==>
                var call := old(calls)[id];
                var member := actor != NoUser && (actor == call.initiator || actor == call.target);
                var inRole := (kind == Offer ==> actor == call.initiator) && (kind == Answer || kind == Ready ==> actor == call.target);
                && (r == Ok(Signal(id, actor, kind)) <==> member && kind != NoKind && call.status == Accepted && inRole)
                && (r == Err(Forbidden) <==> !member || (kind != NoKind && call.status == Accepted && !inRole))
                && (r == Err(BadAction) <==> member && kind == NoKind)
                && (r.Ok? ==> r.value == Signal(id, actor, kind))
      ensures signals == old(signals) + if r.Ok? then [r.value] else []
      ensures calls == old(calls) && announced == old(announced)
    {
      hide Inv;
      steps := [];
      if id !in calls { return Err(NotFound), []; }
      ghost var w := world;
      var check := CheckSignal(calls[id], actor, kind);
      CheckSignalExactly(calls[id], actor, kind);
      Perform(ReadForSignal(p, id, actor, kind));
      Perform(StoreSignal(p));
      steps := [ReadForSignal(p, id, actor, kind), StoreSignal(p)];
      RunConcat(w, [ReadForSignal(p, id, actor, kind)], [StoreSignal(p)]);
      assert [ReadForSignal(p, id, actor, kind)] + [StoreSignal(p)] == steps;
      ReadThenStore(w, p, id, actor, kind);
      if check.Err? { return Err(check.error), steps; }
      signals := signals + [Signal(id, actor, kind)];
      return Ok(Signal(id, actor, kind)), steps;
    }
  }

  lemma NoSteps(w: World)
    requires Inv(w)
    ensures Run(w, []) == w
  {
    hide Inv;
  }

  lemma SentOne(call: Call, delivers: Effect -> bool)
    ensures Sent([call], delivers)
         == (if delivers(CallMessage(call)) then [CallMessage(call)] else [])
            + (if delivers(TerminalNotice(call)) then [TerminalNotice(call)] else [])
  {
    assert [call][1..] == [];
  }

  lemma Decided(call: Call, next: Result<Status, Failure>)
    ensures AnswerOf(call, next) == if next.Ok? then Ok(call.(status := next.value)) else Err(next.error)
  {}

  lemma SentCons(call: Call, rest: seq<Call>, delivers: Effect -> bool)
    ensures Sent([call] + rest, delivers) == Sent([call], delivers) + Sent(rest, delivers)
    ensures Announcements([call] + rest) == [CallMessage(call), TerminalNotice(call)] + Announcements(rest)
  {
    assert ([call] + rest)[1..] == rest;
  }

  lemma ExpireMoves(w: World, p: nat, ids: seq<CallId>, before: int)
    requires Inv(w) && Enabled(w, ExpireBatch(p, ids, before))
    ensures var v := Apply(w, ExpireBatch(p, ids, before));
            && v.calls == (map id | id in w.calls :: if id in ids then w.calls[id].(status := Missed) else w.calls[id])
            && p in v.tasks && v.tasks[p] == Announcing(Announcements(Missing(w.calls, ids)))
            && v.announced == w.announced && v.signals == w.signals
  {
    hide EndInv, SnapshotInv, SignalInv;
    BatchMoves(Begin(w, p), p, ids);
  }
}

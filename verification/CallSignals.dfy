/** How fresh the status check of a signal is: SendSignal reads the call, checks what it read, and stores later. */
module CallSignals {
  import opened Wrappers
  import opened GoText
  import opened Calls

  // ---------------------------------------------------------------- one signal

  /** The step commits a hangup of the call: its decision on an accepted read passed. */
  ghost predicate Hangs(w: World, step: Step, id: CallId) {
    && step.CommitChange? && step.task in w.tasks && w.tasks[step.task].Deciding?
    && var t := w.tasks[step.task];
       t.seen.id == id && t.action.Hangup? && t.seen.status.Accepted? && IsParticipant(t.seen, t.actor)
  }

  ghost predicate NoHangup(w: World, steps: seq<Step>, id: CallId)
    requires Inv(w)
    decreases |steps|
  {
    steps == [] ||
    (!Hangs(w, steps[0], id) && (StepKeepsInv(w, steps[0]); NoHangup(Apply(w, steps[0]), steps[1..], id)))
  }

  /** An accepted call ends by a hangup, and stays as it is in every other step. */
  lemma AcceptedStep(w: World, step: Step, id: CallId)
    requires Inv(w) && id in w.calls && w.calls[id].status.Accepted?
    ensures id in Apply(w, step).calls
    ensures Apply(w, step).calls[id] == if Hangs(w, step, id) then w.calls[id].(status := Ended) else w.calls[id]
  {
    hide EndInv, SignalInv, MayBecome, HistoryOf, Apply;
    StepRow(w, step, id);
    if step.CommitChange? && Enabled(w, step) && w.tasks[step.task].seen.id == id { SeenUsers(w, step.task); }
  }

  /** A call keeps its users, so a read shows those of the row. */
  lemma SeenUsers(w: World, p: nat)
    requires Inv(w) && p in w.tasks && !w.tasks[p].Announcing?
    ensures var seen := w.tasks[p].seen;
            seen.id in w.calls && forall u :: IsParticipant(seen, u) <==> IsParticipant(w.calls[seen.id], u)
  {
    hide EndInv, SignalInv;
  }

  lemma {:induction false} AcceptedUntilHangup(w: World, steps: seq<Step>, id: CallId)
    requires Inv(w) && id in w.calls && w.calls[id].status.Accepted?
    ensures id in Run(w, steps).calls
    ensures Run(w, steps).calls[id].status.Accepted? <==> NoHangup(w, steps, id)
    decreases |steps|
  {
    hide EndInv, SignalInv, MayBecome, Apply, Hangs;
    if steps != [] {
      AcceptedStep(w, steps[0], id);
      StepKeepsInv(w, steps[0]);
      var v := Apply(w, steps[0]);
      if Hangs(w, steps[0], id) { AbsorbingFrom(v, steps[1..], id); } else { AcceptedUntilHangup(v, steps[1..], id); }
    }
  }

  /** In every run: when a signal passed its check on the row read, the call is still accepted when the signal is
      stored exactly when no step between the read and the store committed a hangup of that call. */
  lemma SignalIsFreshExactly(before: seq<Step>, p: nat, id: CallId, actor: User, kind: SignalKind, mid: seq<Step>)
    requires p !in Reached(before).tasks && id in Reached(before).calls
    requires CheckSignal(Reached(before).calls[id], actor, kind).Ok?
    ensures var read := Run(Reached(before), [ReadForSignal(p, id, actor, kind)]);
            var row := Reached(before + [ReadForSignal(p, id, actor, kind)] + mid).calls;
            id in row && (row[id].status.Accepted? <==> NoHangup(read, mid, id))
  {
    var w, step := Reached(before), ReadForSignal(p, id, actor, kind);
    assert w.calls[id].status.Accepted? && Apply(w, step).calls == w.calls;
    hide Inv, Apply, CheckSignal, Run;
    RunOne(w, step);
    RunConcat(EMPTY, before, [step]);
    RunConcat(EMPTY, before + [step], mid);
    AcceptedUntilHangup(Run(w, [step]), mid, id);
  }

  // ---------------------------------------------------------------- every signal of a call

  /** SendSignal has read the call and its check passes. */
  ghost predicate CheckPending(w: World, p: nat, id: CallId) {
    && p in w.tasks && w.tasks[p].Signalling? && w.tasks[p].seen.id == id
    && CheckSignal(w.tasks[p].seen, w.tasks[p].actor, w.tasks[p].kind).Ok?
  }

  /** The step stores a signal of a call that is not accepted any more. */
  ghost predicate StoresLate(w: World, step: Step, id: CallId) {
    step.StoreSignal? && CheckPending(w, step.task, id) && !(id in w.calls && w.calls[id].status.Accepted?)
  }

  ghost predicate SomeLate(w: World, steps: seq<Step>, id: CallId)
    requires Inv(w)
    decreases |steps|
  {
    steps != [] &&
    (StoresLate(w, steps[0], id) || (StepKeepsInv(w, steps[0]); SomeLate(Apply(w, steps[0]), steps[1..], id)))
  }

  /** Nobody is left who could signal late: nobody can accept a ringing call, nobody takes part in an accepted one,
      or the call has ended and no signal with a passing check is pending. */
  ghost predicate Quiet(w: World, id: CallId)
    requires id in w.calls
  {
    match w.calls[id].status
    case Ringing => w.calls[id].target == NoUser
    case Accepted => w.calls[id].initiator == NoUser && w.calls[id].target == NoUser
    case _ => forall p :: !CheckPending(w, p, id)
  }

  lemma {:induction false} MoveAllTasks(w: World, p: nat, ids: seq<CallId>, to: Status)
    requires w.calls.Keys == w.history.Keys && (forall i | i in ids :: i in w.calls)
    requires p in w.tasks && w.tasks[p].Announcing?
    ensures var v := MoveAll(w, p, ids, to);
            p in v.tasks && v.tasks[p].Announcing? && v.tasks.Keys == w.tasks.Keys
            && forall q | q in w.tasks && q != p :: v.tasks[q] == w.tasks[q]
    decreases |ids|
  {
    if ids != [] { MoveAllTasks(Move(w, p, ids[0], to), p, ids[1..], to); }
  }

  /** A pending check was made on an accepted call, so the call is accepted or has been hung up. */
  lemma PendingMeansAccepted(w: World, p: nat, id: CallId)
    requires Inv(w) && id in w.calls && CheckPending(w, p, id)
    ensures w.calls[id].status.Accepted? || w.calls[id].status.Ended?
    ensures IsParticipant(w.calls[id], w.tasks[p].actor)
  {
    hide EndInv, SignalInv;
  }

  lemma QuietIsNotLate(w: World, step: Step, id: CallId)
    requires Inv(w) && id in w.calls && Quiet(w, id)
    ensures !StoresLate(w, step, id)
  {
    hide Inv, CheckPending;
    if step.StoreSignal? && CheckPending(w, step.task, id) { PendingMeansAccepted(w, step.task, id); }
  }

  /** A quiet call stays quiet: no step lets it be accepted or makes a passing check on it. */
  lemma QuietStep(w: World, step: Step, id: CallId)
    requires Inv(w) && id in w.calls && Quiet(w, id)
    ensures id in Apply(w, step).calls && Quiet(Apply(w, step), id)
  {
    hide EndInv, SignalInv, MayBecome, HistoryOf, Apply, CheckPending;
    QuietRow(w, step, id);
    StepKeepsInv(w, step);
    forall p ensures CheckPending(Apply(w, step), p, id) ==> !Terminal(Apply(w, step).calls[id].status) { QuietTask(w, step, id, p); }
  }

  lemma QuietRow(w: World, step: Step, id: CallId)
    requires Inv(w) && id in w.calls && Quiet(w, id)
    ensures var v := Apply(w, step);
            && id in v.calls && v.calls[id] == w.calls[id].(status := v.calls[id].status)
            && (v.calls[id].status == w.calls[id].status || (w.calls[id].status.Ringing? && Terminal(v.calls[id].status)))
  {
    hide EndInv, SignalInv, MayBecome, HistoryOf, Apply, CheckPending;
    StepRow(w, step, id);
  }

  /** A passing check is pending after a step only if it was before or the step read an accepted call. */
  lemma CheckComesFromRead(w: World, step: Step, id: CallId, p: nat)
    requires Inv(w) && CheckPending(Apply(w, step), p, id)
    ensures CheckPending(w, p, id) || (id in w.calls && w.calls[id].status.Accepted? && step.ReadForSignal?)
  {
    hide EndInv, SignalInv, MayBecome;
    if Enabled(w, step) {
      match step
      case ExpireBatch(q, ids, before) =>
        MoveAllTasks(Begin(w, q), q, ids, Missed);
      case _ =>
    }
  }

  lemma QuietTask(w: World, step: Step, id: CallId, p: nat)
    requires Inv(w) && id in w.calls && Quiet(w, id)
    ensures id in Apply(w, step).calls && Terminal(Apply(w, step).calls[id].status) ==> !CheckPending(Apply(w, step), p, id)
  {
    QuietRow(w, step, id);
    if CheckPending(Apply(w, step), p, id) {
      CheckComesFromRead(w, step, id, p);
      hide Inv, Apply, CheckPending;
      if CheckPending(w, p, id) { PendingMeansAccepted(w, p, id); }
    }
  }

  lemma {:induction false} QuietForGood(w: World, steps: seq<Step>, id: CallId)
    requires Inv(w) && id in w.calls && Quiet(w, id)
    ensures !SomeLate(w, steps, id)
    decreases |steps|
  {
    hide EndInv, SignalInv, MayBecome, Apply, Quiet, StoresLate;
    if steps != [] {
      QuietIsNotLate(w, steps[0], id);
      QuietStep(w, steps[0], id);
      StepKeepsInv(w, steps[0]);
      QuietForGood(Apply(w, steps[0]), steps[1..], id);
    }
  }

  lemma {:induction false} LateAfter(w: World, a: seq<Step>, b: seq<Step>, id: CallId)
    requires Inv(w) && SomeLate(Run(w, a), b, id)
    ensures SomeLate(w, a + b, id)
    decreases |a|
  {
    hide EndInv, SignalInv, MayBecome, Apply, StoresLate;
    if a == [] {
      assert a + b == b;
    } else {
      StepKeepsInv(w, a[0]);
      assert (a + b)[1..] == a[1..] + b;
      LateAfter(Apply(w, a[0]), a[1..], b, id);
    }
  }

  lemma {:induction false} FreshTask(used: set<nat>) returns (n: nat)
    ensures forall m: nat | m >= n :: m !in used
  {
    n := 0;
    if used != {} {
      var x :| x in used;
      var rest := FreshTask(used - {x});
      n := if rest > x then rest else x + 1;
      assert forall m: nat | m in used :: m == x || m in used - {x};
    }
  }

  lemma LateFromAccepted(w: World, id: CallId, user: User) returns (steps: seq<Step>)
    requires Inv(w) && id in w.calls && w.calls[id].status.Accepted? && IsParticipant(w.calls[id], user)
    ensures SomeLate(w, steps, id)
  {
    hide Inv, Run;
    var p := FreshTask(w.tasks.Keys);
    var q := p + 1;
    var begun := [ReadForSignal(p, id, user, IceCandidate), ReadForChange(q, id, user, Hangup)];
    var v := BothRead(w, id, p, q, user, IceCandidate);
    HangupThenStore(v, id, p, q, user, IceCandidate);
    hide Apply;
    StepKeepsInv(v, CommitChange(q));
    var stores := [CommitChange(q), StoreSignal(p)];
    assert stores[1..][0] == StoreSignal(p) && StoresLate(Apply(v, stores[0]), stores[1..][0], id);
    steps := begun + stores;
    LateAfter(w, begun, stores, id);
  }

  /** From any reachable state, no continuation stores a signal late exactly when the call is quiet. */
  lemma NoLateSignalExactly(w: World, id: CallId)
    requires Inv(w) && id in w.calls
    ensures (forall steps :: !SomeLate(w, steps, id)) <==> Quiet(w, id)
  {
    if Quiet(w, id) {
      hide Inv, Quiet, SomeLate;
      forall steps ensures !SomeLate(w, steps, id) { QuietForGood(w, steps, id); }
    } else {
      var steps := LateSteps(w, id);
      hide *;
    }
  }

  lemma LateSteps(w: World, id: CallId) returns (steps: seq<Step>)
    requires Inv(w) && id in w.calls && !Quiet(w, id)
    ensures SomeLate(w, steps, id)
  {
    hide Inv, Apply, Run;
    var call := w.calls[id];
    if call.status.Ringing? {
      var p := FreshTask(w.tasks.Keys);
      var accept := [ReadForChange(p, id, call.target, Accept), CommitChange(p)];
      ReadThenCommit(w, p, id, call.target, Accept);
      var rest := LateFromAccepted(Run(w, accept), id, call.target);
      steps := accept + rest;
      LateAfter(w, accept, rest, id);
    } else if call.status.Accepted? {
      steps := LateFromAccepted(w, id, if call.initiator != NoUser then call.initiator else call.target);
    } else {
      var p :| CheckPending(w, p, id);
      steps := [StoreSignal(p)];
      assert StoresLate(w, steps[0], id);
    }
  }
}

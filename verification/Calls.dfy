/** The call protocol: read a call, decide on what was read, compare-and-set the status, then
    announce. Any number of requests, ring timers and expiry batches interleave step by step. */
module Calls {
  import opened Wrappers
  import opened GoText

  /** Identifiers are only compared; a number stands for each. */
  type CallId = nat

  /** `NoUser` is the empty user ID. */
  datatype User = NoUser | User(n: nat)

  datatype Status = Ringing | Accepted | Rejected | Cancelled | Ended | Missed

  datatype Action = Accept | Reject | Cancel | Hangup | Miss | Unknown

  /** `NoKind` is a signal type that is none of the four. */
  datatype SignalKind = Offer | Answer | IceCandidate | Ready | NoKind

  datatype Failure = Forbidden | InvalidTransition | BadAction | NotFound

  datatype Call = Call(id: CallId, initiator: User, target: User, createdAt: int, status: Status)

  predicate Terminal(s: Status) { s.Rejected? || s.Cancelled? || s.Ended? || s.Missed? }

  predicate IsParticipant(call: Call, user: User) {
    user != NoUser && (user == call.initiator || user == call.target)
  }

  function NextStatus(call: Call, actor: User, action: Action): Result<Status, Failure> {
    if !IsParticipant(call, actor) then Err(Forbidden)
    else match action
      case Accept => if actor != call.target || call.status != Ringing then Err(InvalidTransition) else Ok(Accepted)
      case Reject => if actor != call.target || call.status != Ringing then Err(InvalidTransition) else Ok(Rejected)
      case Cancel => if actor != call.initiator || call.status != Ringing then Err(InvalidTransition) else Ok(Cancelled)
      case Hangup => if call.status != Accepted then Err(InvalidTransition) else Ok(Ended)
      case Miss => if call.status != Ringing then Err(InvalidTransition) else Ok(Missed)
      case Unknown => Err(BadAction)
  }

  function CheckSignal(call: Call, actor: User, kind: SignalKind): Result<(), Failure> {
    if !IsParticipant(call, actor) then Err(Forbidden)
    else if kind.NoKind? then Err(BadAction)
    else if call.status != Accepted then Err(InvalidTransition)
    else if kind.Offer? && actor != call.initiator then Err(Forbidden)
    else if (kind.Answer? || kind.Ready?) && actor != call.target then Err(Forbidden)
    else Ok(())
  }

  /** Each answer of NextStatus, and for which call, actor and action it is given. */
  lemma NextStatusExactly(call: Call, actor: User, action: Action)
    ensures var r, member := NextStatus(call, actor, action), actor != NoUser && (actor == call.initiator || actor == call.target);
            && (r == Ok(Accepted) <==> action == Accept && call.status == Ringing && actor == call.target != NoUser)
            && (r == Ok(Rejected) <==> action == Reject && call.status == Ringing && actor == call.target != NoUser)
            && (r == Ok(Cancelled) <==> action == Cancel && call.status == Ringing && actor == call.initiator != NoUser)
            && (r == Ok(Ended) <==> action == Hangup && call.status == Accepted && member)
            && (r == Ok(Missed) <==> action == Miss && call.status == Ringing && member)
            && (r == Err(Forbidden) <==> !member)
            && (r == Err(BadAction) <==> member && action == Unknown)
            && r != Ok(Ringing) && r != Err(NotFound)
  {}

  /** Each answer of CheckSignal. */
  lemma CheckSignalExactly(call: Call, actor: User, kind: SignalKind)
    ensures var r, member := CheckSignal(call, actor, kind), actor != NoUser && (actor == call.initiator || actor == call.target);
            var inRole := (kind == Offer ==> actor == call.initiator) && (kind == Answer || kind == Ready ==> actor == call.target);
            && (r.Ok? <==> member && kind != NoKind && call.status == Accepted && inRole)
            && (r == Err(Forbidden) <==> !member || (kind != NoKind && call.status == Accepted && !inRole))
            && (r == Err(BadAction) <==> member && kind == NoKind)
            && r != Err(NotFound)
  {}

  /** The text status createCallMessage writes. */
  function MessageStatus(call: Call): string { if call.status.Ended? then "completed" else "missed" }

  // ---------------------------------------------------------------- the shared state and its steps

  datatype Effect = CallMessage(call: Call) | TerminalNotice(call: Call)

  /** What one goroutine still has to do. A finished one stays as `Announcing([])`. */
  datatype Task =
    | Deciding(seen: Call, actor: User, action: Action)    // ChangeStatus, between Get and UpdateStatus
    | Announcing(effects: seq<Effect>)                       // after its own committed update
    | Signalling(seen: Call, actor: User, kind: SignalKind) // SendSignal, between Get and CreateSignal

  datatype Signal = Signal(callId: CallId, sender: User, kind: SignalKind)

  /** `announced` lists what was written or sent. The last four fields record what happened: the statuses each
      call went through, the task that made it terminal, and the announcements tried and those given up. */
  datatype World = World(
    calls: map<CallId, Call>,
    tasks: map<nat, Task>,
    announced: seq<Effect>,
    signals: seq<Signal>,
    history: map<CallId, seq<Status>>,
    mover: map<CallId, nat>,
    tried: set<Effect>,
    lost: set<Effect>)

  const EMPTY := World(map[], map[], [], [], map[], map[], {}, {})

  datatype Step =
    | CreateCall(id: CallId, initiator: User, target: User, now: int)
    | ReadForChange(task: nat, id: CallId, actor: User, action: Action)
    | CommitChange(task: nat)
    | FireTimer(task: nat, id: CallId, now: int)
    | ExpireBatch(task: nat, ids: seq<CallId>, before: int)
    | Announce(task: nat, delivered: bool)
    | Abandon(task: nat) // the response of the update is lost, or the process stops
    | ReadForSignal(task: nat, id: CallId, actor: User, kind: SignalKind)
    | StoreSignal(task: nat)

  /** The guard of both expiry updates: still ringing, and created no later than `before`. */
  predicate Expirable(calls: map<CallId, Call>, id: CallId, before: int) {
    id in calls && calls[id].status.Ringing? && calls[id].createdAt <= before
  }

  /** The task has decided and has nothing to announce yet. */
  function Begin(w: World, task: nat): World { w.(tasks := w.tasks[task := Announcing([])]) }

  /** One row of a committed UPDATE; if the call ended, `task` has it to announce. */
  function Move(w: World, task: nat, id: CallId, to: Status): World
    requires id in w.calls && id in w.history && task in w.tasks && w.tasks[task].Announcing?
  {
    var call := w.calls[id].(status := to);
    var moved := w.(calls := w.calls[id := call], history := w.history[id := w.history[id] + [to]]);
    if !Terminal(to) then moved
    else moved.(mover := w.mover[id := task],
                tasks := w.tasks[task := Announcing(w.tasks[task].effects + [CallMessage(call), TerminalNotice(call)])])
  }

  /** The rows of one batch UPDATE. */
  function MoveAll(w: World, task: nat, ids: seq<CallId>, to: Status): World
    requires w.calls.Keys == w.history.Keys && (forall id | id in ids :: id in w.calls)
    requires task in w.tasks && w.tasks[task].Announcing?
    decreases |ids|
  {
    if ids == [] then w else MoveAll(Move(w, task, ids[0], to), task, ids[1..], to)
  }

  predicate Enabled(w: World, step: Step) {
    match step
    case CreateCall(id, _, _, _) => id !in w.calls
    case ReadForChange(p, id, _, _) => p !in w.tasks && id in w.calls
    case CommitChange(p) => p in w.tasks && w.tasks[p].Deciding?
    case FireTimer(p, _, _) => p !in w.tasks
    case ExpireBatch(p, ids, before) =>
      p !in w.tasks && Distinct(ids) && forall id | id in ids :: Expirable(w.calls, id, before)
    case Announce(p, _) => p in w.tasks && w.tasks[p].Announcing? && w.tasks[p].effects != []
    case Abandon(p) => p in w.tasks && w.tasks[p].Announcing?
    case ReadForSignal(p, id, _, _) => p !in w.tasks && id in w.calls
    case StoreSignal(p) => p in w.tasks && w.tasks[p].Signalling?
  }

  /** One atomic step; a step that is not enabled changes nothing. */
  function Apply(w: World, step: Step): World
    requires w.calls.Keys == w.history.Keys
    requires forall p | p in w.tasks && !w.tasks[p].Announcing? :: w.tasks[p].seen.id in w.calls
  {
    if !Enabled(w, step) then w
    else match step
      case CreateCall(id, initiator, target, now) =>
        w.(calls := w.calls[id := Call(id, initiator, target, now, Ringing)], history := w.history[id := [Ringing]])
      case ReadForChange(p, id, actor, action) =>
        w.(tasks := w.tasks[p := Deciding(w.calls[id], actor, action)])
      case CommitChange(p) =>
        var t := w.tasks[p];
        var next := NextStatus(t.seen, t.actor, t.action);
        if next.Ok? && w.calls[t.seen.id].status == t.seen.status && IsParticipant(w.calls[t.seen.id], t.actor)
        then Move(Begin(w, p), p, t.seen.id, next.value) else Begin(w, p)
      case FireTimer(p, id, now) =>
        if Expirable(w.calls, id, now) then Move(Begin(w, p), p, id, Missed) else Begin(w, p)
      case ExpireBatch(p, ids, _) => MoveAll(Begin(w, p), p, ids, Missed)
      case Announce(p, delivered) =>
        var effects := w.tasks[p].effects;
        w.(tasks := w.tasks[p := Announcing(effects[1..])],
           tried := w.tried + {effects[0]},
           announced := if delivered then w.announced + [effects[0]] else w.announced)
      case Abandon(p) => Begin(w, p).(lost := w.lost + Elements(w.tasks[p].effects))
      case ReadForSignal(p, id, actor, kind) =>
        w.(tasks := w.tasks[p := Signalling(w.calls[id], actor, kind)])
      case StoreSignal(p) =>
        var t := w.tasks[p];
        var done := Begin(w, p);
        if CheckSignal(t.seen, t.actor, t.kind).Ok?
        then done.(signals := done.signals + [Signal(t.seen.id, t.actor, t.kind)]) else done
  }

  // ---------------------------------------------------------------- what every step keeps

  /** The only way to reach each status: a prefix of ringing, accepted, ended or of ringing,
      {rejected, cancelled, missed}. */
  function HistoryOf(s: Status): seq<Status> {
    match s
    case Ringing => [Ringing]
    case Accepted => [Ringing, Accepted]
    case Ended => [Ringing, Accepted, Ended]
    case _ => [Ringing, s]
  }

  predicate LegalMove(from: Status, to: Status) {
    if from.Ringing? then !to.Ringing? && !to.Ended? else from.Accepted? && to.Ended?
  }

  /** A call read as `seen` may since have become `now`. */
  predicate MayBecome(seen: Call, now: Call) {
    && seen.(status := now.status) == now
    && (seen.status == now.status || seen.status.Ringing? || (seen.status.Accepted? && now.status.Ended?))
  }

  ghost predicate HistoryInv(w: World) {
    && w.calls.Keys == w.history.Keys
    && forall id | id in w.calls :: w.calls[id].id == id && w.history[id] == HistoryOf(w.calls[id].status)
  }

  ghost predicate SnapshotInv(w: World) {
    forall p | p in w.tasks && !w.tasks[p].Announcing? ::
      w.tasks[p].seen.id in w.calls && MayBecome(w.tasks[p].seen, w.calls[w.tasks[p].seen.id])
  }

  ghost predicate MoverInv(w: World) {
    forall id :: (id in w.mover <==> id in w.calls && Terminal(w.calls[id].status)) &&
                 (id in w.mover ==> w.mover[id] in w.tasks && w.tasks[w.mover[id]].Announcing?)
  }

  /** The effect tells the state in which its call ended. */
  ghost predicate Final(w: World, e: Effect) {
    e.call.id in w.mover && e.call.id in w.calls && w.calls[e.call.id] == e.call
  }

  ghost predicate Pending(w: World, e: Effect)
    requires Final(w, e)
  {
    var p := w.mover[e.call.id];
    p in w.tasks && w.tasks[p].Announcing? && e in w.tasks[p].effects
  }

  /** Only the task that ended a call announces it, and has each announcement once. */
  ghost predicate QueueInv(w: World) {
    forall p | p in w.tasks && w.tasks[p].Announcing? ::
      && Distinct(w.tasks[p].effects)
      && forall e | e in w.tasks[p].effects :: Final(w, e) && w.mover[e.call.id] == p
  }

  /** What was announced was tried, and what was tried or given up, never both, is not pending any more. */
  ghost predicate DoneInv(w: World) {
    && Distinct(w.announced)
    && (forall e | e in w.announced :: e in w.tried)
    && (forall e | e in w.tried || e in w.lost :: Final(w, e) && !Pending(w, e))
    && w.tried !! w.lost
  }

  /** Every announcement of an ended call is pending, was tried or was given up: none disappears unseen. */
  ghost predicate KeptInv(w: World) {
    forall e: Effect | Final(w, e) :: Pending(w, e) || e in w.tried || e in w.lost
  }

  ghost predicate SignalInv(w: World) {
    forall s | s in w.signals ::
      && s.callId in w.calls
      && (w.calls[s.callId].status.Accepted? || w.calls[s.callId].status.Ended?)
      && IsParticipant(w.calls[s.callId], s.sender)
      && (s.kind.Offer? ==> s.sender == w.calls[s.callId].initiator)
      && (s.kind.Answer? || s.kind.Ready? ==> s.sender == w.calls[s.callId].target)
  }

  ghost predicate RowInv(w: World) { HistoryInv(w) && SnapshotInv(w) && SignalInv(w) }

  ghost predicate EndInv(w: World) { MoverInv(w) && QueueInv(w) && DoneInv(w) && KeptInv(w) }

  ghost predicate Inv(w: World) { RowInv(w) && EndInv(w) }

  /** Steps that end no call and announce nothing keep what is known about ended calls. */
  lemma SameEnds(w: World, v: World, p: nat)
    requires EndInv(w) && v.mover == w.mover && v.tried == w.tried && v.lost == w.lost && v.announced == w.announced
    requires p in w.tasks ==> !w.tasks[p].Announcing?
    requires v.tasks.Keys == w.tasks.Keys + {p} && (forall q | q in w.tasks && q != p :: v.tasks[q] == w.tasks[q])
    requires v.tasks[p].Announcing? ==> v.tasks[p].effects == []
    requires v.calls == w.calls
    ensures EndInv(v)
  {
    assert forall e: Effect :: Final(v, e) <==> Final(w, e);
    assert forall e: Effect | Final(w, e) :: Pending(v, e) <==> Pending(w, e);
  }

  lemma BeginKeepsInv(w: World, p: nat)
    requires Inv(w) && (p in w.tasks ==> !w.tasks[p].Announcing?)
    ensures Inv(Begin(w, p))
  {
    SameEnds(w, Begin(w, p), p);
    hide EndInv;
  }

  ghost predicate Movable(w: World, p: nat, id: CallId, to: Status) {
    Inv(w) && p in w.tasks && w.tasks[p].Announcing? && id in w.calls && LegalMove(w.calls[id].status, to)
  }

  lemma MoveKeepsRows(w: World, p: nat, id: CallId, to: Status)
    requires Movable(w, p, id, to)
    ensures RowInv(Move(w, p, id, to))
  {
    hide EndInv;
    assert HistoryInv(Move(w, p, id, to));
  }

  lemma MoveKeepsMover(w: World, p: nat, id: CallId, to: Status)
    requires Movable(w, p, id, to)
    ensures MoverInv(Move(w, p, id, to)) && id !in w.mover
  {
    hide SnapshotInv, SignalInv, QueueInv, DoneInv, KeptInv;
  }

  lemma MoveKeepsFinal(w: World, p: nat, id: CallId, to: Status)
    requires Movable(w, p, id, to) && id !in w.mover
    ensures forall e: Effect | Final(w, e) ::
              Final(Move(w, p, id, to), e) && e.call.id != id && (Pending(Move(w, p, id, to), e) <==> Pending(w, e))
    ensures forall e: Effect | Final(Move(w, p, id, to), e) ::
              Final(w, e) || (e.call.id == id && Terminal(to) && Pending(Move(w, p, id, to), e))
  {
    hide SnapshotInv, SignalInv, DoneInv, KeptInv;
    var v := Move(w, p, id, to);
    forall e: Effect | Final(v, e)
      ensures Final(w, e) || (e.call.id == id && Terminal(to) && Pending(v, e))
    {
      if e.call.id == id { assert e == CallMessage(v.calls[id]) || e == TerminalNotice(v.calls[id]); }
    }
    forall e: Effect | Final(w, e)
      ensures Final(v, e) && e.call.id != id && (Pending(v, e) <==> Pending(w, e))
    {
      assert e.call.id != id;
    }
  }

  lemma MoveKeepsDistinct(w: World, p: nat, id: CallId, to: Status)
    requires Movable(w, p, id, to) && id !in w.mover
    ensures Distinct(Move(w, p, id, to).tasks[p].effects)
  {
    hide SnapshotInv, SignalInv, DoneInv, KeptInv;
    var queue := w.tasks[p].effects;
    assert forall e | e in queue :: e.call.id != id;
    if Terminal(to) {
      var call := w.calls[id].(status := to);
      assert Move(w, p, id, to).tasks[p].effects == queue + [CallMessage(call), TerminalNotice(call)];
    }
  }

  lemma MoveQueues(w: World, p: nat, id: CallId, to: Status, q: nat)
    requires id in w.calls && id in w.history && p in w.tasks && w.tasks[p].Announcing?
    requires var v := Move(w, p, id, to); q in v.tasks && v.tasks[q].Announcing?
    ensures var v, call := Move(w, p, id, to), w.calls[id].(status := to);
            && q in w.tasks && w.tasks[q].Announcing?
            && v.tasks[q].effects == w.tasks[q].effects + (if q == p && Terminal(to) then [CallMessage(call), TerminalNotice(call)] else [])
            && v.mover == (if Terminal(to) then w.mover[id := p] else w.mover) && v.calls == w.calls[id := call]
  {}

  lemma MoveKeepsOwners(w: World, p: nat, id: CallId, to: Status, q: nat, e: Effect)
    requires Movable(w, p, id, to) && id !in w.mover
    requires var v := Move(w, p, id, to); q in v.tasks && v.tasks[q].Announcing? && e in v.tasks[q].effects
    ensures Final(Move(w, p, id, to), e) && Move(w, p, id, to).mover[e.call.id] == q
  {
    hide SnapshotInv, SignalInv, MoverInv, DoneInv, KeptInv, Distinct;
    MoveQueues(w, p, id, to, q);
    hide Move;
    if e in w.tasks[q].effects { assert Final(w, e) && w.mover[e.call.id] == q; }
  }

  lemma MoveKeepsQueue(w: World, p: nat, id: CallId, to: Status)
    requires Movable(w, p, id, to) && id !in w.mover
    ensures QueueInv(Move(w, p, id, to))
  {
    hide SnapshotInv, SignalInv, DoneInv, KeptInv, Distinct;
    var v := Move(w, p, id, to);
    MoveKeepsDistinct(w, p, id, to);
    hide Final;
    forall q, e | q in v.tasks && v.tasks[q].Announcing? && e in v.tasks[q].effects
      ensures Final(v, e) && v.mover[e.call.id] == q
    {
      MoveKeepsOwners(w, p, id, to, q, e);
    }
  }

  lemma MoveKeepsInv(w: World, p: nat, id: CallId, to: Status)
    requires Movable(w, p, id, to)
    ensures Inv(Move(w, p, id, to))
  {
    hide RowInv, QueueInv;
    MoveKeepsRows(w, p, id, to);
    MoveKeepsMover(w, p, id, to);
    MoveKeepsFinal(w, p, id, to);
    MoveKeepsQueue(w, p, id, to);
  }

  lemma {:induction false} MoveAllKeepsInv(w: World, p: nat, ids: seq<CallId>, to: Status)
    requires Inv(w) && p in w.tasks && w.tasks[p].Announcing? && Distinct(ids)
    requires forall id | id in ids :: id in w.calls && LegalMove(w.calls[id].status, to)
    ensures Inv(MoveAll(w, p, ids, to))
    decreases |ids|
  {
    hide EndInv, SnapshotInv, SignalInv;
    if ids != [] {
      MoveKeepsInv(w, p, ids[0], to);
      MoveAllKeepsInv(Move(w, p, ids[0], to), p, ids[1..], to);
    }
  }

  lemma AnnounceKeepsEnds(w: World, p: nat, delivered: bool)
    requires EndInv(w) && Enabled(w, Announce(p, delivered)) && w.calls.Keys == w.history.Keys
    requires forall q | q in w.tasks && !w.tasks[q].Announcing? :: w.tasks[q].seen.id in w.calls
    ensures EndInv(Apply(w, Announce(p, delivered)))
  {
    var v := Apply(w, Announce(p, delivered));
    var effects := w.tasks[p].effects;
    assert effects == [effects[0]] + effects[1..];
    assert Final(w, effects[0]) && w.mover[effects[0].call.id] == p;
    assert forall e :: Final(v, e) <==> Final(w, e);
    assert forall e | Final(w, e) :: Pending(v, e) <==> Pending(w, e) && e != effects[0];
    assert QueueInv(v);
  }

  lemma AnnounceKeepsInv(w: World, p: nat, delivered: bool)
    requires Inv(w) && Enabled(w, Announce(p, delivered))
    ensures Inv(Apply(w, Announce(p, delivered)))
  {
    AnnounceKeepsEnds(w, p, delivered);
    hide EndInv;
  }

  lemma AbandonKeepsEnds(w: World, p: nat)
    requires EndInv(w) && Enabled(w, Abandon(p)) && w.calls.Keys == w.history.Keys
    requires forall q | q in w.tasks && !w.tasks[q].Announcing? :: w.tasks[q].seen.id in w.calls
    ensures EndInv(Apply(w, Abandon(p)))
  {
    var v := Apply(w, Abandon(p));
    var effects := w.tasks[p].effects;
    assert forall e | e in effects :: Final(w, e) && w.mover[e.call.id] == p;
    assert forall e: Effect :: Final(v, e) <==> Final(w, e);
    assert forall e: Effect | Final(w, e) :: Pending(v, e) <==> Pending(w, e) && e !in effects;
  }

  lemma AbandonKeepsInv(w: World, p: nat)
    requires Inv(w) && Enabled(w, Abandon(p))
    ensures Inv(Apply(w, Abandon(p)))
  {
    AbandonKeepsEnds(w, p);
    hide EndInv;
  }

  lemma CommitKeepsInv(w: World, p: nat)
    requires Inv(w) && Enabled(w, CommitChange(p))
    ensures Inv(Apply(w, CommitChange(p)))
  {
    var t := w.tasks[p];
    var next := NextStatus(t.seen, t.actor, t.action);
    hide EndInv;
    BeginKeepsInv(w, p);
    if next.Ok? && w.calls[t.seen.id].status == t.seen.status {
      MoveKeepsInv(Begin(w, p), p, t.seen.id, next.value);
    }
  }

  lemma ReadKeepsInv(w: World, step: Step)
    requires Inv(w) && Enabled(w, step) && (step.ReadForChange? || step.ReadForSignal?)
    ensures Inv(Apply(w, step))
  {
    SameEnds(w, Apply(w, step), step.task);
    hide EndInv;
  }

  lemma CreateKeepsEnds(w: World, id: CallId, call: Call)
    requires EndInv(w) && id !in w.calls && call.status.Ringing?
    ensures EndInv(w.(calls := w.calls[id := call], history := w.history[id := [Ringing]]))
  {
    var v := w.(calls := w.calls[id := call], history := w.history[id := [Ringing]]);
    assert forall e: Effect :: Final(v, e) <==> Final(w, e);
    assert forall e: Effect | Final(w, e) :: Pending(v, e) <==> Pending(w, e);
  }

  lemma CreateKeepsInv(w: World, id: CallId, initiator: User, target: User, now: int)
    requires Inv(w) && id !in w.calls
    ensures Inv(Apply(w, CreateCall(id, initiator, target, now)))
  {
    CreateKeepsEnds(w, id, Call(id, initiator, target, now, Ringing));
    hide EndInv;
  }

  lemma StoredSignalIsSound(w: World, p: nat)
    requires RowInv(w) && Enabled(w, StoreSignal(p))
    ensures SignalInv(Apply(w, StoreSignal(p)))
  {}

  lemma SignalKeepsInv(w: World, p: nat)
    requires Inv(w) && Enabled(w, StoreSignal(p))
    ensures Inv(Apply(w, StoreSignal(p)))
  {
    SameEnds(w, Apply(w, StoreSignal(p)), p);
    StoredSignalIsSound(w, p);
    hide EndInv, SignalInv;
  }

  lemma StepKeepsInv(w: World, step: Step)
    requires Inv(w)
    ensures Inv(Apply(w, step))
  {
    hide EndInv;
    if Enabled(w, step) {
      match step
      case CreateCall(id, initiator, target, now) => CreateKeepsInv(w, id, initiator, target, now);
      case ReadForChange(_, _, _, _) => ReadKeepsInv(w, step);
      case CommitChange(p) => CommitKeepsInv(w, p);
      case FireTimer(p, id, now) =>
        BeginKeepsInv(w, p);
        if Expirable(w.calls, id, now) { MoveKeepsInv(Begin(w, p), p, id, Missed); }
      case ExpireBatch(p, ids, before) =>
        BeginKeepsInv(w, p);
        MoveAllKeepsInv(Begin(w, p), p, ids, Missed);
      case Announce(p, delivered) => AnnounceKeepsInv(w, p, delivered);
      case Abandon(p) => AbandonKeepsInv(w, p);
      case ReadForSignal(_, _, _, _) => ReadKeepsInv(w, step);
      case StoreSignal(p) => SignalKeepsInv(w, p);
    }
  }

  // ---------------------------------------------------------------- every run

  /** Any interleaving. Every step keeps the invariant. */
  ghost function Run(w: World, steps: seq<Step>): (r: World)
    requires Inv(w)
    ensures Inv(r)
    decreases |steps|
  {
    if steps == [] then w
    else
      StepKeepsInv(w, steps[0]);
      Run(Apply(w, steps[0]), steps[1..])
  }

  lemma EmptyInv()
    ensures Inv(EMPTY)
  {}

  ghost function Reached(steps: seq<Step>): (w: World)
    ensures Inv(w)
  {
    EmptyInv();
    Run(EMPTY, steps)
  }

  lemma {:induction false} RunConcat(w: World, a: seq<Step>, b: seq<Step>)
    requires Inv(w)
    ensures Run(w, a + b) == Run(Run(w, a), b)
    decreases |a|
  {
    if a == [] {
      assert a + b == b;
    } else {
      StepKeepsInv(w, a[0]);
      assert (a + b)[1..] == a[1..] + b;
      RunConcat(Apply(w, a[0]), a[1..], b);
    }
  }

  /** The recorded statuses are a prefix of ringing, accepted, ended or of ringing and one of
      rejected, cancelled, missed; the last one is the stored status. */
  lemma HistoriesAreLegal(steps: seq<Step>, id: CallId)
    requires id in Reached(steps).calls
    ensures id in Reached(steps).history
    ensures var h := Reached(steps).history[id];
            && h != [] && h[|h| - 1] == Reached(steps).calls[id].status
            && (h <= [Ringing, Accepted, Ended] || h <= [Ringing, Rejected] || h <= [Ringing, Cancelled] || h <= [Ringing, Missed])
  {}

  /** The row of a call after a step, decided on the row itself. */
  function RowAfter(w: World, step: Step, id: CallId): Call
    requires id in w.calls
  {
    var row := w.calls[id];
    if !Enabled(w, step) then row
    else match step
      case CommitChange(p) =>
        var t := w.tasks[p];
        if t.seen.id != id || t.seen.status != row.status then row
        else
          (match NextStatus(row, t.actor, t.action)
           case Ok(status) => row.(status := status)
           case Err(_) => row)
      case FireTimer(_, i, now) => if i == id && Expirable(w.calls, id, now) then row.(status := Missed) else row
      case ExpireBatch(_, ids, _) => if id in ids then row.(status := Missed) else row
      case _ => row
  }

  lemma CommitRow(w: World, p: nat, id: CallId)
    requires HistoryInv(w) && SnapshotInv(w) && id in w.calls && Enabled(w, CommitChange(p))
    ensures id in Apply(w, CommitChange(p)).calls && Apply(w, CommitChange(p)).calls[id] == RowAfter(w, CommitChange(p), id)
  {}

  lemma BatchRow(w: World, step: Step, id: CallId)
    requires HistoryInv(w) && SnapshotInv(w) && id in w.calls && step.ExpireBatch? && Enabled(w, step)
    ensures id in Apply(w, step).calls && Apply(w, step).calls[id] == RowAfter(w, step, id)
  {
    hide MayBecome, HistoryOf;
    var v := Begin(w, step.task);
    if id in step.ids { MoveAllMoves(v, step.task, step.ids, Missed, id); } else { MoveAllLeaves(v, step.task, step.ids, Missed, id); }
  }

  lemma OtherRow(w: World, step: Step, id: CallId)
    requires HistoryInv(w) && SnapshotInv(w) && id in w.calls && !step.CommitChange? && !step.ExpireBatch?
    ensures id in Apply(w, step).calls && Apply(w, step).calls[id] == RowAfter(w, step, id)
  {
    hide MayBecome, HistoryOf;
  }

  lemma StepRow(w: World, step: Step, id: CallId)
    requires Inv(w) && id in w.calls
    ensures id in Apply(w, step).calls && Apply(w, step).calls[id] == RowAfter(w, step, id)
  {
    if !Enabled(w, step) {
    } else if step.CommitChange? {
      CommitRow(w, step.task, id);
    } else if step.ExpireBatch? {
      BatchRow(w, step, id);
    } else {
      OtherRow(w, step, id);
    }
    hide *;
  }

  lemma HistoryAfter(w: World, id: CallId)
    requires Inv(w) && id in w.calls
    ensures id in w.history && w.history[id] == HistoryOf(w.calls[id].status)
  {
    hide EndInv, SnapshotInv, SignalInv;
  }

  /** No step moves a call that has ended. */
  lemma TerminalStep(w: World, step: Step, id: CallId)
    requires Inv(w) && id in w.calls && Terminal(w.calls[id].status)
    ensures id in Apply(w, step).calls && Apply(w, step).calls[id] == w.calls[id]
    ensures id in Apply(w, step).history && Apply(w, step).history[id] == w.history[id]
  {
    hide EndInv, SignalInv, MayBecome, HistoryOf, Apply;
    StepRow(w, step, id);
    StepKeepsInv(w, step);
    HistoryAfter(w, id);
    HistoryAfter(Apply(w, step), id);
  }

  lemma {:induction false} MoveAllLeaves(w: World, p: nat, ids: seq<CallId>, to: Status, id: CallId)
    requires w.calls.Keys == w.history.Keys && (forall i | i in ids :: i in w.calls)
    requires p in w.tasks && w.tasks[p].Announcing?
    requires id in w.calls && id !in ids
    ensures id in MoveAll(w, p, ids, to).calls && MoveAll(w, p, ids, to).calls[id] == w.calls[id]
    ensures id in MoveAll(w, p, ids, to).history && MoveAll(w, p, ids, to).history[id] == w.history[id]
    decreases |ids|
  {
    if ids != [] { MoveAllLeaves(Move(w, p, ids[0], to), p, ids[1..], to, id); }
  }

  /** Terminal states are absorbing over every continuation. */
  lemma {:induction false} TerminalIsAbsorbing(before: seq<Step>, after: seq<Step>, id: CallId)
    requires id in Reached(before).calls && Terminal(Reached(before).calls[id].status)
    ensures id in Reached(before + after).calls && Reached(before + after).calls[id] == Reached(before).calls[id]
    ensures id in Reached(before + after).history && Reached(before + after).history[id] == Reached(before).history[id]
  {
    RunConcat(EMPTY, before, after);
    AbsorbingFrom(Reached(before), after, id);
  }

  lemma {:induction false} AbsorbingFrom(w: World, steps: seq<Step>, id: CallId)
    requires Inv(w) && id in w.calls && Terminal(w.calls[id].status)
    ensures id in Run(w, steps).calls && Run(w, steps).calls[id] == w.calls[id]
    ensures id in Run(w, steps).history && Run(w, steps).history[id] == w.history[id]
    decreases |steps|
  {
    if steps != [] {
      StepKeepsInv(w, steps[0]);
      TerminalStep(w, steps[0], id);
      AbsorbingFrom(Apply(w, steps[0]), steps[1..], id);
    }
  }

  /** Deciding on a stale read and then comparing is as good as deciding on the stored row: when the
      decision on the read passed, the update commits if and only if the decision on the row stored
      at that moment passes too, and then both decide the same status. */
  lemma CommitDecidesOnStoredRow(steps: seq<Step>, p: nat)
    requires p in Reached(steps).tasks && Reached(steps).tasks[p].Deciding?
    ensures var w := Reached(steps);
            var t := w.tasks[p];
            var row := w.calls[t.seen.id];
            var after := Apply(w, CommitChange(p)).calls;
            var onRow := NextStatus(row, t.actor, t.action);
            if NextStatus(t.seen, t.actor, t.action).Ok?
            then after == if onRow.Ok? then w.calls[row.id := row.(status := onRow.value)] else w.calls
            else after == w.calls
  {
    hide EndInv, SignalInv;
  }

  /** A status changes only by a commit of the action for the new status, which NextStatus allows from the stored status
      to that actor, or by an expiry that moves a ringing call to missed. */
  lemma OnlyAllowedMoves(steps: seq<Step>, step: Step, id: CallId)
    requires id in Reached(steps).calls
    ensures var w := Reached(steps);
            var v := Apply(w, step);
            && id in v.calls
            && (v.calls[id] != w.calls[id] ==> Made(w, step, id, v.calls[id].status))
            && (v.calls[id] != w.calls[id] ==>
                  || (&& step.CommitChange? && step.task in w.tasks && w.tasks[step.task].Deciding?
                      && v.calls[id].status in [Accepted, Rejected, Cancelled, Ended, Missed]
                      && NextStatus(w.calls[id], w.tasks[step.task].actor, w.tasks[step.task].action) == Ok(v.calls[id].status))
                  || ((step.FireTimer? || step.ExpireBatch?) && w.calls[id].status.Ringing? && v.calls[id].status.Missed?))
  {
    hide EndInv, SignalInv, MayBecome, HistoryOf, Apply, Run;
    StepRow(Reached(steps), step, id);
    if Apply(Reached(steps), step).calls[id] != Reached(steps).calls[id] { MovedBy(Reached(steps), step, id); }
  }

  /** Only the target accepts or rejects, only the initiator cancels, only a participant hangs up, and a call is missed
      because a participant says so or because it is old enough to expire. */
  lemma WhoMovesACall(steps: seq<Step>, step: Step, id: CallId)
    requires id in Reached(steps).calls && id in Apply(Reached(steps), step).calls
    requires Reached(steps).calls[id] != Apply(Reached(steps), step).calls[id]
    ensures var w := Reached(steps);
            var was, now := w.calls[id], Apply(w, step).calls[id];
            && now == was.(status := now.status)
            && (if step.CommitChange? then
                  && step.task in w.tasks && w.tasks[step.task].Deciding? && w.tasks[step.task].seen.id == id
                  && var actor := w.tasks[step.task].actor;
                     && actor != NoUser
                     && (if was.status.Ringing? then
                           match now.status
                           case Accepted => actor == was.target
                           case Rejected => actor == was.target
                           case Cancelled => actor == was.initiator
                           case Missed => actor == was.target || actor == was.initiator
                           case _ => false
                         else
                           was.status.Accepted? && now.status.Ended? && (actor == was.target || actor == was.initiator))
                else
                  && was.status.Ringing? && now.status.Missed?
                  && ((step.FireTimer? && was.createdAt <= step.now) || (step.ExpireBatch? && was.createdAt <= step.before)))
  {
    hide EndInv, SignalInv, MayBecome, HistoryOf, Apply, Run;
    StepRow(Reached(steps), step, id);
  }

  /** The step commits this action on the call. */
  ghost predicate Commits(w: World, step: Step, id: CallId, action: Action) {
    && step.CommitChange? && step.task in w.tasks && w.tasks[step.task].Deciding?
    && w.tasks[step.task].seen.id == id && w.tasks[step.task].action == action
  }

  /** The step gives the call this status: the commit of the action for it from the status before it, or, for a missed
      call, an expiry. */
  ghost predicate Made(w: World, step: Step, id: CallId, status: Status) {
    && id in w.calls
    && match status
       case Ringing => false
       case Accepted => Commits(w, step, id, Accept) && w.calls[id].status == Ringing
       case Rejected => Commits(w, step, id, Reject) && w.calls[id].status == Ringing
       case Cancelled => Commits(w, step, id, Cancel) && w.calls[id].status == Ringing
       case Ended => Commits(w, step, id, Hangup) && w.calls[id].status == Accepted
       case Missed =>
         (Commits(w, step, id, Miss) || step.FireTimer? || step.ExpireBatch?) && w.calls[id].status == Ringing
  }

  lemma MovedBy(w: World, step: Step, id: CallId)
    requires Inv(w) && id in w.calls && id in Apply(w, step).calls && Apply(w, step).calls[id] != w.calls[id]
    ensures Made(w, step, id, Apply(w, step).calls[id].status)
  {
    hide EndInv, SignalInv, MayBecome, HistoryOf, Apply;
    StepRow(w, step, id);
    if step.CommitChange? {
      var t := w.tasks[step.task];
      NextStatusExactly(w.calls[id], t.actor, t.action);
    }
  }

  lemma NewCallRings(w: World, step: Step, id: CallId)
    requires Inv(w) && id !in w.calls && id in Apply(w, step).calls
    ensures Apply(w, step).calls[id].status == Ringing
  {
    hide EndInv, SignalInv, MayBecome, HistoryOf;
    if step.ExpireBatch? && Enabled(w, step) { BatchKeys(Begin(w, step.task), step.task, step.ids, Missed); }
  }

  lemma {:induction false} BatchKeys(w: World, p: nat, ids: seq<CallId>, to: Status)
    requires w.calls.Keys == w.history.Keys && (forall i | i in ids :: i in w.calls)
    requires p in w.tasks && w.tasks[p].Announcing?
    ensures MoveAll(w, p, ids, to).calls.Keys == w.calls.Keys
    decreases |ids|
  {
    if ids != [] { BatchKeys(Move(w, p, ids[0], to), p, ids[1..], to); }
  }

  lemma RunOne(w: World, step: Step)
    requires Inv(w)
    ensures Run(w, [step]) == Apply(w, step)
  {
    hide Inv, Apply;
    StepKeepsInv(w, step);
    assert [step][1..] == [];
  }

  lemma LastStep(steps: seq<Step>)
    requires steps != []
    ensures Reached(steps) == Apply(Reached(steps[..|steps| - 1]), steps[|steps| - 1])
  {
    hide Inv, Apply, Run;
    var front, last := steps[..|steps| - 1], steps[|steps| - 1];
    assert steps == front + [last];
    RunConcat(EMPTY, front, [last]);
    RunOne(Reached(front), last);
  }

  /** In every run a call is accepted, rejected, cancelled or ended only because that very action was committed on it,
      and missed only because that was committed or because it expired; from then on it keeps that status. */
  lemma {:induction false} StatusTellsAction(steps: seq<Step>, id: CallId) returns (k: nat)
    requires id in Reached(steps).calls && Reached(steps).calls[id].status != Ringing
    ensures k < |steps| && Made(Reached(steps[..k]), steps[k], id, Reached(steps).calls[id].status)
    ensures id in Apply(Reached(steps[..k]), steps[k]).calls
    ensures Apply(Reached(steps[..k]), steps[k]).calls[id] == Reached(steps).calls[id]
    decreases |steps|
  {
    hide Inv, Apply, Made, Run;
    if steps == [] {
      RunNothing();
      assert false;
    }
    var front, last := steps[..|steps| - 1], steps[|steps| - 1];
    LastStep(steps);
    var w := Reached(front);
    if id !in w.calls {
      NewCallRings(w, last, id);
      assert false;
    }
    if Reached(steps).calls[id] == w.calls[id] {
      k := StatusTellsAction(front, id);
      assert front[..k] == steps[..k];
    } else {
      k := |steps| - 1;
      MovedBy(w, last, id);
    }
  }

  lemma RunNothing()
    ensures Reached([]) == EMPTY
  {}

  /** A commit moves the stored row to a status exactly when its action is the one for it, what was read and what is
      stored are in the status it starts from, and its actor may do that. */
  lemma CommitMovesExactly(steps: seq<Step>, p: nat)
    requires p in Reached(steps).tasks && Reached(steps).tasks[p].Deciding?
    ensures var w := Reached(steps);
            var t := w.tasks[p];
            var v := Apply(w, CommitChange(p)).calls;
            && t.seen.id in w.calls && t.seen.id in v
            && var was, now := w.calls[t.seen.id], v[t.seen.id];
               var rings := t.seen.status == was.status == Ringing;
               var member := t.actor != NoUser && (t.actor == was.initiator || t.actor == was.target);
               && now == was.(status := now.status)
               && (was.status != now.status == Accepted <==> t.action == Accept && rings && t.actor == was.target != NoUser)
               && (was.status != now.status == Rejected <==> t.action == Reject && rings && t.actor == was.target != NoUser)
               && (was.status != now.status == Cancelled <==> t.action == Cancel && rings && t.actor == was.initiator != NoUser)
               && (was.status != now.status == Missed <==> t.action == Miss && rings && member)
               && (was.status != now.status == Ended <==> t.action == Hangup && t.seen.status == was.status == Accepted && member)
               && (now.status == Ringing ==> was.status == Ringing)
  {
    hide EndInv, SignalInv, MayBecome, HistoryOf, Apply, Run, NextStatus;
    var w := Reached(steps);
    var t := w.tasks[p];
    SeenRow(w, p);
    StepRow(w, CommitChange(p), t.seen.id);
    NextStatusExactly(w.calls[t.seen.id], t.actor, t.action);
  }

  lemma SeenRow(w: World, p: nat)
    requires Inv(w) && p in w.tasks && !w.tasks[p].Announcing?
    ensures w.tasks[p].seen.id in w.calls
  {
    hide EndInv, SignalInv, MayBecome;
  }

  lemma {:induction false} MoveAllMoves(w: World, p: nat, ids: seq<CallId>, to: Status, id: CallId)
    requires w.calls.Keys == w.history.Keys && (forall i | i in ids :: i in w.calls)
    requires p in w.tasks && w.tasks[p].Announcing?
    requires id in ids && Distinct(ids)
    ensures id in MoveAll(w, p, ids, to).calls && MoveAll(w, p, ids, to).calls[id] == w.calls[id].(status := to)
    decreases |ids|
  {
    if ids[0] == id { MoveAllLeaves(Move(w, p, ids[0], to), p, ids[1..], to, id); }
    else { MoveAllMoves(Move(w, p, ids[0], to), p, ids[1..], to, id); }
  }

  /** Each call gets at most one call message and at most one terminal notification, both tell the
      status it ended in, and the message says "completed" exactly for an ended call. */
  lemma AnnouncedAtMostOnce(steps: seq<Step>)
    ensures var w := Reached(steps);
            && (forall i, j | 0 <= i < |w.announced| && 0 <= j < |w.announced| &&
                              w.announced[i].call.id == w.announced[j].call.id &&
                              w.announced[i].CallMessage? == w.announced[j].CallMessage? :: i == j)
            && (forall e | e in w.announced ::
                  && e.call.id in w.calls && w.calls[e.call.id] == e.call && Terminal(e.call.status)
                  && MessageStatus(e.call) == if w.history[e.call.id] == [Ringing, Accepted, Ended] then "completed" else "missed")
  {
    var w := Reached(steps);
    forall i, j | 0 <= i < |w.announced| && 0 <= j < |w.announced| &&
                  w.announced[i].call.id == w.announced[j].call.id &&
                  w.announced[i].CallMessage? == w.announced[j].CallMessage?
      ensures i == j
    {
      assert w.announced[i] in w.tried && w.announced[j] in w.tried;
      assert Final(w, w.announced[i]) && Final(w, w.announced[j]);
      assert w.announced[i] == w.announced[j];
    }
    forall e | e in w.announced ensures Final(w, e) { assert e in w.tried; }
  }

  /** When no write fails and no task is left half-way, an ended call has its message, and its notice, exactly when
      the task that ended it did not give that up. */
  lemma EveryEndIsAnnounced(steps: seq<Step>, id: CallId)
    requires forall s | s in steps && s.Announce? :: s.delivered
    requires forall p | p in Reached(steps).tasks :: Reached(steps).tasks[p] == Announcing([])
    requires id in Reached(steps).calls && Terminal(Reached(steps).calls[id].status)
    ensures var w := Reached(steps);
            forall e | e == CallMessage(w.calls[id]) || e == TerminalNotice(w.calls[id]) :: e in w.announced <==> e !in w.lost
  {
    var w := Reached(steps);
    AllDelivered(EMPTY, steps);
    assert Final(w, CallMessage(w.calls[id])) && Final(w, TerminalNotice(w.calls[id]));
  }

  lemma {:induction false} AllDelivered(w: World, steps: seq<Step>)
    requires Inv(w) && (forall s | s in steps && s.Announce? :: s.delivered)
    requires forall e | e in w.tried :: e in w.announced
    ensures forall e | e in Run(w, steps).tried :: e in Run(w, steps).announced
    decreases |steps|
  {
    if steps != [] {
      StepKeepsInv(w, steps[0]);
      if !steps[0].Announce? { MoveAllTriesNothing(w, steps[0]); }
      AllDelivered(Apply(w, steps[0]), steps[1..]);
    }
  }

  lemma MoveAllTriesNothing(w: World, step: Step)
    requires Inv(w) && !step.Announce?
    ensures Apply(w, step).tried == w.tried && Apply(w, step).announced == w.announced
  {
    if step.ExpireBatch? && Enabled(w, step) { MoveAllFrame(Begin(w, step.task), step.task, step.ids, Missed); }
  }

  lemma {:induction false} MoveAllFrame(w: World, p: nat, ids: seq<CallId>, to: Status)
    requires w.calls.Keys == w.history.Keys && (forall i | i in ids :: i in w.calls)
    requires p in w.tasks && w.tasks[p].Announcing?
    ensures MoveAll(w, p, ids, to).tried == w.tried && MoveAll(w, p, ids, to).announced == w.announced
    ensures MoveAll(w, p, ids, to).signals == w.signals
    decreases |ids|
  {
    if ids != [] { MoveAllFrame(Move(w, p, ids[0], to), p, ids[1..], to); }
  }

  /** A stored signal was sent by a participant of a call that had been accepted: offers by the
      initiator, answers and readiness by the target. */
  lemma SignalsFollowAcceptance(steps: seq<Step>, s: Signal)
    requires s in Reached(steps).signals
    ensures s.callId in Reached(steps).calls && s.callId in Reached(steps).history
    ensures Accepted in Reached(steps).history[s.callId]
    ensures IsParticipant(Reached(steps).calls[s.callId], s.sender)
    ensures s.kind.Offer? ==> s.sender == Reached(steps).calls[s.callId].initiator
    ensures s.kind.Answer? || s.kind.Ready? ==> s.sender == Reached(steps).calls[s.callId].target
  {
    var w := Reached(steps);
    assert w.history[s.callId] == HistoryOf(w.calls[s.callId].status);
  }

  lemma TwoSteps(w: World, a: Step, b: Step) returns (v: World)
    requires Inv(w)
    ensures v == Run(w, [a, b]) && Inv(v)
    ensures Inv(Apply(w, a)) && v == Apply(Apply(w, a), b)
  {
    StepKeepsInv(w, a);
    StepKeepsInv(Apply(w, a), b);
    var rest := [b];
    assert [a, b][1..] == rest && rest[1..] == [];
    assert Run(Apply(w, a), rest) == Run(Apply(Apply(w, a), b), []);
    v := Run(w, [a, b]);
  }

  lemma BothRead(w: World, id: CallId, p: nat, q: nat, user: User, kind: SignalKind) returns (v: World)
    requires Inv(w) && id in w.calls && p != q && p !in w.tasks && q !in w.tasks
    ensures v == Run(w, [ReadForSignal(p, id, user, kind), ReadForChange(q, id, user, Hangup)]) && Inv(v)
    ensures v.calls == w.calls && v.signals == w.signals && v.calls.Keys == v.history.Keys && v.calls[id].id == id
    ensures forall q | q in v.tasks && !v.tasks[q].Announcing? :: v.tasks[q].seen.id in v.calls
    ensures v.tasks == w.tasks[p := Signalling(w.calls[id], user, kind)][q := Deciding(w.calls[id], user, Hangup)]
  {
    v := TwoSteps(w, ReadForSignal(p, id, user, kind), ReadForChange(q, id, user, Hangup));
  }

  lemma HangupThenStore(w: World, id: CallId, p: nat, q: nat, user: User, kind: SignalKind)
    requires w.calls.Keys == w.history.Keys
    requires forall p | p in w.tasks && !w.tasks[p].Announcing? :: w.tasks[p].seen.id in w.calls
    requires id in w.calls && w.calls[id].id == id && CheckSignal(w.calls[id], user, kind).Ok?
    requires p != q && p in w.tasks && q in w.tasks
    requires w.tasks[p] == Signalling(w.calls[id], user, kind) && w.tasks[q] == Deciding(w.calls[id], user, Hangup)
    ensures var v := Apply(w, CommitChange(q));
            && id in v.calls && v.calls[id].status == Ended && v.calls.Keys == v.history.Keys
            && (forall p | p in v.tasks && !v.tasks[p].Announcing? :: v.tasks[p].seen.id in v.calls)
            && p in v.tasks && v.tasks[p] == Signalling(w.calls[id], user, kind)
            && Apply(v, StoreSignal(p)).signals == w.signals + [Signal(id, user, kind)]
            && Apply(v, StoreSignal(p)).calls == v.calls
  {
    var v := Apply(w, CommitChange(q));
    assert v.calls == w.calls[id := w.calls[id].(status := Ended)] && v.signals == w.signals;
  }

  /** The status check is only as fresh as the read: whenever a call is accepted, a signal whose check passed can
      still be stored after a hangup ended the call. */
  lemma LateSignal(w: World, id: CallId, p: nat, q: nat, user: User, kind: SignalKind)
    requires Inv(w) && id in w.calls && CheckSignal(w.calls[id], user, kind).Ok?
    requires p != q && p !in w.tasks && q !in w.tasks
    ensures var v := Run(w, [ReadForSignal(p, id, user, kind), ReadForChange(q, id, user, Hangup)]
                            + [CommitChange(q), StoreSignal(p)]);
            v.signals == w.signals + [Signal(id, user, kind)] && id in v.calls && v.calls[id].status == Ended
  {
    hide Inv;
    var begun := [ReadForSignal(p, id, user, kind), ReadForChange(q, id, user, Hangup)];
    RunConcat(w, begun, [CommitChange(q), StoreSignal(p)]);
    var w2 := BothRead(w, id, p, q, user, kind);
    var w4 := TwoSteps(w2, CommitChange(q), StoreSignal(p));
    HangupThenStore(w2, id, p, q, user, kind);
  }

  /** What one announcement does. */
  lemma AnnounceOne(w: World, p: nat, delivered: bool, e: Effect, rest: seq<Effect>)
    requires Inv(w) && p in w.tasks && w.tasks[p] == Announcing([e] + rest)
    ensures var v := Apply(w, Announce(p, delivered));
            && p in v.tasks && v.tasks[p] == Announcing(rest) && v.calls == w.calls && v.signals == w.signals
            && v.announced == w.announced + if delivered then [e] else []
  {
    hide EndInv, SignalInv;
    assert ([e] + rest)[1..] == rest && ([e] + rest)[0] == e;
  }

  /** What a read and the commit that follows it at once do. */
  lemma ReadThenCommit(w: World, p: nat, id: CallId, actor: User, action: Action)
    requires Inv(w) && p !in w.tasks && id in w.calls
    ensures var v := Run(w, [ReadForChange(p, id, actor, action), CommitChange(p)]);
            var next := NextStatus(w.calls[id], actor, action);
            && p in v.tasks && v.announced == w.announced && v.signals == w.signals
            && (next.Ok? ==>
                  var updated := w.calls[id].(status := next.value);
                  && v.calls == w.calls[id := updated]
                  && v.tasks[p] == Announcing(if Terminal(next.value) then [CallMessage(updated), TerminalNotice(updated)] else []))
            && (next.Err? ==> v.calls == w.calls && v.tasks[p] == Announcing([]))
  {
    ReadOnce(w, p, id, actor, action);
    StepKeepsInv(w, ReadForChange(p, id, actor, action));
    CommitNow(Apply(w, ReadForChange(p, id, actor, action)), p, id, actor, action);
    hide Inv, Apply, Run;
    var v := TwoSteps(w, ReadForChange(p, id, actor, action), CommitChange(p));
  }

  lemma ReadOnce(w: World, p: nat, id: CallId, actor: User, action: Action)
    requires Inv(w) && p !in w.tasks && id in w.calls
    ensures var v := Apply(w, ReadForChange(p, id, actor, action));
            && v.calls == w.calls && v.announced == w.announced && v.signals == w.signals && w.calls[id].id == id
            && p in v.tasks && v.tasks[p] == Deciding(w.calls[id], actor, action)
  {
    hide EndInv, SignalInv, MayBecome;
  }

  lemma CommitNow(w: World, p: nat, id: CallId, actor: User, action: Action)
    requires Inv(w) && id in w.calls && w.calls[id].id == id && p in w.tasks && w.tasks[p] == Deciding(w.calls[id], actor, action)
    ensures var v := Apply(w, CommitChange(p));
            var next := NextStatus(w.calls[id], actor, action);
            && p in v.tasks && v.announced == w.announced && v.signals == w.signals
            && (next.Ok? ==>
                  var updated := w.calls[id].(status := next.value);
                  && v.calls == w.calls[id := updated]
                  && v.tasks[p] == Announcing(if Terminal(next.value) then [CallMessage(updated), TerminalNotice(updated)] else []))
            && (next.Err? ==> v.calls == w.calls && v.tasks[p] == Announcing([]))
  {
    hide EndInv, SignalInv, MayBecome;
  }

  /** What a read and the insert that follows it at once do. */
  lemma ReadThenStore(w: World, p: nat, id: CallId, actor: User, kind: SignalKind)
    requires Inv(w) && p !in w.tasks && id in w.calls
    ensures var v := Run(w, [ReadForSignal(p, id, actor, kind), StoreSignal(p)]);
            && v.calls == w.calls && v.announced == w.announced
            && v.signals == w.signals + if CheckSignal(w.calls[id], actor, kind).Ok? then [Signal(id, actor, kind)] else []
  {
    hide EndInv, SnapshotInv, SignalInv;
    var v := TwoSteps(w, ReadForSignal(p, id, actor, kind), StoreSignal(p));
  }

  function Announcements(calls: seq<Call>): seq<Effect> {
    if calls == [] then [] else [CallMessage(calls[0]), TerminalNotice(calls[0])] + Announcements(calls[1..])
  }

  /** The rows a batch expiry returns. */
  function Missing(calls: map<CallId, Call>, ids: seq<CallId>): (r: seq<Call>)
    requires forall id | id in ids :: id in calls
    ensures |r| == |ids| && forall i | 0 <= i < |ids| :: r[i] == calls[ids[i]].(status := Missed)
  {
    seq(|ids|, i requires 0 <= i < |ids| => calls[ids[i]].(status := Missed))
  }

  /** A batch moves exactly its rows, and its task has exactly those calls to announce. */
  lemma {:induction false} BatchMoves(w: World, p: nat, ids: seq<CallId>)
    requires w.calls.Keys == w.history.Keys && Distinct(ids) && (forall id | id in ids :: id in w.calls)
    requires p in w.tasks && w.tasks[p].Announcing?
    ensures var v := MoveAll(w, p, ids, Missed);
            && v.calls == (map id | id in w.calls :: if id in ids then w.calls[id].(status := Missed) else w.calls[id])
            && p in v.tasks && v.tasks[p] == Announcing(w.tasks[p].effects + Announcements(Missing(w.calls, ids)))
            && v.announced == w.announced && v.signals == w.signals
    decreases |ids|
  {
    MoveAllFrame(w, p, ids, Missed);
    if ids == [] {
      assert w.tasks[p].effects + [] == w.tasks[p].effects;
    } else {
      var v := Move(w, p, ids[0], Missed);
      BatchMoves(v, p, ids[1..]);
      assert Missing(v.calls, ids[1..]) == Missing(w.calls, ids)[1..];
      assert forall id :: id in ids <==> id == ids[0] || id in ids[1..];
      assert v.tasks[p].effects + Announcements(Missing(w.calls, ids)[1..])
          == w.tasks[p].effects + Announcements(Missing(w.calls, ids));
    }
  }
}

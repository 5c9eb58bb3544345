/** The API client's requests and their shared token refresh, as an event loop interleaves them. */
module HttpClient {
  import opened Wrappers
  import opened GoText

  /** What the promise of refreshAccessToken settles to; only Fresh is a truthy token. */
  datatype Outcome = Fresh | NoToken | Rejected

  datatype RefreshState = Threw | Pending | Settled(outcome: Outcome) | Cleared(outcome: Outcome)

  /** One call of refreshAccessToken, the request that made it, and whether it threw, is unresolved, has settled,
      or has settled and had its `finally` callback run. */
  datatype Refresh = Refresh(starter: nat, state: RefreshState)

  datatype End = Response(status: int) | NetworkError | RefreshThrew | RefreshRejected

  /** `retry` is the second fetch, the one with `didRefresh` in its options. */
  datatype Phase = Fetching(retry: bool) | Waiting(serial: nat) | Ended(end: End)

  /** A call of `request`: how many fetches it made, whether its first one answered 401, the refresh it joined
      and what it heard from it. */
  datatype Request = Request(auth: bool, phase: Phase, fetches: int, got401: bool, joined: Option<nat>, heard: Option<Outcome>)

  /** `refreshPromise` is the client's field; a number stands for the promise of that refresh. */
  datatype World = World(canRefresh: bool, refreshPromise: Option<nat>, refreshes: seq<Refresh>, requests: seq<Request>)

  function Empty(canRefresh: bool): World { World(canRefresh, None, [], []) }

  datatype Step =
    | Start(auth: bool)
    | FetchAnswers(request: nat, status: int, throws: bool)
    | FetchFails(request: nat)
    | RefreshSettles(serial: nat, outcome: Outcome)
    | FinallyRuns(serial: nat)
    | Resume(request: nat)

  /** Promise callbacks run only after what they wait for. */
  predicate Enabled(w: World, step: Step) {
    match step
    case Start(_) => true
    case FetchAnswers(i, _, _) => i < |w.requests| && w.requests[i].phase.Fetching?
    case FetchFails(i) => i < |w.requests| && w.requests[i].phase.Fetching?
    case RefreshSettles(s, _) => s < |w.refreshes| && w.refreshes[s].state.Pending?
    case FinallyRuns(s) => s < |w.refreshes| && w.refreshes[s].state.Settled?
    case Resume(i) =>
      && i < |w.requests| && w.requests[i].phase.Waiting?
      && w.requests[i].phase.serial < |w.refreshes| && w.refreshes[w.requests[i].phase.serial].state.Cleared?
  }

  /** The condition under which `request` calls refreshOnce. */
  predicate Refreshes(w: World, r: Request, status: int) {
    status == 401 && r.auth && r.phase == Fetching(false) && w.canRefresh
  }

  function Finish(w: World, i: nat, r: Request, end: End): World
    requires i < |w.requests|
  {
    w.(requests := w.requests[i := r.(phase := Ended(end))])
  }

  /** refreshOnce: join the refresh in the field, or call refreshAccessToken and store its promise. */
  function RefreshOnce(w: World, i: nat, r: Request, throws: bool): World
    requires i < |w.requests|
  {
    if w.refreshPromise.Some? then
      w.(requests := w.requests[i := r.(phase := Waiting(w.refreshPromise.value), joined := w.refreshPromise)])
    else
      var s := |w.refreshes|;
      if throws then
        w.(refreshes := w.refreshes + [Refresh(i, Threw)], requests := w.requests[i := r.(phase := Ended(RefreshThrew), joined := Some(s))])
      else
        w.(refreshes := w.refreshes + [Refresh(i, Pending)], refreshPromise := Some(s),
           requests := w.requests[i := r.(phase := Waiting(s), joined := Some(s))])
  }

  function AfterFetch(w: World, i: nat, status: int, throws: bool): World
    requires i < |w.requests|
  {
    var r := w.requests[i];
    var r' := if r.phase == Fetching(false) && status == 401 then r.(got401 := true) else r;
    if Refreshes(w, r, status) then RefreshOnce(w, i, r', throws) else Finish(w, i, r', Response(status))
  }

  function AfterResume(w: World, i: nat, outcome: Outcome): World
    requires i < |w.requests|
  {
    var r := w.requests[i].(heard := Some(outcome));
    match outcome
    case Fresh => w.(requests := w.requests[i := r.(phase := Fetching(true), fetches := r.fetches + 1)])
    case NoToken => Finish(w, i, r, Response(401))
    case Rejected => Finish(w, i, r, RefreshRejected)
  }

  function Apply(w: World, step: Step): World {
    if !Enabled(w, step) then w
    else match step
      case Start(auth) => w.(requests := w.requests + [Request(auth, Fetching(false), 1, false, None, None)])
      case FetchAnswers(i, status, throws) => AfterFetch(w, i, status, throws)
      case FetchFails(i) => Finish(w, i, w.requests[i], NetworkError)
      case RefreshSettles(s, outcome) => w.(refreshes := w.refreshes[s := w.refreshes[s].(state := Settled(outcome))])
      case FinallyRuns(s) =>
        w.(refreshes := w.refreshes[s := w.refreshes[s].(state := Cleared(w.refreshes[s].state.outcome))], refreshPromise := None)
      case Resume(i) => AfterResume(w, i, w.refreshes[w.requests[i].phase.serial].state.outcome)
  }

  // ---------------------------------------------------------------- what every step keeps

  predicate Open(state: RefreshState) { state.Pending? || state.Settled? }

  /** The field holds the one refresh that is open, and each refresh was started by a request of its own. */
  ghost predicate RefreshOk(w: World, s: nat) {
    s < |w.refreshes| ==>
      && (Open(w.refreshes[s].state) <==> w.refreshPromise == Some(s))
      && w.refreshes[s].starter < |w.requests|
      && var r := w.requests[w.refreshes[s].starter]; r.auth && r.got401 && r.joined == Some(s)
  }

  ghost predicate FieldOk(w: World) { w.refreshPromise.Some? ==> w.refreshPromise.value < |w.refreshes| }

  ghost predicate Joined(w: World, r: Request) {
    r.auth && r.got401 && r.joined.Some? && r.joined.value < |w.refreshes|
  }

  /** What a request has heard is what its refresh settled to. */
  ghost predicate Heard(w: World, r: Request) {
    Joined(w, r) && r.heard.Some? && w.refreshes[r.joined.value].state == Cleared(r.heard.value)
  }

  ghost predicate RequestOk(w: World, i: nat) {
    i < |w.requests| ==>
      var r := w.requests[i];
      match r.phase
      case Fetching(retry) =>
        if retry then r.fetches == 2 && Heard(w, r) && r.heard == Some(Fresh)
        else r.fetches == 1 && !r.got401 && r.joined.None? && r.heard.None?
      case Waiting(s) =>
        r.fetches == 1 && Joined(w, r) && r.joined == Some(s) && r.heard.None? && !w.refreshes[s].state.Threw?
      case Ended(_) =>
        && 1 <= r.fetches <= 2 && (r.joined.Some? ==> Joined(w, r)) && (r.heard.Some? ==> Heard(w, r))
        && (r.fetches == 2 <==> r.heard == Some(Fresh))
  }

  ghost predicate Inv(w: World) {
    FieldOk(w) && (forall s :: RefreshOk(w, s)) && (forall i :: RequestOk(w, i))
  }

  lemma FieldKept(w: World, step: Step)
    requires FieldOk(w)
    ensures FieldOk(Apply(w, step))
  {}


  lemma StartKeepsRefresh(w: World, step: Step, s: nat)
    requires step.Start? && Enabled(w, step) && FieldOk(w) && RefreshOk(w, s)
    ensures RefreshOk(Apply(w, step), s)
  {}

  lemma StartKeepsRequest(w: World, step: Step, i: nat)
    requires step.Start? && Enabled(w, step) && FieldOk(w) && RequestOk(w, i)
    ensures RequestOk(Apply(w, step), i)
  {}

  lemma FetchAnswersKeepsRefresh(w: World, step: Step, s: nat)
    requires step.FetchAnswers? && Enabled(w, step) && FieldOk(w) && RefreshOk(w, s) && RequestOk(w, step.request)
    ensures RefreshOk(Apply(w, step), s)
  {}

  lemma FetchAnswersKeepsRequest(w: World, step: Step, i: nat)
    requires step.FetchAnswers? && Enabled(w, step) && FieldOk(w) && RequestOk(w, i) && RequestOk(w, step.request)
    requires w.refreshPromise.Some? ==> RefreshOk(w, w.refreshPromise.value)
    ensures RequestOk(Apply(w, step), i)
  {}

  lemma FetchFailsKeepsRefresh(w: World, step: Step, s: nat)
    requires step.FetchFails? && Enabled(w, step) && FieldOk(w) && RefreshOk(w, s) && RequestOk(w, step.request)
    ensures RefreshOk(Apply(w, step), s)
  {}

  lemma FetchFailsKeepsRequest(w: World, step: Step, i: nat)
    requires step.FetchFails? && Enabled(w, step) && FieldOk(w) && RequestOk(w, i) && RequestOk(w, step.request)
    ensures RequestOk(Apply(w, step), i)
  {}

  lemma RefreshSettlesKeepsRefresh(w: World, step: Step, s: nat)
    requires step.RefreshSettles? && Enabled(w, step) && FieldOk(w) && RefreshOk(w, s) && RefreshOk(w, step.serial)
    ensures RefreshOk(Apply(w, step), s)
  {}

  lemma RefreshSettlesKeepsRequest(w: World, step: Step, i: nat)
    requires step.RefreshSettles? && Enabled(w, step) && FieldOk(w) && RequestOk(w, i) && RefreshOk(w, step.serial)
    ensures RequestOk(Apply(w, step), i)
  {}

  lemma FinallyRunsKeepsRefresh(w: World, step: Step, s: nat)
    requires step.FinallyRuns? && Enabled(w, step) && FieldOk(w) && RefreshOk(w, s) && RefreshOk(w, step.serial)
    ensures RefreshOk(Apply(w, step), s)
  {}

  lemma FinallyRunsKeepsRequest(w: World, step: Step, i: nat)
    requires step.FinallyRuns? && Enabled(w, step) && FieldOk(w) && RequestOk(w, i) && RefreshOk(w, step.serial)
    ensures RequestOk(Apply(w, step), i)
  {}

  lemma ResumeKeepsRefresh(w: World, step: Step, s: nat)
    requires step.Resume? && Enabled(w, step) && FieldOk(w) && RefreshOk(w, s) && RequestOk(w, step.request)
    ensures RefreshOk(Apply(w, step), s)
  {}

  lemma ResumeKeepsRequest(w: World, step: Step, i: nat)
    requires step.Resume? && Enabled(w, step) && FieldOk(w) && RequestOk(w, i) && RequestOk(w, step.request)
    ensures RequestOk(Apply(w, step), i)
  {}

  lemma StepKeepsRefresh(w: World, step: Step, s: nat)
    requires Inv(w)
    ensures RefreshOk(Apply(w, step), s)
  {
    assert RefreshOk(w, s);
    if Enabled(w, step) {
      match step
      case Start(_) => hide *; StartKeepsRefresh(w, step, s);
      case FetchAnswers(i, _, _) => assert RequestOk(w, i); hide *; FetchAnswersKeepsRefresh(w, step, s);
      case FetchFails(i) => assert RequestOk(w, i); hide *; FetchFailsKeepsRefresh(w, step, s);
      case RefreshSettles(t, _) => assert RefreshOk(w, t); hide *; RefreshSettlesKeepsRefresh(w, step, s);
      case FinallyRuns(t) => assert RefreshOk(w, t); hide *; FinallyRunsKeepsRefresh(w, step, s);
      case Resume(i) => assert RequestOk(w, i); hide *; ResumeKeepsRefresh(w, step, s);
    }
  }

  lemma StepKeepsRequest(w: World, step: Step, i: nat)
    requires Inv(w)
    ensures RequestOk(Apply(w, step), i)
  {
    assert RequestOk(w, i);
    if Enabled(w, step) {
      match step
      case Start(_) => hide *; StartKeepsRequest(w, step, i);
      case FetchAnswers(j, _, _) =>
        assert RequestOk(w, j) && (w.refreshPromise.Some? ==> RefreshOk(w, w.refreshPromise.value));
        hide *; FetchAnswersKeepsRequest(w, step, i);
      case FetchFails(j) => assert RequestOk(w, j); hide *; FetchFailsKeepsRequest(w, step, i);
      case RefreshSettles(t, _) => assert RefreshOk(w, t); hide *; RefreshSettlesKeepsRequest(w, step, i);
      case FinallyRuns(t) => assert RefreshOk(w, t); hide *; FinallyRunsKeepsRequest(w, step, i);
      case Resume(j) => assert RequestOk(w, j); hide *; ResumeKeepsRequest(w, step, i);
    }
  }

  lemma StepKeepsInv(w: World, step: Step)
    requires Inv(w)
    ensures Inv(Apply(w, step))
  {
    hide Apply, RefreshOk, RequestOk, FieldOk;
    FieldKept(w, step);
    forall s ensures RefreshOk(Apply(w, step), s) { StepKeepsRefresh(w, step, s); }
    forall i ensures RequestOk(Apply(w, step), i) { StepKeepsRequest(w, step, i); }
  }

  ghost function Run(w: World, steps: seq<Step>): (r: World)
    requires Inv(w)
    ensures Inv(r)
    decreases |steps|
  {
    hide Apply, Inv;
    if steps == [] then w
    else
      StepKeepsInv(w, steps[0]);
      Run(Apply(w, steps[0]), steps[1..])
  }

  lemma EmptyInv(canRefresh: bool)
    ensures Inv(Empty(canRefresh))
  {}

  /** Every state the event loop can reach, whatever the order of events. */
  ghost function Reached(canRefresh: bool, steps: seq<Step>): (w: World)
    ensures Inv(w)
  {
    EmptyInv(canRefresh);
    Run(Empty(canRefresh), steps)
  }

  // ---------------------------------------------------------------- over every run

  /** At most one call of refreshAccessToken is unresolved. */
  lemma AtMostOneUnresolved(canRefresh: bool, steps: seq<Step>, s: nat, t: nat)
    requires var w := Reached(canRefresh, steps); s < |w.refreshes| && t < |w.refreshes|
    requires var w := Reached(canRefresh, steps); w.refreshes[s].state.Pending? && w.refreshes[t].state.Pending?
    ensures s == t
  {
    hide Run;
    assert RefreshOk(Reached(canRefresh, steps), s) && RefreshOk(Reached(canRefresh, steps), t);
  }

  /** Requests that joined the same refresh hear the same outcome, the one it settled to. */
  lemma SameOutcome(canRefresh: bool, steps: seq<Step>, i: nat, j: nat)
    requires var w := Reached(canRefresh, steps); i < |w.requests| && j < |w.requests|
    requires var w := Reached(canRefresh, steps);
             w.requests[i].heard.Some? && w.requests[j].heard.Some? && w.requests[i].joined == w.requests[j].joined
    ensures var w := Reached(canRefresh, steps);
            && w.requests[i].heard == w.requests[j].heard
            && w.requests[i].joined.Some? && w.requests[i].joined.value < |w.refreshes|
            && w.refreshes[w.requests[i].joined.value].state == Cleared(w.requests[i].heard.value)
  {
    hide Run;
    var w := Reached(canRefresh, steps);
    assert RequestOk(w, i) && RequestOk(w, j);
  }

  /** A request makes at most two fetches, the second only after its refresh gave a token. */
  lemma AtMostTwoFetches(canRefresh: bool, steps: seq<Step>, i: nat)
    requires i < |Reached(canRefresh, steps).requests|
    ensures var r := Reached(canRefresh, steps).requests[i];
            1 <= r.fetches <= 2 && (r.fetches == 2 <==> r.heard == Some(Fresh)) && (r.heard.Some? ==> r.auth && r.got401)
  {
    hide Run;
    assert RequestOk(Reached(canRefresh, steps), i);
  }

  /** A request joins one refresh at most, and a settled outcome stays. */
  lemma JoinedAndSettledStay(w: World, step: Step, i: nat, s: nat)
    requires Inv(w) && i < |w.requests| && s < |w.refreshes|
    ensures var w' := Apply(w, step);
            && i < |w'.requests| && (w.requests[i].joined.Some? ==> w'.requests[i].joined == w.requests[i].joined)
            && s < |w'.refreshes| && w'.refreshes[s].starter == w.refreshes[s].starter
            && (w.refreshes[s].state.Settled? || w.refreshes[s].state.Cleared? ==>
                  (w'.refreshes[s].state.Settled? || w'.refreshes[s].state.Cleared?) && w'.refreshes[s].state.outcome == w.refreshes[s].state.outcome)
  {
    assert RequestOk(w, i);
  }

  /** A request joins a refresh exactly when its first, authenticated fetch answers 401 and the client can refresh; it
      starts one exactly when none is open; otherwise the response ends it. */
  lemma RefreshesExactly(w: World, i: nat, status: int, throws: bool)
    requires Inv(w) && Enabled(w, FetchAnswers(i, status, throws))
    ensures var w' := Apply(w, FetchAnswers(i, status, throws));
            var first := w.requests[i].fetches == 1;
            && i < |w'.requests|
            && var r' := w'.requests[i];
               var refreshes := status == 401 && w.requests[i].auth && first && w.canRefresh;
               && (!refreshes ==> r'.phase == Ended(Response(status)) && w'.refreshes == w.refreshes)
               && (refreshes && w.refreshPromise.Some? ==>
                     r'.phase == Waiting(w.refreshPromise.value) && r'.joined == w.refreshPromise && w'.refreshes == w.refreshes)
               && (refreshes && w.refreshPromise.None? ==>
                     && |w'.refreshes| == |w.refreshes| + 1 && w'.refreshes[|w.refreshes|].starter == i
                     && r'.joined == Some(|w.refreshes|) && (r'.phase.Waiting? <==> !throws))
  {
    assert RequestOk(w, i);
    hide Inv, RequestOk;
  }

  // ---------------------------------------------------------------- how many refreshes

  /** The authenticated requests whose first fetch answered 401. */
  ghost function Unauthorized(w: World): set<nat> { set i: nat | i < |w.requests| && w.requests[i].auth && w.requests[i].got401 }

  ghost function Starters(w: World, n: nat): set<nat>
    requires n <= |w.refreshes|
  {
    if n == 0 then {} else Starters(w, n - 1) + {w.refreshes[n - 1].starter}
  }

  lemma {:induction false} StartersCount(w: World, n: nat)
    requires Inv(w) && n <= |w.refreshes|
    ensures |Starters(w, n)| == n && Starters(w, n) <= Unauthorized(w)
    ensures forall i | i in Starters(w, n) :: i < |w.requests| && w.requests[i].joined.Some? && w.requests[i].joined.value < n
  {
    if n > 0 {
      StartersCount(w, n - 1);
      assert RefreshOk(w, n - 1);
    }
  }

  /** refreshAccessToken is called no more often than authenticated requests receive 401. */
  lemma RefreshesCount(canRefresh: bool, steps: seq<Step>)
    ensures |Reached(canRefresh, steps).refreshes| <= |Unauthorized(Reached(canRefresh, steps))|
  {
    hide Run, Inv;
    var w := Reached(canRefresh, steps);
    StartersCount(w, |w.refreshes|);
    Fewer(Starters(w, |w.refreshes|), Unauthorized(w));
  }

  lemma {:induction false} Fewer(a: set<nat>, b: set<nat>)
    requires a <= b
    ensures |a| <= |b|
  {
    if a != {} {
      var x :| x in a;
      Fewer(a - {x}, b - {x});
    }
  }

  // ---------------------------------------------------------------- every request ends

  function RequestWork(rs: seq<Request>): nat {
    if rs == [] then 0 else RequestWork(rs[..|rs| - 1]) + Rank(rs[|rs| - 1].phase)
  }

  function Rank(phase: Phase): nat {
    match phase
    case Fetching(retry) => if retry then 1 else 5
    case Waiting(_) => 2
    case Ended(_) => 0
  }

  function RefreshRank(r: Refresh): nat {
    if r.state.Pending? then 2 else if r.state.Settled? then 1 else 0
  }

  function RefreshWork(rs: seq<Refresh>): nat {
    if rs == [] then 0 else RefreshWork(rs[..|rs| - 1]) + RefreshRank(rs[|rs| - 1])
  }

  /** How many more events the client can go through before all its requests have ended. */
  function Work(w: World): nat { RequestWork(w.requests) + RefreshWork(w.refreshes) }

  lemma {:induction false} RequestWorkUpdate(rs: seq<Request>, i: nat, r: Request)
    requires i < |rs|
    ensures RequestWork(rs[i := r]) == RequestWork(rs) - Rank(rs[i].phase) + Rank(r.phase)
    decreases |rs|
  {
    var n := |rs| - 1;
    if i == n {
      assert rs[i := r][..n] == rs[..n];
    } else {
      assert rs[i := r][..n] == rs[..n][i := r];
      RequestWorkUpdate(rs[..n], i, r);
    }
  }

  lemma {:induction false} RefreshWorkUpdate(rs: seq<Refresh>, i: nat, r: Refresh)
    requires i < |rs|
    ensures RefreshWork(rs[i := r]) == RefreshWork(rs) - RefreshRank(rs[i]) + RefreshRank(r)
    decreases |rs|
  {
    var n := |rs| - 1;
    if i == n {
      assert rs[i := r][..n] == rs[..n];
    } else {
      assert rs[i := r][..n] == rs[..n][i := r];
      RefreshWorkUpdate(rs[..n], i, r);
    }
  }

  /** Every event but the start of a new request leaves less to do. */
  lemma StepDoesWork(w: World, step: Step)
    requires Inv(w) && Enabled(w, step) && !step.Start?
    ensures Work(Apply(w, step)) < Work(w)
  {
    hide Inv, RequestWork, RefreshWork;
    var w' := Apply(w, step);
    match step
    case FetchAnswers(i, status, throws) =>
      RequestWorkUpdate(w.requests, i, w'.requests[i]);
      assert w'.requests == w.requests[i := w'.requests[i]];
      if w'.refreshes != w.refreshes {
        assert w'.refreshes == w.refreshes + [w'.refreshes[|w.refreshes|]];
        RefreshWorkPush(w.refreshes, w'.refreshes[|w.refreshes|]);
      }
    case FetchFails(i) => RequestWorkUpdate(w.requests, i, w'.requests[i]);
    case RefreshSettles(s, _) => RefreshWorkUpdate(w.refreshes, s, w'.refreshes[s]);
    case FinallyRuns(s) => RefreshWorkUpdate(w.refreshes, s, w'.refreshes[s]);
    case Resume(i) => RequestWorkUpdate(w.requests, i, w'.requests[i]);
  }

  lemma RefreshWorkPush(rs: seq<Refresh>, r: Refresh)
    ensures RefreshWork(rs + [r]) == RefreshWork(rs) + RefreshRank(r)
  {
    assert (rs + [r])[..|rs|] == rs;
  }

  /** No request is ever stuck: while one has not ended, some event can happen. */
  lemma NeverStuck(canRefresh: bool, steps: seq<Step>, i: nat)
    requires i < |Reached(canRefresh, steps).requests| && !Reached(canRefresh, steps).requests[i].phase.Ended?
    ensures exists step: Step :: !step.Start? && Enabled(Reached(canRefresh, steps), step)
  {
    hide Run;
    var w := Reached(canRefresh, steps);
    assert RequestOk(w, i);
    match w.requests[i].phase
    case Fetching(_) => assert Enabled(w, FetchFails(i));
    case Waiting(s) =>
      if w.refreshes[s].state.Pending? { assert Enabled(w, RefreshSettles(s, Fresh)); }
      else if w.refreshes[s].state.Settled? { assert Enabled(w, FinallyRuns(s)); }
      else { assert Enabled(w, Resume(i)); }
  }

  /** Events that happen one after the other, with no new request among them. */
  ghost predicate Happen(w: World, steps: seq<Step>)
    requires Inv(w)
    decreases |steps|
  {
    steps == [] || (!steps[0].Start? && Enabled(w, steps[0]) && (StepKeepsInv(w, steps[0]); Happen(Apply(w, steps[0]), steps[1..])))
  }

  /** With NeverStuck: once no new request starts, every request ends within Work(w) events, in any order of events. */
  lemma {:induction false} EventsRunOut(w: World, steps: seq<Step>)
    requires Inv(w) && Happen(w, steps)
    ensures |steps| + Work(Run(w, steps)) <= Work(w)
    decreases |steps|
  {
    hide Apply, Inv, Work;
    if steps != [] {
      StepDoesWork(w, steps[0]);
      StepKeepsInv(w, steps[0]);
      EventsRunOut(Apply(w, steps[0]), steps[1..]);
    }
  }

  // ---------------------------------------------------------------- the client object

  /** The client between two turns of the event loop: `request` is split at its awaits. */
  class Client {
    const canRefresh: bool
    var refreshPromise: Option<nat>
    var refreshes: seq<Refresh>
    var requests: seq<Request>

    ghost function State(): World
      reads this
    {
      World(canRefresh, refreshPromise, refreshes, requests)
    }

    ghost predicate Valid()
      reads this
    {
      Inv(State())
    }

    constructor (canRefresh: bool)
      ensures Valid() && State() == Empty(canRefresh)
    {
      this.canRefresh := canRefresh;
      refreshPromise, refreshes, requests := None, [], [];
      new;
      EmptyInv(canRefresh);
    }

    method Begin(auth: bool) returns (i: nat)
      requires Valid()
      modifies this
      ensures Valid() && i == old(|requests|) && State() == Apply(old(State()), Start(auth))
      ensures |requests| == i + 1 && requests[..i] == old(requests) && requests[i].phase == Fetching(false) && requests[i].fetches == 1
      ensures refreshes == old(refreshes) && refreshPromise == old(refreshPromise)
    {
      hide Inv;
      StepKeepsInv(State(), Start(auth));
      i := |requests|;
      requests := requests + [Request(auth, Fetching(false), 1, false, None, None)];
    }

    /** The request after `await this.fetch`. */
    method OnAnswer(i: nat, status: int, throws: bool)
      requires Valid() && i < |requests| && requests[i].phase.Fetching?
      modifies this
      ensures Valid() && State() == Apply(old(State()), FetchAnswers(i, status, throws))
      ensures |requests| == |old(requests)| && forall j | 0 <= j < |requests| && j != i :: requests[j] == old(requests)[j]
      ensures var waits, open := status == 401 && old(requests)[i].auth && old(requests)[i].fetches == 1 && canRefresh, old(refreshPromise);
              && (!waits ==> requests[i].phase == Ended(Response(status)) && refreshes == old(refreshes) && refreshPromise == open)
              && (waits && open.Some? ==>
                    requests[i].phase == Waiting(open.value) && refreshes == old(refreshes) && refreshPromise == open)
              && (waits && open.None? && !throws ==>
                    && requests[i].phase == Waiting(|old(refreshes)|) && refreshPromise == Some(|old(refreshes)|)
                    && refreshes == old(refreshes) + [Refresh(i, Pending)])
              && (waits && open.None? && throws ==>
                    && requests[i].phase == Ended(RefreshThrew) && refreshPromise == None
                    && refreshes == old(refreshes) + [Refresh(i, Threw)])
    {
      assert RequestOk(State(), i);
      hide Inv;
      StepKeepsInv(State(), FetchAnswers(i, status, throws));
      var r := requests[i];
      var first := r.phase == Fetching(false);
      if first && status == 401 {
        r := r.(got401 := true);
      }
      if status == 401 && r.auth && first && canRefresh {
        var joined := refreshPromise;
        if joined.None? {
          var s := |refreshes|;
          refreshes := refreshes + [Refresh(i, if throws then Threw else Pending)];
          if throws {
            requests := requests[i := r.(phase := Ended(RefreshThrew), joined := Some(s))];
            return;
          }
          refreshPromise := Some(s);
          joined := Some(s);
        }
        requests := requests[i := r.(phase := Waiting(joined.value), joined := joined)];
      } else {
        requests := requests[i := r.(phase := Ended(Response(status)))];
      }
    }

    /** The fetch is rejected, and so is the request. */
    method OnFailure(i: nat)
      requires Valid() && i < |requests| && requests[i].phase.Fetching?
      modifies this`requests
      ensures Valid() && State() == Apply(old(State()), FetchFails(i))
      ensures requests == old(requests)[i := old(requests)[i].(phase := Ended(NetworkError))]
    {
      hide Inv;
      StepKeepsInv(State(), FetchFails(i));
      requests := requests[i := requests[i].(phase := Ended(NetworkError))];
    }

    method OnSettled(s: nat, outcome: Outcome)
      requires Valid() && s < |refreshes| && refreshes[s].state.Pending?
      modifies this`refreshes
      ensures Valid() && State() == Apply(old(State()), RefreshSettles(s, outcome))
      ensures refreshes == old(refreshes)[s := Refresh(old(refreshes)[s].starter, Settled(outcome))]
    {
      hide Inv;
      StepKeepsInv(State(), RefreshSettles(s, outcome));
      refreshes := refreshes[s := refreshes[s].(state := Settled(outcome))];
    }

    /** The `finally` callback: it clears the field only when the field holds the promise it belongs to. */
    method OnFinally(s: nat)
      requires Valid() && s < |refreshes| && refreshes[s].state.Settled?
      modifies this`refreshes, this`refreshPromise
      ensures Valid() && State() == Apply(old(State()), FinallyRuns(s))
      ensures old(refreshPromise) == Some(s) && refreshPromise == None
      ensures refreshes == old(refreshes)[s := Refresh(old(refreshes)[s].starter, Cleared(old(refreshes)[s].state.outcome))]
    {
      assert RefreshOk(State(), s);
      hide Inv;
      StepKeepsInv(State(), FinallyRuns(s));
      refreshes := refreshes[s := refreshes[s].(state := Cleared(refreshes[s].state.outcome))];
      refreshPromise := None;
    }

    /** The request after `await this.refreshOnce`. */
    method OnRefreshed(i: nat)
      requires Valid() && Enabled(State(), Resume(i))
      modifies this`requests
      ensures Valid() && State() == Apply(old(State()), Resume(i))
      ensures |requests| == |old(requests)| && forall j | 0 <= j < |requests| && j != i :: requests[j] == old(requests)[j]
      ensures var outcome := refreshes[old(requests)[i].phase.serial].state.outcome;
              && requests[i].heard == Some(outcome) && requests[i].fetches == (if outcome == Fresh then 2 else 1)
              && requests[i].phase == match outcome
                                      case Fresh => Fetching(true)
                                      case NoToken => Ended(Response(401))
                                      case Rejected => Ended(RefreshRejected)
    {
      assert RequestOk(State(), i);
      hide Inv;
      StepKeepsInv(State(), Resume(i));
      var outcome := refreshes[requests[i].phase.serial].state.outcome;
      var r := requests[i].(heard := Some(outcome));
      match outcome {
        case Fresh => requests := requests[i := r.(phase := Fetching(true), fetches := r.fetches + 1)];
        case NoToken => requests := requests[i := r.(phase := Ended(Response(401)))];
        case Rejected => requests := requests[i := r.(phase := Ended(RefreshRejected))];
      }
    }
  }
}

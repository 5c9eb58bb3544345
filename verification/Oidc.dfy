/** The OIDC login protocol: Start, Callback (consume the state, exchange the code, store the result) and Complete
    (consume the code, issue the session), in any interleaving, with one-shot expiring states and codes.
    Times are the whole microseconds that the database keeps of a clock reading. */
module Oidc {
  import opened Wrappers

  const MINUTE: int := 60_000_000
  const STATE_TTL: int := 10 * MINUTE
  const RESULT_TTL: int := 2 * MINUTE

  /** A number stands for each random token, provider, zone, lower-cased domain, URI and claim set. Rows are
      looked up by the hash of a token; hashing is injective, so the token itself is the key here. */
  type Token = int
  type ProviderId = int
  type Zone = int
  type Domain = int
  type URI = int
  type Claims = int

  /** securevalue.Encrypt and Decrypt under one master secret: the additional data must be equal. */
  datatype Sealed = Seal(plain: Token, aad: ProviderId)

  function Decrypt(s: Sealed, aad: ProviderId): Option<Token> { if s.aad == aad then Some(s.plain) else None }

  /** A stored login state. `flow` numbers the Start call that wrote the row; it is not a column. */
  datatype LoginState = LoginState(flow: nat, provider: ProviderId, zone: Zone, domain: Domain, redirectURI: URI,
                                   verifier: Sealed, nonce: Token, expiresAt: int)

  /** A stored login result, with the number of its flow. */
  datatype LoginResult = LoginResult(flow: nat, provider: ProviderId, zone: Zone, domain: Domain, claims: Claims, expiresAt: int)

  /** A Callback call that has consumed its state; `claims` once ExchangeAndVerify has succeeded. */
  datatype Callback = Callback(row: LoginState, consumedAt: int, claims: Option<Claims>)

  /** One call of ExchangeAndVerify: what it was given, and the claims that were accepted, if any. */
  datatype Exchange = Exchange(flow: nat, provider: ProviderId, redirectURI: URI, verifier: Token, nonce: Token, answer: Option<Claims>)

  /** A Complete call that has consumed its code and has not issued a session yet. */
  datatype Completion = Completion(row: LoginResult, consumedAt: int)

  datatype Session = Session(flow: nat, provider: ProviderId, zone: Zone, domain: Domain, claims: Claims, at: int)

  /** Where a flow stands; a flow is in one place only. */
  datatype Stage = Waiting | InCallback(task: int) | HasResult(code: Token) | InComplete(task: int) | Issued(session: int) | Over

  /** A Start call: what its authorization URL was built from, where the flow stands, the number of its
      ExchangeAndVerify call, how long its Callback took from consuming the state to storing the result, and how
      long its Complete took from consuming the code to issuing the session. */
  datatype Flow = Flow(provider: ProviderId, zone: Zone, domain: Domain, redirectURI: URI, state: Token, nonce: Token,
                       verifier: Token, at: int, stage: Stage, exchange: Option<int>, callback: int, complete: int)

  datatype World = World(states: map<Token, LoginState>, callbacks: map<int, Callback>, results: map<Token, LoginResult>,
                         completions: map<int, Completion>, exchanges: seq<Exchange>, sessions: seq<Session>, flows: seq<Flow>, drawn: set<Token>)

  const EMPTY := World(map[], map[], map[], map[], [], [], [], {})

  /** `zone` is what ResolveOIDCProvider answers for the domain and provider at that moment; `ready` says that the
      client secret, the authorization URL and the sealed verifier could be made; `proceeds` that the provider sent a
      code and the client secret was found. */
  datatype Step =
    | Begin(provider: ProviderId, domain: Domain, redirectURI: URI, zone: Option<Zone>, ready: bool, state: Token,
            nonce: Token, verifier: Token, now: int)
    | ConsumeState(task: int, state: Token, now: int, zone: Option<Zone>)
    | ExchangeCode(task: int, proceeds: bool, claims: Option<Claims>)
    | StoreResult(task: int, code: Token, now: int)
    | ConsumeCode(task: int, code: Token, domain: Domain, now: int, zone: Option<Zone>)
    | Issue(task: int, accepted: bool, now: int)

  function Move(flows: seq<Flow>, i: nat, stage: Stage): seq<Flow> {
    if i < |flows| then flows[i := flows[i].(stage := stage)] else flows
  }

  function Called(flows: seq<Flow>, i: nat, exchange: int): seq<Flow> {
    if i < |flows| then flows[i := flows[i].(exchange := Some(exchange))] else flows
  }

  function Stored(flows: seq<Flow>, i: nat, code: Token, callback: int): seq<Flow> {
    if i < |flows| then flows[i := flows[i].(stage := HasResult(code), callback := callback)] else flows
  }

  function Finished(flows: seq<Flow>, i: nat, session: int, complete: int): seq<Flow> {
    if i < |flows| then flows[i := flows[i].(stage := Issued(session), complete := complete)] else flows
  }

  function AfterBegin(w: World, step: Step): World
    requires step.Begin?
  {
    if step.zone.None? || !step.ready then w
    else
      var s := step;
      w.(states := w.states[s.state := LoginState(|w.flows|, s.provider, s.zone.value, s.domain, s.redirectURI,
                                                  Seal(s.verifier, s.provider), s.nonce, s.now + STATE_TTL)],
         flows := w.flows + [Flow(s.provider, s.zone.value, s.domain, s.redirectURI, s.state, s.nonce, s.verifier, s.now,
                                  Waiting, None, 0, 0)],
         drawn := w.drawn + {s.state, s.nonce, s.verifier})
  }

  /** ConsumeOIDCLoginState: an unexpired row is spent, even when its zone does not resolve again. */
  function AfterConsume(w: World, step: Step): World
    requires step.ConsumeState?
  {
    if step.state !in w.states || !(w.states[step.state].expiresAt > step.now) then w
    else
      var row := w.states[step.state];
      var rest := w.(states := w.states - {step.state});
      if step.zone != Some(row.zone) then rest.(flows := Move(w.flows, row.flow, Over))
      else rest.(callbacks := w.callbacks[step.task := Callback(row, step.now, None)],
                 flows := Move(w.flows, row.flow, InCallback(step.task)))
  }

  /** The middle of Callback: `claims` is what ExchangeAndVerify answers, None when it or a later check of the claims
      fails. */
  function AfterExchange(w: World, step: Step): World
    requires step.ExchangeCode? && step.task in w.callbacks
  {
    var c := w.callbacks[step.task];
    var verifier := Decrypt(c.row.verifier, c.row.provider);
    if !step.proceeds || verifier.None? then
      w.(callbacks := w.callbacks - {step.task}, flows := Move(w.flows, c.row.flow, Over))
    else
      var called := w.(exchanges := w.exchanges + [Exchange(c.row.flow, c.row.provider, c.row.redirectURI, verifier.value,
                                                            c.row.nonce, step.claims)],
                       flows := Called(w.flows, c.row.flow, |w.exchanges|));
      if step.claims.None? then
        called.(callbacks := w.callbacks - {step.task}, flows := Move(called.flows, c.row.flow, Over))
      else
        called.(callbacks := w.callbacks[step.task := c.(claims := step.claims)])
  }

  /** The end of Callback: the result expires two minutes after the clock is read a second time. */
  function AfterStore(w: World, step: Step): World
    requires step.StoreResult? && step.task in w.callbacks && w.callbacks[step.task].claims.Some?
  {
    var c := w.callbacks[step.task];
    var i := c.row.flow;
    w.(callbacks := w.callbacks - {step.task},
       results := w.results[step.code := LoginResult(i, c.row.provider, c.row.zone, c.row.domain, c.claims.value, step.now + RESULT_TTL)],
       drawn := w.drawn + {step.code},
       flows := Stored(w.flows, i, step.code, step.now - c.consumedAt))
  }

  /** ConsumeOIDCLoginResult spends an unexpired row of this code and domain, even when its zone does not resolve. */
  function AfterConsumeCode(w: World, step: Step): World
    requires step.ConsumeCode?
  {
    if step.code !in w.results || w.results[step.code].domain != step.domain || !(w.results[step.code].expiresAt > step.now) then w
    else
      var row := w.results[step.code];
      var rest := w.(results := w.results - {step.code});
      if step.zone != Some(row.zone) then rest.(flows := Move(w.flows, row.flow, Over))
      else rest.(completions := w.completions[step.task := Completion(row, step.now)],
                 flows := Move(w.flows, row.flow, InComplete(step.task)))
  }

  /** The rest of Complete: `accepted` says that the claims map to an active user; a session is issued then. */
  function AfterIssue(w: World, step: Step): World
    requires step.Issue? && step.task in w.completions
  {
    var c := w.completions[step.task];
    var rest := w.(completions := w.completions - {step.task});
    if !step.accepted then rest.(flows := Move(w.flows, c.row.flow, Over))
    else rest.(sessions := w.sessions + [Session(c.row.flow, c.row.provider, c.row.zone, c.row.domain, c.row.claims, step.now)],
               flows := Finished(w.flows, c.row.flow, |w.sessions|, step.now - c.consumedAt))
  }

  /** Random tokens are fresh, and each running call has its own task. */
  predicate Enabled(w: World, step: Step) {
    match step
    case Begin(_, _, _, _, _, state, nonce, verifier, _) => state !in w.drawn && nonce !in w.drawn && verifier !in w.drawn
    case ConsumeState(task, _, _, _) => task !in w.callbacks
    case ExchangeCode(task, _, _) => task in w.callbacks && w.callbacks[task].claims.None?
    case StoreResult(task, code, _) => task in w.callbacks && w.callbacks[task].claims.Some? && code !in w.drawn
    case ConsumeCode(task, _, _, _, _) => task !in w.completions
    case Issue(task, _, _) => task in w.completions
  }

  function Apply(w: World, step: Step): World {
    if !Enabled(w, step) then w
    else match step
      case Begin(_, _, _, _, _, _, _, _, _) => AfterBegin(w, step)
      case ConsumeState(_, _, _, _) => AfterConsume(w, step)
      case ExchangeCode(_, _, _) => AfterExchange(w, step)
      case StoreResult(_, _, _) => AfterStore(w, step)
      case ConsumeCode(_, _, _, _, _) => AfterConsumeCode(w, step)
      case Issue(_, _, _) => AfterIssue(w, step)
  }

  // ---------------------------------------------------------------- what every step keeps

  ghost predicate RowOf(row: LoginState, f: Flow) {
    row == LoginState(row.flow, f.provider, f.zone, f.domain, f.redirectURI, Seal(f.verifier, f.provider), f.nonce, f.at + STATE_TTL)
  }

  ghost predicate StateOk(w: World, t: Token) {
    t in w.states ==>
      var row := w.states[t];
      && t in w.drawn && row.flow < |w.flows|
      && var f := w.flows[row.flow]; f.stage == Waiting && f.state == t && f.exchange.None? && RowOf(row, f)
  }

  ghost predicate CallbackOk(w: World, p: int) {
    p in w.callbacks ==>
      var c := w.callbacks[p];
      && c.row.flow < |w.flows|
      && var f := w.flows[c.row.flow];
         f.stage == InCallback(p) && RowOf(c.row, f) && c.consumedAt < f.at + STATE_TTL && Verified(w, f, c.claims)
  }

  /** The flow's only ExchangeAndVerify call answered `claims`; None if there was no call yet. */
  ghost predicate Verified(w: World, f: Flow, claims: Option<Claims>) {
    if claims.None? then f.exchange.None?
    else f.exchange.Some? && 0 <= f.exchange.value < |w.exchanges| && w.exchanges[f.exchange.value].answer == claims
  }

  ghost predicate ResultOk(w: World, t: Token) {
    t in w.results ==>
      var row := w.results[t];
      && t in w.drawn && row.flow < |w.flows|
      && var f := w.flows[row.flow];
         && f.stage == HasResult(t) && row.provider == f.provider && row.zone == f.zone && row.domain == f.domain
         && Verified(w, f, Some(row.claims)) && row.expiresAt <= f.at + STATE_TTL + RESULT_TTL + f.callback - 1
  }

  ghost predicate CompletionOk(w: World, q: int) {
    q in w.completions ==>
      var c := w.completions[q];
      && c.row.flow < |w.flows|
      && var f := w.flows[c.row.flow];
         && f.stage == InComplete(q) && c.row.provider == f.provider && c.row.zone == f.zone && c.row.domain == f.domain
         && Verified(w, f, Some(c.row.claims)) && c.consumedAt <= f.at + STATE_TTL + RESULT_TTL + f.callback - 2
  }

  ghost predicate SessionOk(w: World, j: nat) {
    j < |w.sessions| ==>
      var s := w.sessions[j];
      && s.flow < |w.flows|
      && var f := w.flows[s.flow];
         && f.stage == Issued(j) && s.provider == f.provider && s.zone == f.zone && s.domain == f.domain
         && Verified(w, f, Some(s.claims)) && s.at <= f.at + STATE_TTL + RESULT_TTL + f.callback + f.complete - 2
  }

  ghost predicate ExchangeOk(w: World, k: nat) {
    k < |w.exchanges| ==>
      var e := w.exchanges[k];
      && e.flow < |w.flows|
      && var f := w.flows[e.flow];
         && f.exchange == Some(k) && e.provider == f.provider && e.redirectURI == f.redirectURI
         && e.verifier == f.verifier && e.nonce == f.nonce
  }

  ghost predicate FlowOk(w: World, i: nat) {
    i < |w.flows| && w.flows[i].exchange.Some? ==>
      var k := w.flows[i].exchange.value;
      0 <= k < |w.exchanges| && w.exchanges[k].flow == i
  }

  ghost predicate LiveOk(w: World, s: Token, p: int, r: Token, q: int) {
    StateOk(w, s) && CallbackOk(w, p) && ResultOk(w, r) && CompletionOk(w, q)
  }

  ghost predicate LogOk(w: World, j: nat, k: nat, i: nat) { SessionOk(w, j) && ExchangeOk(w, k) && FlowOk(w, i) }

  ghost predicate Inv(w: World) {
    && (forall s, p, r, q :: LiveOk(w, s, p, r, q))
    && (forall j, k, i :: LogOk(w, j, k, i))
  }

  /** Moving a flow that has no session yet leaves the sessions and exchanges as they are. */
  lemma MoveKeepsLog(w: World, v: World, x: nat, stage: Stage, j: nat, k: nat, i: nat)
    requires LogOk(w, j, k, i) && v.sessions == w.sessions && v.exchanges == w.exchanges
    requires v.flows == w.flows || (x < |w.flows| && !w.flows[x].stage.Issued? && v.flows == Move(w.flows, x, stage))
    ensures LogOk(v, j, k, i)
  {}

  lemma BeginKeepsLive(w: World, step: Step, s: Token, p: int, r: Token, q: int)
    requires LiveOk(w, s, p, r, q) && step.Begin? && Enabled(w, step)
    ensures LiveOk(AfterBegin(w, step), s, p, r, q)
  {}

  lemma BeginKeepsLog(w: World, step: Step, j: nat, k: nat, i: nat)
    requires LogOk(w, j, k, i) && step.Begin? && Enabled(w, step)
    ensures LogOk(AfterBegin(w, step), j, k, i)
  {}

  lemma ConsumeStateKeepsStates(w: World, step: Step, s: Token, p: int)
    requires StateOk(w, s) && CallbackOk(w, p)
    requires step.ConsumeState? && Enabled(w, step) && StateOk(w, step.state)
    ensures StateOk(AfterConsume(w, step), s) && CallbackOk(AfterConsume(w, step), p)
  {}

  lemma ConsumeStateKeepsResults(w: World, step: Step, r: Token, q: int)
    requires ResultOk(w, r) && CompletionOk(w, q)
    requires step.ConsumeState? && Enabled(w, step) && StateOk(w, step.state)
    ensures ResultOk(AfterConsume(w, step), r) && CompletionOk(AfterConsume(w, step), q)
  {}

  lemma ConsumeStateKeepsLive(w: World, step: Step, s: Token, p: int, r: Token, q: int)
    requires LiveOk(w, s, p, r, q) && step.ConsumeState? && Enabled(w, step)
    requires StateOk(w, step.state)
    ensures LiveOk(AfterConsume(w, step), s, p, r, q)
  {
    hide AfterConsume, StateOk, CallbackOk, ResultOk, CompletionOk, SessionOk, ExchangeOk, FlowOk;
    ConsumeStateKeepsStates(w, step, s, p);
    ConsumeStateKeepsResults(w, step, r, q);
  }

  lemma ConsumeStateKeepsLog(w: World, step: Step, j: nat, k: nat, i: nat)
    requires LogOk(w, j, k, i) && step.ConsumeState? && Enabled(w, step)
    requires StateOk(w, step.state)
    ensures LogOk(AfterConsume(w, step), j, k, i)
  {
    hide LogOk, RowOf;
    var v := AfterConsume(w, step);
    if v != w {
      var x := w.states[step.state].flow;
      MoveKeepsLog(w, v, x, if step.zone == Some(w.states[step.state].zone) then InCallback(step.task) else Over, j, k, i);
    }
  }

  lemma ExchangeCodeKeepsStates(w: World, step: Step, s: Token, r: Token)
    requires StateOk(w, s) && ResultOk(w, r)
    requires step.ExchangeCode? && Enabled(w, step) && CallbackOk(w, step.task)
    ensures StateOk(AfterExchange(w, step), s) && ResultOk(AfterExchange(w, step), r)
  {}

  lemma ExchangeCodeKeepsOthers(w: World, step: Step, p: int)
    requires CallbackOk(w, p)
    requires step.ExchangeCode? && Enabled(w, step) && CallbackOk(w, step.task) && p != step.task
    ensures CallbackOk(AfterExchange(w, step), p)
  {
    hide RowOf;
  }

  lemma ExchangeCodeKeepsOwn(w: World, step: Step)
    requires step.ExchangeCode? && Enabled(w, step) && CallbackOk(w, step.task)
    ensures CallbackOk(AfterExchange(w, step), step.task)
  {}

  lemma ExchangeCodeKeepsCallbacks(w: World, step: Step, p: int)
    requires CallbackOk(w, p)
    requires step.ExchangeCode? && Enabled(w, step) && CallbackOk(w, step.task)
    ensures CallbackOk(AfterExchange(w, step), p)
  {
    hide AfterExchange, CallbackOk;
    if p == step.task { ExchangeCodeKeepsOwn(w, step); } else { ExchangeCodeKeepsOthers(w, step, p); }
  }

  lemma ExchangeCodeKeepsCompletions(w: World, step: Step, q: int)
    requires CompletionOk(w, q)
    requires step.ExchangeCode? && Enabled(w, step) && CallbackOk(w, step.task)
    ensures CompletionOk(AfterExchange(w, step), q)
  {}

  lemma ExchangeCodeKeepsLive(w: World, step: Step, s: Token, p: int, r: Token, q: int)
    requires LiveOk(w, s, p, r, q) && step.ExchangeCode? && Enabled(w, step)
    requires CallbackOk(w, step.task)
    ensures LiveOk(AfterExchange(w, step), s, p, r, q)
  {
    hide AfterExchange, StateOk, CallbackOk, ResultOk, CompletionOk, SessionOk, ExchangeOk, FlowOk;
    ExchangeCodeKeepsStates(w, step, s, r);
    ExchangeCodeKeepsCallbacks(w, step, p);
    ExchangeCodeKeepsCompletions(w, step, q);
  }

  lemma ExchangeCodeKeepsSessions(w: World, step: Step, j: nat)
    requires SessionOk(w, j)
    requires step.ExchangeCode? && Enabled(w, step) && CallbackOk(w, step.task)
    ensures SessionOk(AfterExchange(w, step), j)
  {}

  lemma ExchangeCodeKeepsFlows(w: World, step: Step, i: nat)
    requires FlowOk(w, i)
    requires step.ExchangeCode? && Enabled(w, step) && CallbackOk(w, step.task)
    ensures FlowOk(AfterExchange(w, step), i)
  {}

  lemma ExchangeCodeKeepsExchanges(w: World, step: Step, k: nat)
    requires ExchangeOk(w, k)
    requires step.ExchangeCode? && Enabled(w, step) && CallbackOk(w, step.task)
    ensures ExchangeOk(AfterExchange(w, step), k)
  {}

  lemma ExchangeCodeKeepsLog(w: World, step: Step, j: nat, k: nat, i: nat)
    requires LogOk(w, j, k, i) && step.ExchangeCode? && Enabled(w, step)
    requires CallbackOk(w, step.task)
    ensures LogOk(AfterExchange(w, step), j, k, i)
  {
    hide AfterExchange, StateOk, CallbackOk, ResultOk, CompletionOk, SessionOk, ExchangeOk, FlowOk;
    ExchangeCodeKeepsSessions(w, step, j);
    ExchangeCodeKeepsFlows(w, step, i);
    ExchangeCodeKeepsExchanges(w, step, k);
  }

  lemma StoreResultKeepsLive(w: World, step: Step, s: Token, p: int, r: Token, q: int)
    requires LiveOk(w, s, p, r, q) && step.StoreResult? && Enabled(w, step)
    requires CallbackOk(w, step.task)
    ensures LiveOk(AfterStore(w, step), s, p, r, q)
  {}

  lemma StoreResultKeepsLog(w: World, step: Step, j: nat, k: nat, i: nat)
    requires LogOk(w, j, k, i) && step.StoreResult? && Enabled(w, step)
    requires CallbackOk(w, step.task)
    ensures LogOk(AfterStore(w, step), j, k, i)
  {}

  lemma ConsumeCodeKeepsStates(w: World, step: Step, s: Token, p: int)
    requires StateOk(w, s) && CallbackOk(w, p)
    requires step.ConsumeCode? && Enabled(w, step) && ResultOk(w, step.code)
    ensures StateOk(AfterConsumeCode(w, step), s) && CallbackOk(AfterConsumeCode(w, step), p)
  {}

  lemma ConsumeCodeKeepsResults(w: World, step: Step, r: Token)
    requires ResultOk(w, r)
    requires step.ConsumeCode? && Enabled(w, step) && ResultOk(w, step.code)
    ensures ResultOk(AfterConsumeCode(w, step), r)
  {}

  lemma ConsumeCodeKeepsCompletions(w: World, step: Step, q: int)
    requires CompletionOk(w, q)
    requires step.ConsumeCode? && Enabled(w, step) && ResultOk(w, step.code)
    ensures CompletionOk(AfterConsumeCode(w, step), q)
  {}

  lemma ConsumeCodeKeepsLive(w: World, step: Step, s: Token, p: int, r: Token, q: int)
    requires LiveOk(w, s, p, r, q) && step.ConsumeCode? && Enabled(w, step)
    requires ResultOk(w, step.code)
    ensures LiveOk(AfterConsumeCode(w, step), s, p, r, q)
  {
    hide AfterConsumeCode, StateOk, CallbackOk, ResultOk, CompletionOk, SessionOk, ExchangeOk, FlowOk;
    ConsumeCodeKeepsStates(w, step, s, p);
    ConsumeCodeKeepsResults(w, step, r);
    ConsumeCodeKeepsCompletions(w, step, q);
  }

  lemma ConsumeCodeKeepsLog(w: World, step: Step, j: nat, k: nat, i: nat)
    requires LogOk(w, j, k, i) && step.ConsumeCode? && Enabled(w, step)
    requires ResultOk(w, step.code)
    ensures LogOk(AfterConsumeCode(w, step), j, k, i)
  {
    hide LogOk, Verified;
    var v := AfterConsumeCode(w, step);
    if v != w {
      var x := w.results[step.code].flow;
      MoveKeepsLog(w, v, x, if step.zone == Some(w.results[step.code].zone) then InComplete(step.task) else Over, j, k, i);
    }
  }

  lemma IssueKeepsStates(w: World, step: Step, s: Token, p: int)
    requires StateOk(w, s) && CallbackOk(w, p)
    requires step.Issue? && Enabled(w, step) && CompletionOk(w, step.task)
    ensures StateOk(AfterIssue(w, step), s) && CallbackOk(AfterIssue(w, step), p)
  {}

  lemma IssueKeepsResults(w: World, step: Step, r: Token, q: int)
    requires ResultOk(w, r) && CompletionOk(w, q)
    requires step.Issue? && Enabled(w, step) && CompletionOk(w, step.task)
    ensures ResultOk(AfterIssue(w, step), r) && CompletionOk(AfterIssue(w, step), q)
  {}

  lemma IssueKeepsLive(w: World, step: Step, s: Token, p: int, r: Token, q: int)
    requires LiveOk(w, s, p, r, q) && step.Issue? && Enabled(w, step)
    requires CompletionOk(w, step.task)
    ensures LiveOk(AfterIssue(w, step), s, p, r, q)
  {
    hide AfterIssue, StateOk, CallbackOk, ResultOk, CompletionOk;
    IssueKeepsStates(w, step, s, p);
    IssueKeepsResults(w, step, r, q);
  }

  lemma IssueKeepsSessions(w: World, step: Step, j: nat)
    requires SessionOk(w, j) && step.Issue? && step.accepted && Enabled(w, step) && CompletionOk(w, step.task)
    ensures SessionOk(AfterIssue(w, step), j)
  {}

  lemma IssueKeepsExchanges(w: World, step: Step, k: nat, i: nat)
    requires ExchangeOk(w, k) && FlowOk(w, i) && step.Issue? && step.accepted && Enabled(w, step)
    ensures ExchangeOk(AfterIssue(w, step), k) && FlowOk(AfterIssue(w, step), i)
  {}

  lemma IssueKeepsLog(w: World, step: Step, j: nat, k: nat, i: nat)
    requires LogOk(w, j, k, i) && step.Issue? && Enabled(w, step)
    requires CompletionOk(w, step.task)
    ensures LogOk(AfterIssue(w, step), j, k, i)
  {
    hide SessionOk, ExchangeOk, FlowOk, Verified;
    if step.accepted {
      IssueKeepsSessions(w, step, j);
      IssueKeepsExchanges(w, step, k, i);
    } else {
      MoveKeepsLog(w, AfterIssue(w, step), w.completions[step.task].row.flow, Over, j, k, i);
    }
  }

  /** What Inv says of one row, call and log entry of each kind. */
  lemma InvAt(w: World, s: Token, p: int, r: Token, q: int, j: nat, k: nat, i: nat)
    requires Inv(w)
    ensures LiveOk(w, s, p, r, q) && LogOk(w, j, k, i)
  {
    hide LiveOk, LogOk;
  }

  lemma StepKeepsLive(w: World, step: Step, s: Token, p: int, r: Token, q: int)
    requires Inv(w)
    ensures LiveOk(Apply(w, step), s, p, r, q)
  {
    hide Inv, AfterBegin, AfterConsume, AfterExchange, AfterStore, AfterConsumeCode, AfterIssue, StateOk, CallbackOk, ResultOk, CompletionOk;
    InvAt(w, s, p, r, q, 0, 0, 0);
    if Enabled(w, step) {
      match step
      case Begin(_, _, _, _, _, _, _, _, _) => BeginKeepsLive(w, step, s, p, r, q);
      case ConsumeState(_, t, _, _) => InvAt(w, t, p, r, q, 0, 0, 0); ConsumeStateKeepsLive(w, step, s, p, r, q);
      case ExchangeCode(t, _, _) => InvAt(w, s, t, r, q, 0, 0, 0); ExchangeCodeKeepsLive(w, step, s, p, r, q);
      case StoreResult(t, _, _) => InvAt(w, s, t, r, q, 0, 0, 0); StoreResultKeepsLive(w, step, s, p, r, q);
      case ConsumeCode(_, t, _, _, _) => InvAt(w, s, p, t, q, 0, 0, 0); ConsumeCodeKeepsLive(w, step, s, p, r, q);
      case Issue(t, _, _) => InvAt(w, s, p, r, t, 0, 0, 0); IssueKeepsLive(w, step, s, p, r, q);
    }
  }

  lemma StepKeepsLog(w: World, step: Step, j: nat, k: nat, i: nat)
    requires Inv(w)
    ensures LogOk(Apply(w, step), j, k, i)
  {
    hide Inv, AfterBegin, AfterConsume, AfterExchange, AfterStore, AfterConsumeCode, AfterIssue, StateOk, CallbackOk, ResultOk, CompletionOk,
         SessionOk, ExchangeOk, FlowOk;
    InvAt(w, 0, 0, 0, 0, j, k, i);
    if Enabled(w, step) {
      match step
      case Begin(_, _, _, _, _, _, _, _, _) => BeginKeepsLog(w, step, j, k, i);
      case ConsumeState(_, t, _, _) => InvAt(w, t, 0, 0, 0, j, k, i); ConsumeStateKeepsLog(w, step, j, k, i);
      case ExchangeCode(t, _, _) => InvAt(w, 0, t, 0, 0, j, k, i); ExchangeCodeKeepsLog(w, step, j, k, i);
      case StoreResult(t, _, _) => InvAt(w, 0, t, 0, 0, j, k, i); StoreResultKeepsLog(w, step, j, k, i);
      case ConsumeCode(_, t, _, _, _) => InvAt(w, 0, 0, t, 0, j, k, i); ConsumeCodeKeepsLog(w, step, j, k, i);
      case Issue(t, _, _) => InvAt(w, 0, 0, 0, t, j, k, i); IssueKeepsLog(w, step, j, k, i);
    }
  }

  lemma StepKeepsInv(w: World, step: Step)
    requires Inv(w)
    ensures Inv(Apply(w, step))
  {
    hide Apply, LiveOk, LogOk;
    forall s, p, r, q ensures LiveOk(Apply(w, step), s, p, r, q) { StepKeepsLive(w, step, s, p, r, q); }
    forall j, k, i ensures LogOk(Apply(w, step), j, k, i) { StepKeepsLog(w, step, j, k, i); }
  }

  ghost function Run(w: World, steps: seq<Step>): (r: World)
    requires Inv(w)
    ensures Inv(r)
    decreases |steps|
  {
    hide Apply, Inv;
    if steps == [] then w
    else
      StepKeepsInv(w, steps[0]);
      Run(Apply(w, steps[0]), steps[1..])
  }

  lemma EmptyInv()
    ensures Inv(EMPTY)
  {}

  /** Every state the protocol can reach, whatever the interleaving. */
  ghost function Reached(steps: seq<Step>): World {
    EmptyInv();
    Run(EMPTY, steps)
  }

  // ---------------------------------------------------------------- over every run

  ghost predicate BelongsTo(w: World, s: Session) {
    && s.flow < |w.flows|
    && var f := w.flows[s.flow];
       && s.provider == f.provider && s.zone == f.zone && s.domain == f.domain
       && f.exchange.Some? && 0 <= f.exchange.value < |w.exchanges|
       && w.exchanges[f.exchange.value].flow == s.flow && w.exchanges[f.exchange.value].answer == Some(s.claims)
       && s.at - f.at <= STATE_TTL + RESULT_TTL + f.callback + f.complete - 2
  }

  /** Every session belongs to a Start call with its provider, zone and domain and carries the claims that were
      verified for that call; no two sessions belong to the same one. */
  lemma SessionsMapToStarts(steps: seq<Step>, j: nat, k: nat)
    requires j < |Reached(steps).sessions| && k < |Reached(steps).sessions|
    ensures BelongsTo(Reached(steps), Reached(steps).sessions[j])
    ensures Reached(steps).sessions[j].flow == Reached(steps).sessions[k].flow ==> j == k
  {
    hide Run, Inv;
    var w := Reached(steps);
    InvAt(w, 0, 0, 0, 0, j, 0, w.sessions[j].flow);
    InvAt(w, 0, 0, 0, 0, k, 0, 0);
  }

  /** What ExchangeAndVerify is given is what the authorization URL of that flow was built from (section 4.1.3 of
      RFC 6749, section 4.6 of RFC 7636), and there is one call per flow. */
  lemma ExchangeMatchesAuthorization(steps: seq<Step>, j: nat, k: nat)
    requires j < |Reached(steps).exchanges| && k < |Reached(steps).exchanges|
    ensures var w, e := Reached(steps), Reached(steps).exchanges[j];
            && e.flow < |w.flows|
            && var f := w.flows[e.flow];
               e.provider == f.provider && e.redirectURI == f.redirectURI && e.verifier == f.verifier && e.nonce == f.nonce
    ensures Reached(steps).exchanges[j].flow == Reached(steps).exchanges[k].flow ==> j == k
  {
    hide Run, Inv;
    InvAt(Reached(steps), 0, 0, 0, 0, 0, j, 0);
    InvAt(Reached(steps), 0, 0, 0, 0, 0, k, 0);
  }

  predicate Spent(w: World, t: Token) { t in w.drawn && t !in w.states && t !in w.results }

  lemma StepKeepsSpent(w: World, step: Step, t: Token)
    requires Spent(w, t)
    ensures Spent(Apply(w, step), t)
  {}

  /** A state or completion code that has been consumed is never accepted again. */
  lemma {:induction false} SpentForGood(w: World, steps: seq<Step>, t: Token)
    requires Inv(w) && Spent(w, t)
    ensures Spent(Run(w, steps), t)
    decreases |steps|
  {
    hide Apply, Inv;
    if steps != [] {
      StepKeepsInv(w, steps[0]);
      StepKeepsSpent(w, steps[0], t);
      SpentForGood(Apply(w, steps[0]), steps[1..], t);
    }
  }

  // ---------------------------------------------------------------- the twelve minutes

  /** Whenever a flow's Callback and Complete together took at most `total`, its session is issued at most twelve
      minutes after its Start. */
  ghost predicate TwelveMinutesWithin(total: int) {
    forall steps: seq<Step>, j: nat ::
      j < |Reached(steps).sessions| ==> Timely(Reached(steps), Reached(steps).sessions[j], total)
  }

  ghost predicate Timely(w: World, s: Session, total: int) {
    s.flow < |w.flows| && w.flows[s.flow].callback + w.flows[s.flow].complete <= total
    ==> s.at - w.flows[s.flow].at <= STATE_TTL + RESULT_TTL
  }

  /** A flow that uses every microsecond its two time limits, its Callback and its Complete allow. */
  function Slowest(callback: int, complete: int): seq<Step> {
    [Begin(1, 2, 3, Some(4), true, 5, 6, 7, 0),
     ConsumeState(8, 5, STATE_TTL - 1, Some(4)),
     ExchangeCode(8, true, Some(9)),
     StoreResult(8, 10, STATE_TTL - 1 + callback),
     ConsumeCode(11, 10, 2, STATE_TTL + RESULT_TTL + callback - 2, Some(4)),
     Issue(11, true, STATE_TTL + RESULT_TTL + callback + complete - 2)]
  }

  function AfterSlowest(callback: int, complete: int): World {
    World(map[], map[], map[], map[], [Exchange(0, 1, 3, 7, 6, Some(9))],
          [Session(0, 1, 4, 2, 9, STATE_TTL + RESULT_TTL + callback + complete - 2)],
          [Flow(1, 4, 2, 3, 5, 6, 7, 0, Issued(0), Some(0), callback, complete)], {5, 6, 7, 10})
  }

  function BeforeStore(): World {
    World(map[], map[8 := Callback(LoginState(0, 1, 4, 2, 3, Seal(7, 1), 6, STATE_TTL), STATE_TTL - 1, Some(9))], map[], map[],
          [Exchange(0, 1, 3, 7, 6, Some(9))], [],
          [Flow(1, 4, 2, 3, 5, 6, 7, 0, InCallback(8), Some(0), 0, 0)], {5, 6, 7})
  }

  lemma SlowestBegins(callback: int, complete: int)
    ensures var s := Slowest(callback, complete); Apply(Apply(Apply(EMPTY, s[0]), s[1]), s[2]) == BeforeStore()
  {
    var s := Slowest(callback, complete);
    var row := LoginState(0, 1, 4, 2, 3, Seal(7, 1), 6, STATE_TTL);
    var f := Flow(1, 4, 2, 3, 5, 6, 7, 0, Waiting, None, 0, 0);
    var w1 := World(map[5 := row], map[], map[], map[], [], [], [f], {5, 6, 7});
    assert Apply(EMPTY, s[0]) == w1;
    var w2 := World(map[], map[8 := Callback(row, STATE_TTL - 1, None)], map[], map[], [], [], [f.(stage := InCallback(8))], {5, 6, 7});
    assert Apply(w1, s[1]) == w2;
  }

  lemma SlowestEnds(callback: int, complete: int)
    ensures var s := Slowest(callback, complete);
            Apply(Apply(Apply(BeforeStore(), s[3]), s[4]), s[5]) == AfterSlowest(callback, complete)
  {
    var s, w := Slowest(callback, complete), BeforeStore();
    var result := LoginResult(0, 1, 4, 2, 9, STATE_TTL - 1 + callback + RESULT_TTL);
    var f := w.flows[0].(callback := callback);
    var w1 := World(map[], map[], map[10 := result], map[], w.exchanges, [], [f.(stage := HasResult(10))], {5, 6, 7, 10});
    assert Apply(w, s[3]) == w1;
    var w2 := World(map[], map[], map[], map[11 := Completion(result, s[4].now)], w.exchanges, [], [f.(stage := InComplete(11))], {5, 6, 7, 10});
    assert Apply(w1, s[4]) == w2;
  }

  lemma SlowestIsReached(callback: int, complete: int)
    ensures Reached(Slowest(callback, complete)) == AfterSlowest(callback, complete)
  {
    hide Inv, Apply;
    var steps := Slowest(callback, complete);
    SlowestBegins(callback, complete);
    SlowestEnds(callback, complete);
    EmptyInv();
    var first, last := steps[..3], steps[3..];
    assert steps == first + last;
    RunConcat(EMPTY, first, last);
    RunThree(EMPTY, first);
    RunThree(Run(EMPTY, first), last);
  }

  lemma {:induction false} RunConcat(w: World, a: seq<Step>, b: seq<Step>)
    requires Inv(w)
    ensures Run(w, a + b) == Run(Run(w, a), b)
    decreases |a|
  {
    hide Apply, Inv;
    if a == [] {
      assert a + b == b;
    } else {
      StepKeepsInv(w, a[0]);
      assert (a + b)[1..] == a[1..] + b;
      RunConcat(Apply(w, a[0]), a[1..], b);
    }
  }

  lemma RunThree(w: World, steps: seq<Step>)
    requires Inv(w) && |steps| == 3
    ensures Run(w, steps) == Apply(Apply(Apply(w, steps[0]), steps[1]), steps[2])
  {
    hide Apply, Inv;
    var w1 := Apply(w, steps[0]); StepKeepsInv(w, steps[0]);
    var w2 := Apply(w1, steps[1]); StepKeepsInv(w1, steps[1]);
    StepKeepsInv(w2, steps[2]);
    assert steps[1..][1..] == steps[2..];
    assert Run(w2, steps[2..]) == Apply(w2, steps[2]);
  }

  /** Twelve minutes are kept exactly when Callback, from consuming the state to storing the result, and Complete, from
      consuming the code to issuing the session, together take at most two microseconds: neither time is covered by
      the two time limits. */
  lemma TwelveMinutesExactly(total: int)
    ensures TwelveMinutesWithin(total) <==> total <= 2
  {
    hide Run, Inv;
    if total <= 2 {
      forall steps: seq<Step>, j: nat | j < |Reached(steps).sessions|
        ensures Timely(Reached(steps), Reached(steps).sessions[j], total)
      {
        SessionsMapToStarts(steps, j, j);
      }
    } else {
      SlowestIsReached(total, 0);
      assert !Timely(Reached(Slowest(total, 0)), Reached(Slowest(total, 0)).sessions[0], total);
    }
  }
}

/** The OIDC service's methods run to completion; the state machine of `Oidc` interleaves their steps. */
module OidcService {
  import opened Wrappers
  import opened Oidc

  /** How Callback ends: an error, a redirect with an `oidc_error`, or a redirect with a completion code. */
  datatype Outcome =
    | StateNotFound | ProviderDenied | MissingCode | VerifierRejected | SecretMissing | VerificationFailed | ClaimsRejected
    | ClaimsTooLarge | Redirected(code: Token)

  /** What Callback is told: a provider error or a code, the client secret, the verified claims, whether the
      provider's mapping accepts them and whether they are small enough to be stored. */
  datatype Answers = Answers(denied: bool, hasCode: bool, secret: bool, claims: Option<Claims>, mapped: bool, fits: bool)

  predicate Proceeds(a: Answers) { !a.denied && a.hasCode && a.secret }

  function Accepted(a: Answers): Option<Claims> { if a.mapped && a.fits then a.claims else None }

  /** Callback's three steps; a step that is not enabled because the call has ended does nothing. */
  function CallbackSteps(task: int, state: Token, now: int, zone: Option<Zone>, a: Answers, later: int, code: Token): seq<Step> {
    [ConsumeState(task, state, now, zone), ExchangeCode(task, Proceeds(a), Accepted(a)), StoreResult(task, code, later)]
  }

  predicate Found(states: map<Token, LoginState>, state: Token, now: int, zone: Option<Zone>) {
    state in states && states[state].expiresAt > now && zone == Some(states[state].zone)
  }

  /** The row that a successful Callback stores. */
  function ResultOf(row: LoginState, claims: Claims, later: int): LoginResult {
    LoginResult(row.flow, row.provider, row.zone, row.domain, claims, later + RESULT_TTL)
  }

  /** What the first step does to the tables. */
  lemma ConsumeTables(w: World, task: int, state: Token, now: int, zone: Option<Zone>)
    requires Inv(w) && task !in w.callbacks
    ensures var v := Apply(w, ConsumeState(task, state, now, zone));
            && v.states == (if state in w.states && w.states[state].expiresAt > now then w.states - {state} else w.states)
            && v.results == w.results && v.sessions == w.sessions && |v.flows| == |w.flows| && v.drawn == w.drawn
            && (if Found(w.states, state, now, zone)
                then task in v.callbacks && v.callbacks[task] == Callback(w.states[state], now, None)
                else task !in v.callbacks)
  {
    hide Inv;
  }

  /** The other two steps, for a call that has ended already, and for one that has not. */
  lemma EndedTables(w: World, task: int, proceeds: bool, claims: Option<Claims>, code: Token, later: int)
    requires task !in w.callbacks
    ensures Apply(Apply(w, ExchangeCode(task, proceeds, claims)), StoreResult(task, code, later)) == w
  {}

  lemma ExchangeTables(w: World, task: int, proceeds: bool, claims: Option<Claims>)
    requires task in w.callbacks && w.callbacks[task].claims.None?
    requires Decrypt(w.callbacks[task].row.verifier, w.callbacks[task].row.provider).Some?
    ensures var v := Apply(w, ExchangeCode(task, proceeds, claims));
            && v.states == w.states && v.results == w.results && v.sessions == w.sessions && |v.flows| == |w.flows| && v.drawn == w.drawn
            && (if proceeds && claims.Some? then task in v.callbacks && v.callbacks[task] == w.callbacks[task].(claims := claims)
                else task !in v.callbacks)
  {}

  lemma StoreTables(w: World, task: int, code: Token, later: int)
    requires code !in w.drawn && (task in w.callbacks ==> w.callbacks[task].claims.Some?)
    ensures var v := Apply(w, StoreResult(task, code, later));
            && v.states == w.states && v.sessions == w.sessions && |v.flows| == |w.flows|
            && v.results == if task in w.callbacks then w.results[code := ResultOf(w.callbacks[task].row, w.callbacks[task].claims.value, later)]
                            else w.results
  {}

  /** What Callback does to the tables. */
  lemma CallbackTables(w: World, task: int, state: Token, now: int, zone: Option<Zone>, a: Answers, later: int, code: Token)
    requires Inv(w) && task !in w.callbacks && code !in w.drawn
    ensures var v := Run(w, CallbackSteps(task, state, now, zone, a, later, code));
            && v.states == (if state in w.states && w.states[state].expiresAt > now then w.states - {state} else w.states)
            && v.sessions == w.sessions && |v.flows| == |w.flows|
            && v.results == (if Found(w.states, state, now, zone) && Proceeds(a) && Accepted(a).Some?
                             then w.results[code := ResultOf(w.states[state], Accepted(a).value, later)] else w.results)
  {
    InvAt(w, state, task, 0, 0, 0, 0, 0);
    var steps := CallbackSteps(task, state, now, zone, a, later, code);
    RunThree(w, steps);
    ConsumeTables(w, task, state, now, zone);
    var v := Apply(w, steps[0]);
    assert Found(w.states, state, now, zone) ==> Decrypt(w.states[state].verifier, w.states[state].provider).Some?;
    hide Inv, Apply, Decrypt, Run;
    if Found(w.states, state, now, zone) {
      ExchangeTables(v, task, Proceeds(a), Accepted(a));
      StoreTables(Apply(v, steps[1]), task, code, later);
    } else {
      EndedTables(v, task, Proceeds(a), Accepted(a), code, later);
    }
  }

  /** A code presented in time, on its own domain, whose zone resolves to the row's. */
  predicate Redeems(results: map<Token, LoginResult>, code: Token, domain: Domain, now: int, zone: Option<Zone>) {
    code in results && results[code].domain == domain && results[code].expiresAt > now && zone == Some(results[code].zone)
  }

  lemma RedeemTables(w: World, task: int, code: Token, domain: Domain, now: int, zone: Option<Zone>)
    requires task !in w.completions
    ensures var v := Apply(w, ConsumeCode(task, code, domain, now, zone));
            && v.results == (if code in w.results && w.results[code].domain == domain && w.results[code].expiresAt > now
                             then w.results - {code} else w.results)
            && v.states == w.states && v.sessions == w.sessions && |v.flows| == |w.flows|
            && (if Redeems(w.results, code, domain, now, zone)
                then task in v.completions && v.completions[task] == Completion(w.results[code], now)
                else task !in v.completions)
  {}

  lemma IssueTables(w: World, task: int, accepted: bool, later: int)
    ensures var v := Apply(w, Issue(task, accepted, later));
            && v.results == w.results && v.states == w.states && |v.flows| == |w.flows|
            && v.sessions == w.sessions + (if task in w.completions && accepted then [SessionOf(w.completions[task].row, later)] else [])
  {}

  function SessionOf(row: LoginResult, at: int): Session {
    Session(row.flow, row.provider, row.zone, row.domain, row.claims, at)
  }

  /** What Complete does to the tables. */
  lemma CompleteTables(w: World, task: int, code: Token, domain: Domain, now: int, zone: Option<Zone>, accepted: bool, later: int)
    requires Inv(w) && task !in w.completions
    ensures var v := Run(w, [ConsumeCode(task, code, domain, now, zone), Issue(task, accepted, later)]);
            && v.results == (if code in w.results && w.results[code].domain == domain && w.results[code].expiresAt > now
                             then w.results - {code} else w.results)
            && v.states == w.states && |v.flows| == |w.flows|
            && v.sessions == w.sessions + (if Redeems(w.results, code, domain, now, zone) && accepted
                                           then [SessionOf(w.results[code], later)] else [])
  {
    hide Inv, Apply, Run;
    var steps := [ConsumeCode(task, code, domain, now, zone), Issue(task, accepted, later)];
    RunTwo(w, steps);
    RedeemTables(w, task, code, domain, now, zone);
    IssueTables(Apply(w, steps[0]), task, accepted, later);
  }

  lemma RowDecrypts(w: World, state: Token)
    requires Inv(w) && state in w.states
    ensures Decrypt(w.states[state].verifier, w.states[state].provider).Some?
  {
    InvAt(w, state, 0, 0, 0, 0, 0, 0);
  }

  lemma RunTwo(w: World, steps: seq<Step>)
    requires Inv(w) && |steps| == 2
    ensures Run(w, steps) == Apply(Apply(w, steps[0]), steps[1])
  {
    hide Apply, Inv;
    var w1 := Apply(w, steps[0]); StepKeepsInv(w, steps[0]);
    StepKeepsInv(w1, steps[1]);
    assert Run(w1, steps[1..]) == Apply(w1, steps[1]);
  }

  class Service {
    var states: map<Token, LoginState>
    var results: map<Token, LoginResult>
    var sessions: seq<Session>
    /** How many Start calls have written a row. */
    var started: nat
    /** The same state with running callbacks and the history. */
    ghost var world: World

    ghost predicate Valid()
      reads this
    {
      Inv(world) && world.states == states && world.results == results && world.sessions == sessions && |world.flows| == started
    }

    constructor ()
      ensures Valid() && world == EMPTY
    {
      states, results, sessions, started := map[], map[], [], 0;
      world := EMPTY;
      EmptyInv();
    }

    method Start(provider: ProviderId, domain: Domain, redirectURI: URI, zone: Option<Zone>, ready: bool, state: Token,
                 nonce: Token, verifier: Token, now: int) returns (ok: bool)
      requires Valid() && state !in world.drawn && nonce !in world.drawn && verifier !in world.drawn
      modifies this
      ensures Valid() && ok == (zone.Some? && ready)
      ensures world == Apply(old(world), Begin(provider, domain, redirectURI, zone, ready, state, nonce, verifier, now))
      ensures ok ==> states == old(states)[state := LoginState(old(started), provider, zone.value, domain, redirectURI,
                                                              Seal(verifier, provider), nonce, now + 600_000_000)]
      ensures !ok ==> states == old(states)
      ensures results == old(results) && sessions == old(sessions)
    {
      hide Inv;
      StepKeepsInv(world, Begin(provider, domain, redirectURI, zone, ready, state, nonce, verifier, now));
      world := Apply(world, Begin(provider, domain, redirectURI, zone, ready, state, nonce, verifier, now));
      if zone.None? || !ready {
        return false;
      }
      states := states[state := LoginState(started, provider, zone.value, domain, redirectURI, Seal(verifier, provider),
                                           nonce, now + STATE_TTL)];
      started := started + 1;
      ok := true;
    }

    /** The verifier always decrypts; a completion code comes out exactly when the state was unexpired, its zone still
        resolves, the provider sent a code, the client secret was found, and the exchange and the claims were accepted. */
    method Callback(ghost task: int, state: Token, now: int, zone: Option<Zone>, a: Answers, later: int, code: Token)
      returns (outcome: Outcome)
      requires Valid() && task !in world.callbacks && code !in world.drawn
      modifies this
      ensures Valid()
      ensures world == Run(old(world), CallbackSteps(task, state, now, zone, a, later, code))
      ensures var found := Found(old(states), state, now, zone);
              && (outcome.StateNotFound? <==> !found)
              && (outcome.ProviderDenied? <==> found && a.denied)
              && (outcome.MissingCode? <==> found && !a.denied && !a.hasCode)
              && (outcome.SecretMissing? <==> found && !a.denied && a.hasCode && !a.secret)
              && (outcome.VerificationFailed? <==> found && Proceeds(a) && a.claims.None?)
              && (outcome.ClaimsRejected? <==> found && Proceeds(a) && a.claims.Some? && !a.mapped)
              && (outcome.ClaimsTooLarge? <==> found && Proceeds(a) && a.claims.Some? && a.mapped && !a.fits)
              && (outcome == Redirected(code) <==> found && Proceeds(a) && a.claims.Some? && a.mapped && a.fits)
              && !outcome.VerifierRejected?
      ensures states == if state in old(states) && now < old(states)[state].expiresAt then old(states) - {state} else old(states)
      ensures outcome.Redirected? ==>
                var row := old(states)[state];
                results == old(results)[code := LoginResult(row.flow, row.provider, row.zone, row.domain, a.claims.value, later + 120_000_000)]
      ensures !outcome.Redirected? ==> results == old(results)
      ensures sessions == old(sessions)
    {
      hide Inv, Run, Decrypt;
      CallbackTables(world, task, state, now, zone, a, later, code);
      if state in states { RowDecrypts(world, state); }
      world := Run(world, CallbackSteps(task, state, now, zone, a, later, code));
      if state !in states || !(states[state].expiresAt > now) {
        return StateNotFound;
      }
      var row := states[state];
      states := states - {state};
      if zone != Some(row.zone) {
        return StateNotFound;
      }
      if a.denied {
        return ProviderDenied;
      }
      if !a.hasCode {
        return MissingCode;
      }
      var verifier := Decrypt(row.verifier, row.provider);
      if verifier.None? {
        return VerifierRejected;
      }
      if !a.secret {
        return SecretMissing;
      }
      if a.claims.None? {
        return VerificationFailed;
      }
      if !a.mapped {
        return ClaimsRejected;
      }
      if !a.fits {
        return ClaimsTooLarge;
      }
      results := results[code := LoginResult(row.flow, row.provider, row.zone, row.domain, a.claims.value, later + RESULT_TTL)];
      return Redirected(code);
    }

    /** A session is issued exactly for an unexpired, unspent code presented on its own domain. */
    method Complete(ghost task: int, code: Token, domain: Domain, now: int, zone: Option<Zone>, accepted: bool, later: int)
      returns (session: Option<Session>)
      requires Valid() && task !in world.completions
      modifies this
      ensures Valid()
      ensures world == Run(old(world), [ConsumeCode(task, code, domain, now, zone), Issue(task, accepted, later)])
      ensures session.Some? <==> code in old(results) && old(results)[code].domain == domain && old(results)[code].expiresAt > now
                                 && zone == Some(old(results)[code].zone) && accepted
      ensures session.Some? ==>
                var row := old(results)[code];
                && session.value == Session(row.flow, row.provider, row.zone, row.domain, row.claims, later)
                && sessions == old(sessions) + [session.value] && BelongsTo(world, session.value)
      ensures session.None? ==> sessions == old(sessions)
      ensures results == if code in old(results) && old(results)[code].domain == domain && now < old(results)[code].expiresAt
                         then old(results) - {code} else old(results)
      ensures states == old(states)
    {
      hide Inv, Run;
      CompleteTables(world, task, code, domain, now, zone, accepted, later);
      world := Run(world, [ConsumeCode(task, code, domain, now, zone), Issue(task, accepted, later)]);
      if code !in results || results[code].domain != domain || !(results[code].expiresAt > now) {
        return None;
      }
      var row := results[code];
      results := results - {code};
      if zone != Some(row.zone) || !accepted {
        return None;
      }
      session := Some(Session(row.flow, row.provider, row.zone, row.domain, row.claims, later));
      sessions := sessions + [session.value];
      InvAt(world, 0, 0, 0, 0, |sessions| - 1, 0, row.flow);
    }
  }
}

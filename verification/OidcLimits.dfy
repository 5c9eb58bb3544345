/** The two time limits of the OIDC login in figures, over any interleaving: ten minutes for a state, two for a
    completion code. */
module OidcLimits {
  import opened Wrappers
  import opened Oidc
  import opened OidcService

  // ---------------------------------------------------------------- rows stay until they are consumed

  lemma StateStays(w: World, step: Step, state: Token)
    requires Inv(w) && state in w.states && !(step.ConsumeState? && step.state == state)
    ensures state in Apply(w, step).states && Apply(w, step).states[state] == w.states[state]
  {
    InvAt(w, state, 0, 0, 0, 0, 0, 0);
    hide Inv, RowOf;
  }

  lemma {:induction false} StateStaysOn(w: World, steps: seq<Step>, state: Token)
    requires Inv(w) && state in w.states && forall s | s in steps :: !(s.ConsumeState? && s.state == state)
    ensures state in Run(w, steps).states && Run(w, steps).states[state] == w.states[state]
    decreases |steps|
  {
    hide Inv, Apply;
    if steps != [] {
      StateStays(w, steps[0], state);
      StepKeepsInv(w, steps[0]);
      StateStaysOn(Apply(w, steps[0]), steps[1..], state);
    }
  }

  /** A code presented on another domain is not spent. */
  lemma CodeStays(w: World, step: Step, code: Token)
    requires Inv(w) && code in w.results
    requires !(step.ConsumeCode? && step.code == code && step.domain == w.results[code].domain)
    ensures code in Apply(w, step).results && Apply(w, step).results[code] == w.results[code]
  {
    InvAt(w, 0, 0, code, 0, 0, 0, 0);
    hide Inv, RowOf;
  }

  lemma {:induction false} CodeStaysOn(w: World, steps: seq<Step>, code: Token)
    requires Inv(w) && code in w.results
    requires forall s | s in steps :: !(s.ConsumeCode? && s.code == code && s.domain == w.results[code].domain)
    ensures code in Run(w, steps).results && Run(w, steps).results[code] == w.results[code]
    decreases |steps|
  {
    hide Inv, Apply;
    if steps != [] {
      CodeStays(w, steps[0], code);
      StepKeepsInv(w, steps[0]);
      CodeStaysOn(Apply(w, steps[0]), steps[1..], code);
    }
  }

  // ---------------------------------------------------------------- ten minutes

  /** The Start call stores a row. */
  predicate Starts(w: World, s: Step) { s.Begin? && Enabled(w, s) && s.zone.Some? && s.ready }

  lemma StartStores(w: World, s: Step)
    requires Starts(w, s)
    ensures var v := Apply(w, s);
            && s.state in v.states && v.states[s.state].zone == s.zone.value && v.states[s.state].domain == s.domain
            && v.states[s.state].expiresAt == s.now + 600_000_000
  {}

  /** After a Start at time t and anything else but a Callback with its state, a Callback on the zone finds the state
      exactly before t + 10 minutes; it stores a result exactly then, if the provider and the claims allow it, and the
      result expires two minutes after that moment. From t + 10 minutes on it changes no table. */
  lemma StateLivesTenMinutes(w: World, start: Step, mid: seq<Step>, task: int, now: int, a: Answers, later: int, code: Token)
    requires Inv(w) && Starts(w, start) && forall s | s in mid :: !(s.ConsumeState? && s.state == start.state)
    requires var v := Run(w, [start] + mid); task !in v.callbacks && code !in v.drawn
    ensures var v := Run(w, [start] + mid);
            var x := Run(v, CallbackSteps(task, start.state, now, start.zone, a, later, code));
            && (Found(v.states, start.state, now, start.zone) <==> now < start.now + 600_000_000)
            && (now < start.now + 600_000_000 ==> start.state !in x.states)
            && (now >= start.now + 600_000_000 ==> x.states == v.states && x.results == v.results)
            && (code in x.results <==> now < start.now + 600_000_000 && Proceeds(a) && Accepted(a).Some?)
            && (code in x.results ==> x.results[code].domain == start.domain && x.results[code].zone == start.zone.value
                                      && x.results[code].expiresAt == later + 120_000_000)
  {
    var begun := Apply(w, start);
    StartStores(w, start);
    StepKeepsInv(w, start);
    assert ([start] + mid)[1..] == mid;
    StateStaysOn(begun, mid, start.state);
    var v := Run(w, [start] + mid);
    CodeIsNew(v, code);
    CallbackTables(v, task, start.state, now, start.zone, a, later, code);
    hide Inv, Apply, Run, Proceeds, Accepted, CallbackSteps;
  }

  lemma CodeIsNew(w: World, code: Token)
    requires Inv(w) && code !in w.drawn
    ensures code !in w.results
  {
    InvAt(w, 0, 0, code, 0, 0, 0, 0);
  }

  // ---------------------------------------------------------------- two minutes

  lemma StoreStores(w: World, s: Step)
    requires s.StoreResult? && Enabled(w, s)
    ensures var v, row := Apply(w, s), w.callbacks[s.task].row;
            && s.code in v.results && v.results[s.code].domain == row.domain && v.results[s.code].zone == row.zone
            && v.results[s.code].expiresAt == s.now + 120_000_000
  {}

  /** After a Callback stored its code at time u and anything else but a Complete with that code on its domain, a
      Complete whose zone resolves redeems the code exactly on its own domain and before u + 2 minutes; otherwise it
      issues no session. */
  lemma CodeLivesTwoMinutes(w: World, store: Step, mid: seq<Step>, task: int, domain: Domain, now: int, accepted: bool, later: int)
    requires Inv(w) && store.StoreResult? && Enabled(w, store)
    requires forall s | s in mid :: !(s.ConsumeCode? && s.code == store.code && s.domain == w.callbacks[store.task].row.domain)
    requires task !in Run(w, [store] + mid).completions
    ensures var v, row := Run(w, [store] + mid), w.callbacks[store.task].row;
            var x := Run(v, [ConsumeCode(task, store.code, domain, now, Some(row.zone)), Issue(task, accepted, later)]);
            var redeemed := domain == row.domain && now < store.now + 120_000_000;
            && (store.code in x.results <==> !redeemed)
            && |x.sessions| == |v.sessions| + (if redeemed && accepted then 1 else 0)
            && (redeemed && accepted ==> x.sessions[|v.sessions|].domain == row.domain && x.sessions[|v.sessions|].at == later)
  {
    var row := w.callbacks[store.task].row;
    StoreStores(w, store);
    StepKeepsInv(w, store);
    assert ([store] + mid)[1..] == mid;
    CodeStaysOn(Apply(w, store), mid, store.code);
    var v := Run(w, [store] + mid);
    CompleteTables(v, task, store.code, domain, now, Some(row.zone), accepted, later);
    hide Inv, Apply, Run;
  }
}

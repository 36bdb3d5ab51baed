/**
 * Retry inside a circuit breaker inside a failover chain (packages/core/src/adapters/otp-delivery-manager.ts).
 */
module DeliveryManager {
  import opened Wrappers
  import opened Retry
  import opened CircuitBreaker

  /** A configured provider. Its script says what its transport does on the n-th send made through this wrapper. */
  datatype ProviderConfig = ProviderConfig(
    id: string,
    supported: bool,
    retry: RetryConfig,
    breaker: BreakerConfig,
    script: Script)

  datatype ProviderState = ProviderState(breaker: Breaker, sent: nat)

  const UNUSED := ProviderState(FRESH, 0)

  datatype DispatchError = NoProvider | AllFailed(errors: seq<DeliveryResult>)

  function ShortCircuited(id: string): DeliveryResult {
    DeliveryResult(false, Some(false), id, 0, Some("Circuit open \U{2014} delivery short-circuited"), Some(503))
  }

  function Unsupported(id: string): DeliveryResult {
    DeliveryResult(false, None, id, 0, Some("provider does not support this channel"), None)
  }

  /** Result of one guarded send, with the provider's next state and the clock afterwards. */
  datatype Guarded = Guarded(result: DeliveryResult, state: ProviderState, now: int)

  function Guard(p: ProviderConfig, s: ProviderState, now: int): Guarded {
    var b := AfterCheck(p.breaker, s.breaker, now);
    if b.state == Open then Guarded(ShortCircuited(p.id), ProviderState(b, s.sent), now)
    else
      var run := WholeRun(p.retry, p.id, p.script, s.sent, now);
      var b' := if run.result.ok then AfterSuccess(p.breaker, b) else AfterFailure(p.breaker, b, run.now);
      Guarded(run.result.(latencyMs := run.now - now), ProviderState(b', run.sent), run.now)
  }

  /** A provider wrapped in retry and breaker. */
  class GuardedProvider {
    const config: ProviderConfig
    const breaker: BreakerCell
    var sent: nat

    ghost predicate Valid()
    {
      breaker.cfg == config.breaker
    }

    ghost function State(): ProviderState
      reads this, breaker
    {
      ProviderState(breaker.Value(), sent)
    }

    constructor (config: ProviderConfig)
      ensures Valid() && this.config == config && State() == UNUSED && fresh(breaker)
    {
      this.config := config;
      breaker := new BreakerCell(config.breaker);
      sent := 0;
    }

    method Send(now0: int) returns (result: DeliveryResult, now: int)
      requires Valid()
      modifies this, breaker
      ensures Guarded(result, State(), now) == Guard(config, old(State()), now0)
    {
      hide WholeRun;
      var open := breaker.IsOpen(now0);
      if open { return ShortCircuited(config.id), now0; }
      var delays;
      result, sent, now, delays := RunRetry(config.retry, config.id, config.script, sent, now0);
      if result.ok {
        breaker.RecordSuccess();
      } else {
        breaker.RecordFailure(now);
      }
      result := result.(latencyMs := now - now0);
    }
  }

  // ---------------------------------------------------------------------------
  // Failover
  // ---------------------------------------------------------------------------

  datatype Dispatched = Dispatched(outcome: Result<(), DispatchError>, states: seq<ProviderState>, now: int)

  /** Asking one provider of the chain; one that lacks the channel is passed over. */
  function Ask(p: ProviderConfig, s: ProviderState, now: int): Guarded {
    if p.supported then Guard(p, s, now) else Guarded(Unsupported(p.id), s, now)
  }

  function DispatchFrom(chain: seq<ProviderConfig>, states: seq<ProviderState>, now: int, i: nat,
                        errors: seq<DeliveryResult>): Dispatched
    requires |states| == |chain| && i <= |chain|
    decreases |chain| - i
  {
    if i == |chain| then Dispatched(Err(AllFailed(errors)), states, now)
    else
      var g := Ask(chain[i], states[i], now);
      var states' := states[i := g.state];
      if g.result.ok then Dispatched(Ok(()), states', g.now)
      else DispatchFrom(chain, states', g.now, i + 1, errors + [g.result])
  }

  function Dispatch(chain: seq<ProviderConfig>, states: seq<ProviderState>, now: int): Dispatched
    requires |states| == |chain|
  {
    if chain == [] then Dispatched(Err(NoProvider), states, now) else DispatchFrom(chain, states, now, 0, [])
  }

  ghost function Configs(chain: seq<GuardedProvider>): (c: seq<ProviderConfig>)
    ensures |c| == |chain|
  {
    seq(|chain|, i requires 0 <= i < |chain| => chain[i].config)
  }

  ghost function States(chain: seq<GuardedProvider>): (s: seq<ProviderState>)
    reads set p | p in chain, set p | p in chain :: p.breaker
    ensures |s| == |chain|
  {
    seq(|chain|,
        i requires 0 <= i < |chain| reads set p | p in chain, set p | p in chain :: p.breaker => chain[i].State())
  }

  /** Every provider has its own wrapper and its own breaker. */
  ghost predicate ValidChain(chain: seq<GuardedProvider>) {
    && (forall i :: 0 <= i < |chain| ==> chain[i].Valid())
    && (forall i, j :: 0 <= i < j < |chain| ==> chain[i] != chain[j] && chain[i].breaker != chain[j].breaker)
  }

  method Wrap(list: seq<ProviderConfig>) returns (chain: seq<GuardedProvider>)
    ensures ValidChain(chain) && Configs(chain) == list && States(chain) == seq(|list|, _ => UNUSED)
    ensures forall p :: p in chain ==> fresh(p) && fresh(p.breaker)
  {
    chain := [];
    for i := 0 to |list|
      invariant |chain| == i && ValidChain(chain)
      invariant forall k :: 0 <= k < i ==>
        chain[k].config == list[k] && chain[k].State() == UNUSED && fresh(chain[k]) && fresh(chain[k].breaker)
    {
      var p := new GuardedProvider(list[i]);
      chain := chain + [p];
    }
  }

  method DispatchSend(chain: seq<GuardedProvider>, now0: int) returns (outcome: Result<(), DispatchError>, now: int)
    requires ValidChain(chain)
    modifies set p | p in chain, set p | p in chain :: p.breaker
    ensures Dispatched(outcome, States(chain), now) == Dispatch(Configs(chain), old(States(chain)), now0)
  {
    hide Guard, DispatchFrom;
    now := now0;
    if |chain| == 0 { return Err(NoProvider), now; }
    var errors: seq<DeliveryResult> := [];
    ghost var configs, whole := Configs(chain), Dispatch(Configs(chain), States(chain), now0);
    for i := 0 to |chain|
      invariant DispatchFrom(configs, States(chain), now, i, errors) == whole
    {
      ghost var before := States(chain);
      DispatchFromStep(configs, before, now, i, errors);
      var p := chain[i];
      if !p.config.supported {
        errors := errors + [Unsupported(p.config.id)];
        assert before[i := before[i]] == before;
        continue;
      }
      var result;
      result, now := p.Send(now);
      assert States(chain) == before[i := p.State()];
      if result.ok { return Ok(()), now; }
      errors := errors + [result];
    }
    DispatchFromEnd(configs, States(chain), now, errors);
    outcome := Err(AllFailed(errors));
  }

  lemma {:induction false} DispatchFromStep(chain: seq<ProviderConfig>, states: seq<ProviderState>, now: int, i: nat,
                                            errors: seq<DeliveryResult>)
    requires |states| == |chain| && i < |chain|
    ensures
      var g := Ask(chain[i], states[i], now);
      DispatchFrom(chain, states, now, i, errors) ==
      if g.result.ok then Dispatched(Ok(()), states[i := g.state], g.now)
      else DispatchFrom(chain, states[i := g.state], g.now, i + 1, errors + [g.result])
  {
  }

  lemma {:induction false} DispatchFromEnd(chain: seq<ProviderConfig>, states: seq<ProviderState>, now: int,
                                           errors: seq<DeliveryResult>)
    requires |states| == |chain|
    ensures DispatchFrom(chain, states, now, |chain|, errors) == Dispatched(Err(AllFailed(errors)), states, now)
  {
  }

  // ---------------------------------------------------------------------------
  // What failover amounts to
  // ---------------------------------------------------------------------------

  /** The clock when provider i is asked, if no earlier one accepts. */
  function ClockAt(chain: seq<ProviderConfig>, states: seq<ProviderState>, now: int, i: nat): int
    requires |states| == |chain| && i <= |chain|
  {
    if i == 0 then now else Ask(chain[i - 1], states[i - 1], ClockAt(chain, states, now, i - 1)).now
  }

  /** What provider i answers when it is asked. */
  function Answer(chain: seq<ProviderConfig>, states: seq<ProviderState>, now: int, i: nat): Guarded
    requires |states| == |chain| && i < |chain|
  {
    Ask(chain[i], states[i], ClockAt(chain, states, now, i))
  }

  /** The states after the first k providers were asked; the others are untouched. */
  ghost predicate AskedUpTo(chain: seq<ProviderConfig>, states: seq<ProviderState>, now: int, k: nat,
                            after: seq<ProviderState>)
    requires |states| == |chain|
  {
    && k <= |chain| && |after| == |chain|
    && (forall i :: 0 <= i < k ==> after[i] == Answer(chain, states, now, i).state)
    && (forall i :: k <= i < |chain| ==> after[i] == states[i])
  }

  /** The errors of the first k providers, in order. */
  ghost predicate ErrorsUpTo(chain: seq<ProviderConfig>, states: seq<ProviderState>, now: int, k: nat,
                             errors: seq<DeliveryResult>)
    requires |states| == |chain| && k <= |chain|
  {
    && |errors| == k
    && (forall i :: 0 <= i < k ==> errors[i] == Answer(chain, states, now, i).result && !errors[i].ok)
  }

  lemma {:induction false} DispatchFromOutcome(chain: seq<ProviderConfig>, states: seq<ProviderState>, now: int,
                                               i: nat, current: seq<ProviderState>, errors: seq<DeliveryResult>)
    requires |states| == |chain| && i <= |chain|
    requires AskedUpTo(chain, states, now, i, current) && ErrorsUpTo(chain, states, now, i, errors)
    ensures
      var d := DispatchFrom(chain, current, ClockAt(chain, states, now, i), i, errors);
      if d.outcome.Ok? then
        exists k :: i <= k < |chain| && Answer(chain, states, now, k).result.ok
                    && (forall j :: 0 <= j < k ==> !Answer(chain, states, now, j).result.ok)
                    && AskedUpTo(chain, states, now, k + 1, d.states)
      else
        && d.outcome.error.AllFailed?
        && ErrorsUpTo(chain, states, now, |chain|, d.outcome.error.errors)
        && AskedUpTo(chain, states, now, |chain|, d.states)
    decreases |chain| - i
  {
    hide Ask;
    if i < |chain| {
      var g := Answer(chain, states, now, i);
      assert g == Ask(chain[i], current[i], ClockAt(chain, states, now, i));
      assert AskedUpTo(chain, states, now, i + 1, current[i := g.state]);
      if !g.result.ok {
        assert ClockAt(chain, states, now, i + 1) == g.now;
        DispatchFromOutcome(chain, states, now, i + 1, current[i := g.state], errors + [g.result]);
      } else {
        forall j | 0 <= j < i
          ensures !Answer(chain, states, now, j).result.ok
        {
          assert errors[j] == Answer(chain, states, now, j).result;
        }
      }
    }
  }

  /**
   * Failover: a non-empty chain succeeds exactly when some provider accepts when its turn comes. Then providers
   * after the first accepting one are not touched; otherwise there is one error per provider, in order.
   */
  lemma {:induction false} DispatchOutcome(chain: seq<ProviderConfig>, states: seq<ProviderState>, now: int)
    requires |states| == |chain| && chain != []
    ensures
      var d := Dispatch(chain, states, now);
      && (d.outcome.Ok? <==> exists k :: 0 <= k < |chain| && Answer(chain, states, now, k).result.ok)
      && (d.outcome.Ok? ==>
            exists k :: 0 <= k < |chain| && Answer(chain, states, now, k).result.ok
                        && (forall j :: 0 <= j < k ==> !Answer(chain, states, now, j).result.ok)
                        && AskedUpTo(chain, states, now, k + 1, d.states))
      && (d.outcome.Err? ==>
            && d.outcome.error.AllFailed?
            && ErrorsUpTo(chain, states, now, |chain|, d.outcome.error.errors)
            && AskedUpTo(chain, states, now, |chain|, d.states))
  {
    DispatchFromOutcome(chain, states, now, 0, states, []);
    var d := Dispatch(chain, states, now);
    if d.outcome.Err? {
      forall k | 0 <= k < |chain|
        ensures !Answer(chain, states, now, k).result.ok
      {
        assert d.outcome.error.errors[k] == Answer(chain, states, now, k).result;
      }
    }
  }

  /** A guarded send succeeds exactly when the transport accepted one of its sends; an open breaker makes none. */
  lemma {:induction false} GuardAccepts(p: ProviderConfig, s: ProviderState, now: int)
    ensures
      var g := Guard(p, s, now);
      && s.sent <= g.state.sent
      && (g.result.ok <==> exists n :: s.sent <= n < g.state.sent && Accepted(p.script(n)))
      && (AfterCheck(p.breaker, s.breaker, now).state == Open ==> g.state.sent == s.sent && g.now == now)
  {
    hide WholeRun;
    RunIsFirstDecisive(p.retry, p.id, p.script, s.sent, now);
    RunOkIff(p.retry, p.id, p.script, s.sent, now);
  }

  /**
   * What a guarded send reports: an open breaker a failure with status 503 at once, otherwise what the retry run says,
   * with the time it took.
   */
  lemma {:induction false} GuardReports(p: ProviderConfig, s: ProviderState, now: int)
    ensures
      var g := Guard(p, s, now);
      var run := WholeRun(p.retry, p.id, p.script, s.sent, now);
      if AfterCheck(p.breaker, s.breaker, now).state == Open then
        && !g.result.ok && g.result.statusCode == Some(503) && g.result.providerId == p.id
        && g.now == now && g.state.sent == s.sent
      else
        && g.result.latencyMs == g.now - now && g.result.(latencyMs := 0) == run.result.(latencyMs := 0)
        && g.now == run.now && g.state.sent == run.sent
  {
    hide WholeRun;
  }

  /**
   * A provider without the channel is passed over: it never accepts, is sent nothing, costs no time, and the next one
   * is asked at the same moment.
   */
  lemma {:induction false} UnsupportedIsPassedOver(chain: seq<ProviderConfig>, states: seq<ProviderState>, now: int,
                                                   k: nat)
    requires |states| == |chain| && k < |chain| && !chain[k].supported
    ensures !Answer(chain, states, now, k).result.ok && Answer(chain, states, now, k).result.providerId == chain[k].id
    ensures ClockAt(chain, states, now, k + 1) == ClockAt(chain, states, now, k)
    ensures |Dispatch(chain, states, now).states| == |chain| && Dispatch(chain, states, now).states[k] == states[k]
  {
    DispatchOutcome(chain, states, now);
  }

  /** Transport k, which has the channel, accepted a send made during the dispatch. */
  ghost predicate DeliveredBy(chain: seq<ProviderConfig>, before: seq<ProviderState>, after: seq<ProviderState>, k: nat,
                              n: nat)
    requires |before| == |after| == |chain|
  {
    k < |chain| && chain[k].supported && before[k].sent <= n < after[k].sent && Accepted(chain[k].script(n))
  }

  lemma {:induction false} AnswerAccepts(chain: seq<ProviderConfig>, states: seq<ProviderState>, now: int, k: nat)
    requires |states| == |chain| && k < |chain|
    ensures
      var g := Answer(chain, states, now, k);
      g.result.ok <==>
        chain[k].supported && exists n :: states[k].sent <= n < g.state.sent && Accepted(chain[k].script(n))
  {
    hide Guard;
    GuardAccepts(chain[k], states[k], ClockAt(chain, states, now, k));
  }

  lemma {:induction false} StateOfAsked(chain: seq<ProviderConfig>, states: seq<ProviderState>, now: int, k: nat,
                                        m: nat, after: seq<ProviderState>)
    requires |states| == |chain| && AskedUpTo(chain, states, now, m, after) && k < m
    ensures |after| == |chain| && k < |chain| && after[k] == Answer(chain, states, now, k).state
  {
    hide Answer;
  }

  /** Fail-closed: a dispatch succeeds if and only if some transport really accepted a send that it made. */
  lemma {:induction false} DeliveredIff(chain: seq<ProviderConfig>, states: seq<ProviderState>, now: int)
    requires |states| == |chain|
    ensures
      var d := Dispatch(chain, states, now);
      && |d.states| == |chain|
      && (d.outcome.Ok? <==> exists k, n :: DeliveredBy(chain, states, d.states, k, n))
  {
    hide Guard, DispatchFrom, Ask, AfterCheck, Accepted;
    if chain != [] {
      DispatchOutcome(chain, states, now);
      var d := Dispatch(chain, states, now);
      if d.outcome.Ok? {
        var k :| 0 <= k < |chain| && Answer(chain, states, now, k).result.ok
                 && AskedUpTo(chain, states, now, k + 1, d.states);
        AnswerAccepts(chain, states, now, k);
        StateOfAsked(chain, states, now, k, k + 1, d.states);
        var n :| states[k].sent <= n < d.states[k].sent && Accepted(chain[k].script(n));
        assert DeliveredBy(chain, states, d.states, k, n);
      } else {
        forall k: nat, n: nat | k < |chain|
          ensures !DeliveredBy(chain, states, d.states, k, n)
        {
          assert d.outcome.error.errors[k] == Answer(chain, states, now, k).result;
          StateOfAsked(chain, states, now, k, |chain|, d.states);
          AnswerAccepts(chain, states, now, k);
        }
      }
    }
  }

  // ---------------------------------------------------------------------------
  // Load on a dead transport, through retry and breaker
  // ---------------------------------------------------------------------------

  /** A provider's history: its state, the clock, and every guarded call as the breaker saw it. */
  datatype History = History(state: ProviderState, now: int, calls: seq<Call>)

  /** Requests one after another, each some time after the previous one returned. */
  function Serve(p: ProviderConfig, start: int, gaps: seq<nat>): History {
    if gaps == [] then History(UNUSED, start, [])
    else
      var h := Serve(p, start, gaps[..|gaps| - 1]);
      var check := h.now + gaps[|gaps| - 1];
      var g := Guard(p, h.state, check);
      History(g.state, g.now, h.calls + [Call(check, g.result.ok, g.now)])
  }

  ghost predicate DeadTransport(p: ProviderConfig) {
    forall n :: !Accepted(p.script(n))
  }

  /** Attempts per guarded send. */
  function Budget(p: ProviderConfig): nat {
    if p.retry.attempts >= 1 then p.retry.attempts else 0
  }

  lemma {:induction false} GuardStep(p: ProviderConfig, s: ProviderState, now: int)
    ensures
      var g := Guard(p, s, now);
      var c := Call(now, g.result.ok, g.now);
      && now <= g.now
      && g.state.breaker == Step(p.breaker, s.breaker, c)
      && s.sent <= g.state.sent <= s.sent + (if Sent(p.breaker, s.breaker, c) then Budget(p) else 0)
      && (DeadTransport(p) ==> !g.result.ok)
  {
    hide WholeRun;
    RunIsFirstDecisive(p.retry, p.id, p.script, s.sent, now);
    RunOkIff(p.retry, p.id, p.script, s.sent, now);
  }

  lemma {:induction false} ServeIsBreakerRun(p: ProviderConfig, start: int, gaps: seq<nat>)
    ensures
      var h := Serve(p, start, gaps);
      && |h.calls| == |gaps|
      && Ordered(start, h.calls)
      && start <= h.now && (h.calls != [] ==> h.calls[|h.calls| - 1].record == h.now)
      && h.state.breaker == After(p.breaker, FRESH, h.calls)
      && h.state.sent <= Budget(p) * Sends(p.breaker, FRESH, h.calls)
      && (DeadTransport(p) ==> AllFail(h.calls))
  {
    hide Guard, Step, Sent, After, Sends, Ordered, AllFail, DeadTransport;
    if gaps == [] {
      EmptyRun(p.breaker, start);
    } else {
      var init := Serve(p, start, gaps[..|gaps| - 1]);
      var check := init.now + gaps[|gaps| - 1];
      var g := Guard(p, init.state, check);
      ServeIsBreakerRun(p, start, gaps[..|gaps| - 1]);
      GuardStep(p, init.state, check);
      RunNext(p.breaker, start, init.calls, Call(check, g.result.ok, g.now), init.now);
      MulNext(Budget(p), Sends(p.breaker, FRESH, init.calls));
    }
  }

  lemma {:induction false} EmptyRun(cfg: BreakerConfig, start: int)
    ensures Ordered(start, []) && AllFail([]) && After(cfg, FRESH, []) == FRESH && Sends(cfg, FRESH, []) == 0
  {
  }

  /** Appending one call to a breaker run. */
  lemma {:induction false} RunNext(cfg: BreakerConfig, start: int, calls: seq<Call>, c: Call, now: int)
    requires Ordered(start, calls) && start <= now <= c.check <= c.record
    requires calls != [] ==> calls[|calls| - 1].record == now
    ensures Ordered(start, calls + [c])
    ensures AllFail(calls) && !c.ok ==> AllFail(calls + [c])
    ensures After(cfg, FRESH, calls + [c]) == Step(cfg, After(cfg, FRESH, calls), c)
    ensures Sends(cfg, FRESH, calls + [c])
         == Sends(cfg, FRESH, calls) + if Sent(cfg, After(cfg, FRESH, calls), c) then 1 else 0
  {
    hide Step, Sent;
    assert (calls + [c])[..|calls|] == calls;
    forall i | 0 <= i < |calls|
      ensures calls[i].record <= now
    {
      if i < |calls| - 1 {
        assert calls[i].record <= calls[|calls| - 1].check <= calls[|calls| - 1].record;
      }
    }
  }

  lemma {:induction false} MulNext(a: nat, n: nat)
    ensures a * (n + 1) == a * n + a
  {
  }

  /**
   * However often a dead transport is asked through its wrapper, it sees at most
   * attempts * (failureThreshold + T / cooldown) sends, T being the time from the start to the last request.
   */
  lemma {:induction false} DeadTransportLoad(p: ProviderConfig, start: int, gaps: seq<nat>)
    requires p.breaker.failureThreshold >= 1 && p.breaker.cooldownMs >= 1
    requires DeadTransport(p) && gaps != []
    ensures
      var h := Serve(p, start, gaps);
      && |h.calls| == |gaps|
      && h.state.sent <=
         Budget(p) * (p.breaker.failureThreshold + (h.calls[|gaps| - 1].check - start) / p.breaker.cooldownMs)
  {
    hide Serve, Ordered, AllFail, After, Sends, DeadTransport, Budget;
    ServeIsBreakerRun(p, start, gaps);
    var h := Serve(p, start, gaps);
    DeadTransportBound(p.breaker, start, h.calls);
    var bound := p.breaker.failureThreshold + (h.calls[|gaps| - 1].check - start) / p.breaker.cooldownMs;
    MulMonotone(Sends(p.breaker, FRESH, h.calls), bound, Budget(p));
  }
}

/**
 * Overlapping guarded calls on one circuit breaker (packages/core/src/adapters/otp-provider.ts): each checks the
 * breaker, sends, and records its outcome only when the send is over.
 */
module BreakerOverlap {
  import opened CircuitBreaker
  import opened ModArith

  /** The breaker, the calls between check and record, and all calls sent so far. */
  datatype State = State(breaker: Breaker, inFlight: nat, sent: nat)

  datatype Step = Check(now: int) | Record(ok: bool, now: int)

  const IDLE := State(FRESH, 0, 0)

  function Apply(cfg: BreakerConfig, s: State, step: Step): State {
    match step
    case Check(now) =>
      var b := AfterCheck(cfg, s.breaker, now);
      if b.state == Open then s.(breaker := b) else State(b, s.inFlight + 1, s.sent + 1)
    case Record(ok, now) =>
      if s.inFlight == 0 then s
      else State(if ok then AfterSuccess(cfg, s.breaker) else AfterFailure(cfg, s.breaker, now), s.inFlight - 1, s.sent)
  }

  function Run(cfg: BreakerConfig, s: State, steps: seq<Step>): State
    decreases |steps|
  {
    if steps == [] then s else Run(cfg, Apply(cfg, s, steps[0]), steps[1..])
  }

  /** Against a transport that always fails, at most k calls at a time, on a clock that runs from `from` to `to`. */
  predicate Dead(cfg: BreakerConfig, k: nat, s: State, steps: seq<Step>, from: int, to: int)
    decreases |steps|
  {
    && s.inFlight <= k && from <= to
    && (steps != [] ==>
          && from <= steps[0].now && (steps[0].Record? ==> !steps[0].ok)
          && Dead(cfg, k, Apply(cfg, s, steps[0]), steps[1..], steps[0].now, to))
  }

  // ---------------------------------------------------------------------------
  // The bound
  // ---------------------------------------------------------------------------

  /** Cooldowns between two instants. */
  function Cooldowns(cfg: BreakerConfig, start: int, now: int): nat
    requires cfg.cooldownMs >= 1 && start <= now
  {
    (now - start) / cfg.cooldownMs
  }

  lemma {:induction false} CooldownsGrow(cfg: BreakerConfig, start: int, t: int, now: int)
    requires cfg.cooldownMs >= 1 && start <= t <= now
    ensures Cooldowns(cfg, start, t) <= Cooldowns(cfg, start, now)
    ensures now - t >= cfg.cooldownMs ==> Cooldowns(cfg, start, t) + 1 <= Cooldowns(cfg, start, now)
  {
    var c, q := cfg.cooldownMs, Cooldowns(cfg, start, t);
    assert (t - start) == q * c + (t - start) % c;
    DivisionBound(q, now - start, c);
    if now - t >= c {
      MulDifference(q + 1, 1, c);
      DivisionBound(q + 1, now - start, c);
    }
  }

  /** The most that can have been sent after n cooldowns. */
  function Allowed(cfg: BreakerConfig, k: nat, n: nat): int {
    cfg.failureThreshold - 1 + k + k * n
  }

  lemma {:induction false} AllowedGrows(cfg: BreakerConfig, k: nat, n: nat, n': nat)
    requires n <= n'
    ensures Allowed(cfg, k, n) <= Allowed(cfg, k, n')
    ensures n + 1 <= n' ==> Allowed(cfg, k, n) + k <= Allowed(cfg, k, n')
  {
    assert k * n' == k * n + k * (n' - n);
    if n + 1 <= n' { assert k * (n' - n) == k + k * (n' - n - 1); }
  }

  /** While closed every send is counted or in flight; while half-open every free slot may still send. */
  ghost predicate Paced(cfg: BreakerConfig, k: nat, start: int, s: State, now: int) {
    && cfg.cooldownMs >= 1 && start <= now && s.inFlight <= k
    && match s.breaker.state
       case Closed => s.breaker.failures < cfg.failureThreshold && s.sent == s.breaker.failures + s.inFlight
       case Open =>
         && start <= s.breaker.openedAt <= now
         && s.sent <= Allowed(cfg, k, Cooldowns(cfg, start, s.breaker.openedAt))
       case HalfOpen => s.sent + k - s.inFlight <= Allowed(cfg, k, Cooldowns(cfg, start, now))
  }

  lemma {:induction false} StepPaced(cfg: BreakerConfig, k: nat, start: int, s: State, now: int, step: Step)
    requires Paced(cfg, k, start, s, now) && now <= step.now && Apply(cfg, s, step).inFlight <= k
    requires step.Record? ==> !step.ok
    ensures Paced(cfg, k, start, Apply(cfg, s, step), step.now)
  {
    hide Cooldowns, Allowed;
    CooldownsGrow(cfg, start, now, step.now);
    AllowedGrows(cfg, k, Cooldowns(cfg, start, now), Cooldowns(cfg, start, step.now));
    if s.breaker.state == Open {
      CooldownsGrow(cfg, start, s.breaker.openedAt, step.now);
      AllowedGrows(cfg, k, Cooldowns(cfg, start, s.breaker.openedAt), Cooldowns(cfg, start, step.now));
    } else if s.breaker.state == Closed {
      AllowedAtFirst(cfg, k, Cooldowns(cfg, start, step.now));
    }
  }

  lemma {:induction false} AllowedAtFirst(cfg: BreakerConfig, k: nat, n: nat)
    ensures Allowed(cfg, k, n) >= cfg.failureThreshold - 1 + k
  {
    AllowedGrows(cfg, k, 0, n);
  }

  lemma {:induction false} RunPaced(cfg: BreakerConfig, k: nat, start: int, s: State, steps: seq<Step>, now: int,
                                    to: int)
    requires Paced(cfg, k, start, s, now) && Dead(cfg, k, s, steps, now, to)
    ensures Run(cfg, s, steps).sent <= Allowed(cfg, k, Cooldowns(cfg, start, to))
    decreases |steps|
  {
    hide Apply, Cooldowns, Allowed, Paced;
    if steps == [] {
      PacedAllowed(cfg, k, start, s, now, to);
    } else {
      StepPaced(cfg, k, start, s, now, steps[0]);
      PacedNow(cfg, k, start, s, now);
      RunPaced(cfg, k, start, Apply(cfg, s, steps[0]), steps[1..], steps[0].now, to);
    }
  }

  lemma {:induction false} PacedNow(cfg: BreakerConfig, k: nat, start: int, s: State, now: int)
    requires Paced(cfg, k, start, s, now)
    ensures cfg.cooldownMs >= 1 && start <= now
  {
  }

  lemma {:induction false} PacedAllowed(cfg: BreakerConfig, k: nat, start: int, s: State, now: int, to: int)
    requires Paced(cfg, k, start, s, now) && now <= to
    ensures s.sent <= Allowed(cfg, k, Cooldowns(cfg, start, to))
  {
    hide Cooldowns, Allowed;
    var t := if s.breaker.state == Open then s.breaker.openedAt else now;
    CooldownsGrow(cfg, start, t, to);
    AllowedGrows(cfg, k, Cooldowns(cfg, start, t), Cooldowns(cfg, start, to));
    AllowedAtFirst(cfg, k, Cooldowns(cfg, start, to));
  }

  // ---------------------------------------------------------------------------
  // The bound is reached
  // ---------------------------------------------------------------------------

  function Checks(n: nat, now: int): seq<Step> {
    if n == 0 then [] else [Check(now)] + Checks(n - 1, now)
  }

  function Fails(n: nat, now: int): seq<Step> {
    if n == 0 then [] else [Record(false, now)] + Fails(n - 1, now)
  }

  /** A run of dead calls and the state it leads to. */
  ghost predicate Does(cfg: BreakerConfig, k: nat, s: State, steps: seq<Step>, from: int, to: int, s': State) {
    Dead(cfg, k, s, steps, from, to) && Run(cfg, s, steps) == s' && s'.inFlight <= k
  }

  lemma {:induction false} Then(cfg: BreakerConfig, k: nat, s: State, a: seq<Step>, from: int, mid: int, s': State,
                                b: seq<Step>, to: int, s'': State)
    requires Does(cfg, k, s, a, from, mid, s') && Does(cfg, k, s', b, mid, to, s'')
    ensures Does(cfg, k, s, a + b, from, to, s'')
    decreases |a|
  {
    hide Apply;
    if a == [] {
      assert a + b == b;
      Earlier(cfg, k, s, b, from, mid, to);
    } else {
      assert (a + b)[0] == a[0] && (a + b)[1..] == a[1..] + b;
      Then(cfg, k, Apply(cfg, s, a[0]), a[1..], a[0].now, mid, s', b, to, s'');
    }
  }

  lemma {:induction false} Earlier(cfg: BreakerConfig, k: nat, s: State, steps: seq<Step>, from: int, mid: int, to: int)
    requires Dead(cfg, k, s, steps, mid, to) && from <= mid
    ensures Dead(cfg, k, s, steps, from, to)
  {
  }

  /** A breaker that lets calls through lets through as many as come before one of them fails. */
  lemma {:induction false} ChecksDo(cfg: BreakerConfig, k: nat, n: nat, s: State, now: int)
    requires s.inFlight + n <= k && s.breaker.state != Open
    ensures Does(cfg, k, s, Checks(n, now), now, now, State(s.breaker, s.inFlight + n, s.sent + n))
    decreases n
  {
    if n == 0 {
    } else {
      var s1 := State(s.breaker, s.inFlight + 1, s.sent + 1);
      assert Apply(cfg, s, Check(now)) == s1;
      ChecksDo(cfg, k, n - 1, s1, now);
      FirstStep(cfg, k, s, Check(now), Checks(n - 1, now), now, s1, State(s.breaker, s.inFlight + n, s.sent + n));
    }
  }

  lemma {:induction false} FirstStep(cfg: BreakerConfig, k: nat, s: State, step: Step, steps: seq<Step>, now: int,
                                     s': State, s'': State)
    requires s.inFlight <= k && Apply(cfg, s, step) == s' && step.now == now && (step.Record? ==> !step.ok)
    requires Does(cfg, k, s', steps, now, now, s'')
    ensures Does(cfg, k, s, [step] + steps, now, now, s'')
  {
    assert ([step] + steps)[1..] == steps;
  }

  /** The calls of an open breaker that are still in flight fail without a further effect. */
  lemma {:induction false} LateFailsDo(cfg: BreakerConfig, k: nat, s: State, now: int) returns (s': State)
    requires s.inFlight <= k && s.breaker.state == Open
    ensures Does(cfg, k, s, Fails(s.inFlight, now), now, now, s')
    ensures s'.breaker.state == Open && s'.breaker.openedAt == s.breaker.openedAt
    ensures s'.inFlight == 0 && s'.sent == s.sent
    decreases s.inFlight
  {
    if s.inFlight == 0 {
      s' := s;
    } else {
      var s1 := Apply(cfg, s, Record(false, now));
      s' := LateFailsDo(cfg, k, s1, now);
      FirstStep(cfg, k, s, Record(false, now), Fails(s.inFlight - 1, now), now, s1, s');
    }
  }

  /** The breaker is about to let calls through, and the first one that fails opens it. */
  predicate OneFailureOpens(cfg: BreakerConfig, b: Breaker) {
    b.state == HalfOpen || (b.state == Closed && b.failures + 1 >= cfg.failureThreshold)
  }

  /** k calls at once, all of which fail. */
  lemma {:induction false} Volley(cfg: BreakerConfig, k: nat, s: State, now: int) returns (s': State)
    requires k >= 1 && s.inFlight == 0 && OneFailureOpens(cfg, s.breaker)
    ensures Does(cfg, k, s, Checks(k, now) + Fails(k, now), now, now, s')
    ensures s'.breaker.state == Open && s'.breaker.openedAt == now && s'.inFlight == 0 && s'.sent == s.sent + k
  {
    hide Does, Checks;
    var s1 := State(s.breaker, k, s.sent + k);
    ChecksDo(cfg, k, k, s, now);
    var s2 := Apply(cfg, s1, Record(false, now));
    s' := LateFailsDo(cfg, k, s2, now);
    assert Fails(k, now) == [Record(false, now)] + Fails(k - 1, now);
    FirstStep(cfg, k, s1, Record(false, now), Fails(k - 1, now), now, s2, s');
    Then(cfg, k, s, Checks(k, now), now, now, s1, Fails(k, now), now, s');
  }

  /** One failing call after another, up to the last but one the breaker stays closed for. */
  lemma {:induction false} Prelude(cfg: BreakerConfig, k: nat, n: nat, now: int) returns (steps: seq<Step>)
    requires k >= 1 && n < cfg.failureThreshold
    ensures Does(cfg, k, IDLE, steps, now, now, State(Breaker(Closed, n, 0, 0), 0, n))
    decreases n
  {
    if n == 0 {
      steps := [];
    } else {
      var init := Prelude(cfg, k, n - 1, now);
      var s0, s1 := State(Breaker(Closed, n - 1, 0, 0), 0, n - 1), State(Breaker(Closed, n - 1, 0, 0), 1, n);
      var s2 := State(Breaker(Closed, n, 0, 0), 0, n);
      Nothing(cfg, k, s2, now);
      FirstStep(cfg, k, s1, Record(false, now), [], now, s2, s2);
      FirstStep(cfg, k, s0, Check(now), [Record(false, now)] + [], now, s1, s2);
      steps := init + ([Check(now)] + ([Record(false, now)] + []));
      Then(cfg, k, IDLE, init, now, now, s0, [Check(now)] + ([Record(false, now)] + []), now, s2);
    }
  }

  lemma {:induction false} Nothing(cfg: BreakerConfig, k: nat, s: State, now: int)
    requires s.inFlight <= k
    ensures Does(cfg, k, s, [], now, now, s)
  {
  }

  /** A volley as soon as the cooldown is over: the first check half-opens the breaker, the others follow. */
  lemma {:induction false} Probe(cfg: BreakerConfig, k: nat, s: State, now: int) returns (s': State)
    requires k >= 1 && s.inFlight == 0 && s.breaker.state == Open && now - s.breaker.openedAt >= cfg.cooldownMs
    ensures Does(cfg, k, s, Checks(k, now) + Fails(k, now), now, now, s')
    ensures s'.breaker.state == Open && s'.breaker.openedAt == now && s'.inFlight == 0 && s'.sent == s.sent + k
  {
    var half := s.(breaker := AfterCheck(cfg, s.breaker, now));
    s' := Volley(cfg, k, half, now);
    var steps := Checks(k, now) + Fails(k, now);
    assert steps[0] == Check(now);
    assert Apply(cfg, s, Check(now)) == Apply(cfg, half, Check(now));
  }

  /** n cooldowns after the start. */
  function After(cfg: BreakerConfig, start: int, n: nat): int {
    start + n * cfg.cooldownMs
  }

  lemma {:induction false} AfterNext(cfg: BreakerConfig, start: int, n: nat)
    requires n >= 1
    ensures After(cfg, start, n) == After(cfg, start, n - 1) + cfg.cooldownMs
  {
    MulDifference(n, 1, cfg.cooldownMs);
  }

  /** The threshold's failures, then a volley of k right away and at the end of every cooldown. */
  lemma {:induction false} Volleys(cfg: BreakerConfig, k: nat, start: int, n: nat) returns (steps: seq<Step>, s: State)
    requires k >= 1 && cfg.failureThreshold >= 1 && cfg.cooldownMs >= 1
    ensures Does(cfg, k, IDLE, steps, start, After(cfg, start, n), s)
    ensures s.breaker.state == Open && s.breaker.openedAt == After(cfg, start, n) && s.inFlight == 0
    ensures s.sent == Allowed(cfg, k, n)
    decreases n
  {
    hide Does, Checks, Fails, After, Allowed;
    if n == 0 {
      var f := cfg.failureThreshold - 1;
      var prelude := Prelude(cfg, k, f, start);
      var s0 := State(Breaker(Closed, f, 0, 0), 0, f);
      s := Volley(cfg, k, s0, start);
      AtStart(cfg, k, start);
      steps := prelude + (Checks(k, start) + Fails(k, start));
      Then(cfg, k, IDLE, prelude, start, start, s0, Checks(k, start) + Fails(k, start), start, s);
    } else {
      var t, now := After(cfg, start, n - 1), After(cfg, start, n);
      var init, s0 := Volleys(cfg, k, start, n - 1);
      AfterNext(cfg, start, n);
      AllowedNext(cfg, k, n);
      s := Probe(cfg, k, s0, now);
      steps := init + (Checks(k, now) + Fails(k, now));
      DoesEarlier(cfg, k, s0, Checks(k, now) + Fails(k, now), t, now, s);
      Then(cfg, k, IDLE, init, start, t, s0, Checks(k, now) + Fails(k, now), now, s);
    }
  }

  lemma {:induction false} AtStart(cfg: BreakerConfig, k: nat, start: int)
    ensures After(cfg, start, 0) == start && Allowed(cfg, k, 0) == cfg.failureThreshold - 1 + k
  {
  }

  lemma {:induction false} AllowedNext(cfg: BreakerConfig, k: nat, n: nat)
    requires n >= 1
    ensures Allowed(cfg, k, n) == Allowed(cfg, k, n - 1) + k
  {
    assert k * n == k * (n - 1) + k;
  }

  lemma {:induction false} DoesEarlier(cfg: BreakerConfig, k: nat, s: State, steps: seq<Step>, from: int, now: int,
                                       s': State)
    requires Does(cfg, k, s, steps, now, now, s') && from <= now
    ensures Does(cfg, k, s, steps, from, now, s')
  {
    Earlier(cfg, k, s, steps, from, now, now);
  }

  /**
   * Exactly how many calls of a dead transport a fresh breaker lets through when at most k overlap:
   * failureThreshold - 1 + k, and k more per cooldown. So half-open lets k probes through, not one; without overlap,
   * k = 1, it is the bound of the sequential breaker.
   */
  lemma {:induction false} OverlapMaximum(cfg: BreakerConfig, k: nat, start: int, n: nat)
    requires k >= 1 && cfg.failureThreshold >= 1 && cfg.cooldownMs >= 1
    ensures forall steps, to :: Dead(cfg, k, IDLE, steps, start, to) ==>
      Run(cfg, IDLE, steps).sent <= cfg.failureThreshold - 1 + k + k * ((to - start) / cfg.cooldownMs)
    ensures exists steps :: Dead(cfg, k, IDLE, steps, start, start + n * cfg.cooldownMs)
                            && Run(cfg, IDLE, steps).sent == cfg.failureThreshold - 1 + k + k * n
  {
    hide Run, Paced;
    forall steps, to | Dead(cfg, k, IDLE, steps, start, to)
      ensures Run(cfg, IDLE, steps).sent <= cfg.failureThreshold - 1 + k + k * ((to - start) / cfg.cooldownMs)
    {
      IdlePaced(cfg, k, start);
      RunPaced(cfg, k, start, IDLE, steps, start, to);
    }
    var steps, s := Volleys(cfg, k, start, n);
    assert Dead(cfg, k, IDLE, steps, start, After(cfg, start, n));
  }

  lemma {:induction false} IdlePaced(cfg: BreakerConfig, k: nat, start: int)
    requires cfg.failureThreshold >= 1 && cfg.cooldownMs >= 1
    ensures Paced(cfg, k, start, IDLE, start)
  {
  }

  // ---------------------------------------------------------------------------
  // Before the cooldown is over
  // ---------------------------------------------------------------------------

  /** All steps come before the cooldown of the open breaker is over. */
  predicate Early(cfg: BreakerConfig, s: State, steps: seq<Step>) {
    forall i :: 0 <= i < |steps| ==> steps[i].now < s.breaker.openedAt + cfg.cooldownMs
  }

  /** While no call in flight succeeds, an open breaker sends nothing before its cooldown is over. */
  lemma {:induction false} OpenHoldsWithoutSuccess(cfg: BreakerConfig, s: State, steps: seq<Step>)
    requires s.breaker.state == Open && Early(cfg, s, steps)
    requires s.inFlight > 0 ==> forall i :: 0 <= i < |steps| ==> (steps[i].Record? ==> !steps[i].ok)
    ensures Run(cfg, s, steps).sent == s.sent && Run(cfg, s, steps).breaker.state == Open
    decreases |steps|
  {
    if steps == [] {
    } else {
      var s1 := Apply(cfg, s, steps[0]);
      assert s1.breaker.state == Open && s1.breaker.openedAt == s.breaker.openedAt && s1.sent == s.sent;
      hide Apply;
      OpenHoldsWithoutSuccess(cfg, s1, steps[1..]);
    }
  }

  /** A success in flight half-opens the breaker at once, and the next call is sent. */
  lemma {:induction false} LateSuccessProbes(cfg: BreakerConfig, s: State, now: int)
    requires s.breaker.state == Open && s.inFlight > 0
    ensures Run(cfg, s, [Record(true, now), Check(now)]).sent == s.sent + 1
  {
    assert [Record(true, now), Check(now)][1..] == [Check(now)] && [Check(now)][1..] == [];
    var s1 := Apply(cfg, s, Record(true, now));
    assert s1.breaker.state == HalfOpen && s1.sent == s.sent;
    assert Run(cfg, s1, [Check(now)]) == Apply(cfg, s1, Check(now));
  }

  /** An open breaker is sure to send nothing before its cooldown is over if and only if no call is in flight. */
  lemma {:induction false} OpenHoldsIff(cfg: BreakerConfig, s: State)
    requires s.breaker.state == Open
    ensures (forall steps :: Early(cfg, s, steps) ==> Run(cfg, s, steps).sent == s.sent) <==> s.inFlight == 0
  {
    hide Run;
    if s.inFlight == 0 {
      forall steps | Early(cfg, s, steps)
        ensures Run(cfg, s, steps).sent == s.sent
      {
        OpenHoldsWithoutSuccess(cfg, s, steps);
      }
    } else {
      var now := s.breaker.openedAt + cfg.cooldownMs - 1;
      var steps := [Record(true, now), Check(now)];
      LateSuccessProbes(cfg, s, now);
      assert Early(cfg, s, steps);
    }
  }
}

/**
 * The circuit breaker around an OTP provider (packages/core/src/adapters/otp-provider.ts): its four variables, the
 * three-phase machine they implement, and what follows over whole sequential runs.
 */
module CircuitBreaker {
  import opened ModArith

  datatype CircuitState = Closed | Open | HalfOpen

  datatype BreakerConfig = BreakerConfig(failureThreshold: int, successThreshold: int, cooldownMs: int)

  /** The breaker's variables. */
  datatype Breaker = Breaker(state: CircuitState, failures: nat, successes: nat, openedAt: int)

  const FRESH := Breaker(Closed, 0, 0, 0)

  // ---------------------------------------------------------------------------
  // The four variables
  // ---------------------------------------------------------------------------

  function AfterFailure(cfg: BreakerConfig, b: Breaker, now: int): Breaker {
    var b1 := b.(failures := b.failures + 1, successes := 0);
    var b2 :=
      if b1.state == Closed && b1.failures >= cfg.failureThreshold then b1.(openedAt := now, state := Open) else b1;
    if b2.state == HalfOpen && b2.failures >= 1 then b2.(openedAt := now, state := Open) else b2
  }

  function AfterSuccess(cfg: BreakerConfig, b: Breaker): Breaker {
    var b1 := b.(successes := b.successes + 1);
    var b2 :=
      if b1.state == HalfOpen && b1.successes >= cfg.successThreshold then b1.(failures := 0, state := Closed) else b1;
    if b2.state == Open then b2.(state := HalfOpen) else b2
  }

  /** An open breaker whose cooldown is over turns half-open when asked. */
  function AfterCheck(cfg: BreakerConfig, b: Breaker, now: int): Breaker {
    if b.state == Open && now - b.openedAt >= cfg.cooldownMs then b.(failures := 0, state := HalfOpen) else b
  }

  /** The breaker as the source has it: every call updates the variables one by one. */
  class BreakerCell {
    const cfg: BreakerConfig
    var state: CircuitState
    var consecutiveFailures: nat
    var consecutiveSuccesses: nat
    var openedAt: int

    ghost function Value(): Breaker
      reads this
    {
      Breaker(state, consecutiveFailures, consecutiveSuccesses, openedAt)
    }

    constructor (cfg: BreakerConfig)
      ensures this.cfg == cfg && Value() == FRESH
    {
      this.cfg := cfg;
      state, consecutiveFailures, consecutiveSuccesses, openedAt := Closed, 0, 0, 0;
    }

    method RecordFailure(now: int)
      modifies this
      ensures Value() == AfterFailure(cfg, old(Value()), now)
    {
      consecutiveFailures := consecutiveFailures + 1;
      consecutiveSuccesses := 0;
      if state == Closed && consecutiveFailures >= cfg.failureThreshold {
        openedAt := now;
        state := Open;
      }
      if state == HalfOpen && consecutiveFailures >= 1 {
        openedAt := now;
        state := Open;
      }
    }

    method RecordSuccess()
      modifies this
      ensures Value() == AfterSuccess(cfg, old(Value()))
    {
      consecutiveSuccesses := consecutiveSuccesses + 1;
      if state == HalfOpen && consecutiveSuccesses >= cfg.successThreshold {
        consecutiveFailures := 0;
        state := Closed;
      }
      if state == Open {
        state := HalfOpen;
      }
    }

    method IsOpen(now: int) returns (open: bool)
      modifies this
      ensures Value() == AfterCheck(cfg, old(Value()), now)
      ensures open == (Value().state == Open)
    {
      if state == Closed { return false; }
      if state == HalfOpen { return false; }
      if now - openedAt >= cfg.cooldownMs {
        consecutiveFailures := 0;
        state := HalfOpen;
        return false;
      }
      return true;
    }
  }

  /**
   * One guarded call: the clock at the check, the transport's verdict if it is asked, the clock when that is
   * recorded.
   */
  datatype Call = Call(check: int, ok: bool, record: int)

  /** The call reaches the transport. */
  predicate Sent(cfg: BreakerConfig, b: Breaker, c: Call) {
    AfterCheck(cfg, b, c.check).state != Open
  }

  function Step(cfg: BreakerConfig, b: Breaker, c: Call): Breaker {
    var b1 := AfterCheck(cfg, b, c.check);
    if b1.state == Open then b1
    else if c.ok then AfterSuccess(cfg, b1)
    else AfterFailure(cfg, b1, c.record)
  }

  /** The breaker after a sequential run of calls. */
  function After(cfg: BreakerConfig, b: Breaker, calls: seq<Call>): Breaker {
    if calls == [] then b else Step(cfg, After(cfg, b, calls[..|calls| - 1]), calls[|calls| - 1])
  }

  /** How many calls of the run reached the transport. */
  function Sends(cfg: BreakerConfig, b: Breaker, calls: seq<Call>): nat {
    if calls == [] then 0
    else
      var init, c := calls[..|calls| - 1], calls[|calls| - 1];
      Sends(cfg, b, init) + if Sent(cfg, After(cfg, b, init), c) then 1 else 0
  }

  // ---------------------------------------------------------------------------
  // The three-phase machine
  // ---------------------------------------------------------------------------

  /** Each phase with the one number that matters in it. */
  datatype Phase = Counting(failures: nat) | Tripped(since: int) | Probing(successes: nat)

  function PhaseStep(cfg: BreakerConfig, p: Phase, c: Call): Phase {
    match p
    case Counting(f) =>
      if c.ok then p else if f + 1 >= cfg.failureThreshold then Tripped(c.record) else Counting(f + 1)
    case Tripped(since) =>
      if c.check - since < cfg.cooldownMs then p else Probe(cfg, 0, c)
    case Probing(s) => Probe(cfg, s, c)
  }

  function Probe(cfg: BreakerConfig, s: nat, c: Call): Phase {
    if !c.ok then Tripped(c.record) else if s + 1 >= cfg.successThreshold then Counting(0) else Probing(s + 1)
  }

  predicate PhaseSent(cfg: BreakerConfig, p: Phase, c: Call) {
    p.Tripped? ==> c.check - p.since >= cfg.cooldownMs
  }

  function PhaseAfter(cfg: BreakerConfig, p: Phase, calls: seq<Call>): Phase {
    if calls == [] then p else PhaseStep(cfg, PhaseAfter(cfg, p, calls[..|calls| - 1]), calls[|calls| - 1])
  }

  function PhaseOf(b: Breaker): Phase {
    match b.state
    case Closed => Counting(b.failures)
    case Open => Tripped(b.openedAt)
    case HalfOpen => Probing(b.successes)
  }

  /** What every sequential run keeps: no stale counter can be read later. */
  ghost predicate Inv(cfg: BreakerConfig, b: Breaker) {
    && (b.state == Closed ==> b.failures == 0 || b.failures < cfg.failureThreshold)
    && (b.state == Open ==> b.successes == 0)
    && (b.state == HalfOpen ==> b.failures == 0 && (b.successes == 0 || b.successes < cfg.successThreshold))
  }

  lemma {:induction false} StepRefines(cfg: BreakerConfig, b: Breaker, c: Call)
    requires Inv(cfg, b)
    ensures Inv(cfg, Step(cfg, b, c))
    ensures PhaseOf(Step(cfg, b, c)) == PhaseStep(cfg, PhaseOf(b), c)
    ensures Sent(cfg, b, c) <==> PhaseSent(cfg, PhaseOf(b), c)
  {
  }

  /** Over every run the four variables implement the three-phase machine. */
  lemma {:induction false} RunRefines(cfg: BreakerConfig, calls: seq<Call>)
    ensures Inv(cfg, After(cfg, FRESH, calls))
    ensures PhaseOf(After(cfg, FRESH, calls)) == PhaseAfter(cfg, Counting(0), calls)
  {
    if calls == [] {
    } else {
      RunRefines(cfg, calls[..|calls| - 1]);
      StepRefines(cfg, After(cfg, FRESH, calls[..|calls| - 1]), calls[|calls| - 1]);
    }
  }

  // ---------------------------------------------------------------------------
  // The state is a function of the outcome log
  // ---------------------------------------------------------------------------

  /** The calls that reached the transport, with their outcomes. */
  function Log(cfg: BreakerConfig, b: Breaker, calls: seq<Call>): seq<Call> {
    if calls == [] then []
    else
      var init, c := calls[..|calls| - 1], calls[|calls| - 1];
      Log(cfg, b, init) + if Sent(cfg, After(cfg, b, init), c) then [c] else []
  }

  /** Rejected calls leave no trace: the log alone determines all four variables. */
  lemma {:induction false} StateIsFunctionOfLog(cfg: BreakerConfig, b: Breaker, calls: seq<Call>)
    ensures |Log(cfg, b, calls)| == Sends(cfg, b, calls)
    ensures After(cfg, b, Log(cfg, b, calls)) == After(cfg, b, calls)
  {
    if calls == [] {
    } else {
      var init, c := calls[..|calls| - 1], calls[|calls| - 1];
      StateIsFunctionOfLog(cfg, b, init);
      var log := Log(cfg, b, init);
      if Sent(cfg, After(cfg, b, init), c) {
        assert Log(cfg, b, calls) == log + [c] && (log + [c])[..|log|] == log;
      } else {
        assert Log(cfg, b, calls) == log;
      }
    }
  }

  // ---------------------------------------------------------------------------
  // When it opens and when it closes
  // ---------------------------------------------------------------------------

  function Failures(calls: seq<Call>): nat {
    if calls == [] then 0 else Failures(calls[..|calls| - 1]) + if calls[|calls| - 1].ok then 0 else 1
  }

  lemma {:induction false} FailuresMonotone(calls: seq<Call>, n: nat)
    requires n <= |calls|
    ensures Failures(calls[..n]) <= Failures(calls)
  {
    if n < |calls| {
      FailuresMonotone(calls[..|calls| - 1], n);
      assert calls[..|calls| - 1][..n] == calls[..n];
    } else {
      assert calls[..n] == calls;
    }
  }

  /** While the failures since closing stay below the threshold the breaker stays closed and counts them. */
  lemma {:induction false} CountsFailures(cfg: BreakerConfig, f: nat, calls: seq<Call>)
    requires f + Failures(calls) == f || f + Failures(calls) < cfg.failureThreshold
    ensures PhaseAfter(cfg, Counting(f), calls) == Counting(f + Failures(calls))
  {
    if calls == [] {
    } else {
      CountsFailures(cfg, f, calls[..|calls| - 1]);
    }
  }

  /** The breaker is closed throughout the run. */
  ghost predicate StaysClosed(cfg: BreakerConfig, f: nat, calls: seq<Call>) {
    forall n :: 0 <= n <= |calls| ==> PhaseAfter(cfg, Counting(f), calls[..n]).Counting?
  }

  /**
   * A closed breaker with f failures counted stays closed exactly while the failures of the whole stretch,
   * not only consecutive ones, are below the threshold: a success in between forgives nothing.
   */
  lemma {:induction false} StaysClosedIff(cfg: BreakerConfig, f: nat, calls: seq<Call>)
    requires f == 0 || f < cfg.failureThreshold
    ensures StaysClosed(cfg, f, calls) <==> (Failures(calls) == 0 || f + Failures(calls) < cfg.failureThreshold)
  {
    if Failures(calls) == 0 || f + Failures(calls) < cfg.failureThreshold {
      forall n | 0 <= n <= |calls|
        ensures PhaseAfter(cfg, Counting(f), calls[..n]).Counting?
      {
        FailuresMonotone(calls, n);
        CountsFailures(cfg, f, calls[..n]);
      }
    } else {
      var n := TrippingCall(cfg, f, calls);
      assert PhaseAfter(cfg, Counting(f), calls[..n + 1]).Tripped?;
    }
  }

  /** The call whose failure reaches the threshold trips the breaker, at its recording time. */
  lemma {:induction false} TrippingCall(cfg: BreakerConfig, f: nat, calls: seq<Call>) returns (n: nat)
    requires f == 0 || f < cfg.failureThreshold
    requires Failures(calls) > 0 && f + Failures(calls) >= cfg.failureThreshold
    ensures n < |calls| && !calls[n].ok
    ensures Failures(calls[..n]) == 0 || f + Failures(calls[..n]) < cfg.failureThreshold
    ensures PhaseAfter(cfg, Counting(f), calls[..n + 1]) == Tripped(calls[n].record)
  {
    var m := |calls| - 1;
    var init := calls[..m];
    if Failures(init) > 0 && f + Failures(init) >= cfg.failureThreshold {
      n := TrippingCall(cfg, f, init);
      assert init[..n + 1] == calls[..n + 1] && init[..n] == calls[..n];
    } else {
      n := m;
      CountsFailures(cfg, f, init);
      assert calls[..n + 1] == calls && calls[..n + 1][..n] == init;
    }
  }

  /** So the failures that open the breaker need not be consecutive. */
  lemma FailuresNeedNotBeConsecutive()
    ensures
      var calls := [Call(0, false, 1), Call(1, true, 2), Call(2, false, 3)];
      After(BreakerConfig(2, 2, 1000), FRESH, calls).state == Open
  {
    var cfg, calls := BreakerConfig(2, 2, 1000), [Call(0, false, 1), Call(1, true, 2), Call(2, false, 3)];
    assert calls[..2][..1][..0] == [];
    assert After(cfg, FRESH, calls[..2][..1]) == Breaker(Closed, 1, 0, 0);
    assert After(cfg, FRESH, calls[..2]) == Breaker(Closed, 1, 1, 0);
  }

  /** The number of successes in a row that close a half-open breaker. */
  function Needed(cfg: BreakerConfig): nat {
    if cfg.successThreshold >= 1 then cfg.successThreshold else 1
  }

  /**
   * Recovery: once the cooldown is over, successes are let through one by one and the last one needed closes the
   * breaker with a clean count.
   */
  lemma {:induction false} Recovery(cfg: BreakerConfig, since: int, calls: seq<Call>)
    requires 1 <= |calls| <= Needed(cfg)
    requires calls[0].check - since >= cfg.cooldownMs
    requires forall i :: 0 <= i < |calls| ==> calls[i].ok
    ensures PhaseAfter(cfg, Tripped(since), calls)
         == if |calls| == Needed(cfg) then Counting(0) else Probing(|calls|)
  {
    var init := calls[..|calls| - 1];
    if init == [] {
    } else {
      Recovery(cfg, since, init);
    }
  }

  // ---------------------------------------------------------------------------
  // Load on a dead transport
  // ---------------------------------------------------------------------------

  /** Sequential calls on a clock that does not run backwards. */
  ghost predicate Ordered(start: int, calls: seq<Call>) {
    && (forall i :: 0 <= i < |calls| ==> start <= calls[i].check <= calls[i].record)
    && (forall i, j :: 0 <= i < j < |calls| ==> calls[i].record <= calls[j].check)
  }

  ghost predicate AllFail(calls: seq<Call>) {
    forall i :: 0 <= i < |calls| ==> !calls[i].ok
  }

  /** The earliest time at which n sends to a dead transport can have been made. */
  function Due(cfg: BreakerConfig, start: int, n: int): int {
    start + (n - cfg.failureThreshold) * cfg.cooldownMs
  }

  lemma {:induction false} DueNext(cfg: BreakerConfig, start: int, n: int)
    ensures Due(cfg, start, n + 1) == Due(cfg, start, n) + cfg.cooldownMs
  {
    MulDifference(n + 1 - cfg.failureThreshold, 1, cfg.cooldownMs);
  }

  lemma {:induction false} DueAtThreshold(cfg: BreakerConfig, start: int)
    ensures Due(cfg, start, cfg.failureThreshold) == start
  {
  }

  /** Phase p after n sends: still counting, or tripped no earlier than the sends allow and by time `now`. */
  ghost predicate Paced(cfg: BreakerConfig, start: int, p: Phase, n: nat, now: int) {
    match p
    case Counting(f) => n == f < cfg.failureThreshold
    case Tripped(since) => n >= cfg.failureThreshold && Due(cfg, start, n) <= since <= now
    case Probing(_) => false
  }

  lemma {:induction false} FailureKeepsPace(cfg: BreakerConfig, start: int, p: Phase, n: nat, now: int, c: Call)
    requires cfg.failureThreshold >= 1 && cfg.cooldownMs >= 1
    requires Paced(cfg, start, p, n, now) && start <= now <= c.check <= c.record && !c.ok
    ensures Paced(cfg, start, PhaseStep(cfg, p, c), if PhaseSent(cfg, p, c) then n + 1 else n, c.record)
    ensures PhaseSent(cfg, p, c) && n >= cfg.failureThreshold ==> c.check >= Due(cfg, start, n + 1)
  {
    hide Due;
    DueNext(cfg, start, n);
    DueAtThreshold(cfg, start);
  }

  /** Against failures only: first the threshold, afterwards one probe per cooldown. */
  lemma {:induction false} DeadTransportPaced(cfg: BreakerConfig, start: int, calls: seq<Call>)
    requires cfg.failureThreshold >= 1 && cfg.cooldownMs >= 1
    requires Ordered(start, calls) && AllFail(calls)
    ensures
      var now := if calls == [] then start else calls[|calls| - 1].record;
      Paced(cfg, start, PhaseAfter(cfg, Counting(0), calls), Sends(cfg, FRESH, calls), now)
    ensures Sends(cfg, FRESH, calls) > cfg.failureThreshold ==>
      calls != [] && calls[|calls| - 1].check >= Due(cfg, start, Sends(cfg, FRESH, calls))
  {
    hide Due;
    if calls == [] {
    } else {
      var init, c := calls[..|calls| - 1], calls[|calls| - 1];
      DeadTransportPaced(cfg, start, init);
      RunRefines(cfg, init);
      StepRefines(cfg, After(cfg, FRESH, init), c);
      var now := if init == [] then start else init[|init| - 1].record;
      FailureKeepsPace(cfg, start, PhaseAfter(cfg, Counting(0), init), Sends(cfg, FRESH, init), now, c);
    }
  }

  /**
   * From a fresh breaker and against a transport that always fails, at most failureThreshold + T / cooldown calls
   * are sent, T being the time from the start to the last call's check.
   */
  lemma {:induction false} DeadTransportBound(cfg: BreakerConfig, start: int, calls: seq<Call>)
    requires cfg.failureThreshold >= 1 && cfg.cooldownMs >= 1
    requires Ordered(start, calls) && AllFail(calls) && calls != []
    ensures Sends(cfg, FRESH, calls) <= cfg.failureThreshold + (calls[|calls| - 1].check - start) / cfg.cooldownMs
  {
    hide AllFail, After, Sends, PhaseAfter;
    var n, T := Sends(cfg, FRESH, calls), calls[|calls| - 1].check - start;
    assert start <= calls[|calls| - 1].check;
    DeadTransportPaced(cfg, start, calls);
    if n > cfg.failureThreshold {
      DivisionBound(n - cfg.failureThreshold, T, cfg.cooldownMs);
    } else {
      DivisionBound(0, T, cfg.cooldownMs);
    }
  }

  lemma {:induction false} DivisionBound(k: nat, T: int, c: int)
    requires c >= 1 && T >= k * c
    ensures k <= T / c
  {
    var q := T / c;
    if q < k {
      MulDifference(k, q, c);
      MulAtLeast(k - q, c);
    }
  }
}

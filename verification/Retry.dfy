/**
 * Bounded retry around one OTP transport (packages/core/src/adapters/otp-provider.ts).
 *
 * A transport is a script: what its n-th send does and how long that takes. Time is the clock reading in
 * milliseconds, threaded through; jitter is 0.
 */
module Retry {
  import opened ModArith
  import opened Wrappers

  datatype DeliveryResult = DeliveryResult(
    ok: bool,
    accepted: Option<bool>,
    providerId: string,
    latencyMs: int,
    error: Option<string>,
    statusCode: Option<int>)

  datatype Attempt =
    | Replied(result: DeliveryResult, elapsed: nat)
    | Threw(message: string, isAbort: bool, elapsed: nat)

  type Script = nat -> Attempt

  datatype RetryConfig = RetryConfig(
    attempts: int,
    baseDelayMs: nat,
    maxDelayMs: nat,
    isRetryable: DeliveryResult -> bool,
    shouldAbort: int -> bool)

  /** 4xx answers other than 429 are final; other failures are worth a retry. */
  predicate DefaultRetryable(r: DeliveryResult) {
    if r.ok then false
    else
      var code := if r.statusCode.Some? then r.statusCode.value else 0;
      !(400 <= code < 500 && code != 429)
  }

  function Backoff(cfg: RetryConfig, attempt: nat): nat
    requires attempt >= 1
  {
    var exp := cfg.baseDelayMs * Pow2(attempt - 1);
    if exp <= cfg.maxDelayMs then exp else cfg.maxDelayMs
  }

  /** What one attempt is reported as; a thrown error becomes a failed result. */
  function Reported(a: Attempt, id: string): DeliveryResult {
    match a
    case Replied(result, elapsed) => result.(latencyMs := elapsed)
    case Threw(message, _, elapsed) => DeliveryResult(false, None, id, elapsed, Some(message), None)
  }

  /** The attempt settles the matter, whatever attempts remain. */
  predicate Decisive(cfg: RetryConfig, id: string, a: Attempt) {
    match a
    case Replied(result, _) => result.ok || !cfg.isRetryable(Reported(a, id))
    case Threw(_, isAbort, _) => isAbort
  }

  function Aborted(id: string): DeliveryResult {
    DeliveryResult(false, None, id, 0, Some("Retry aborted"), None)
  }

  function Exhausted(id: string): DeliveryResult {
    DeliveryResult(false, None, id, 0, Some("Delivery failed after retries"), None)
  }

  /** Result, sends made so far, clock at return, and the delays slept. */
  datatype Run = Run(result: DeliveryResult, sent: nat, now: int, delays: seq<nat>)

  /** The rest of a run from the given attempt on, with the last failure seen. */
  function RunFrom(cfg: RetryConfig, id: string, script: Script, sent: nat, now: int, attempt: nat,
                   last: Option<DeliveryResult>): Run
    requires attempt >= 1
    decreases cfg.attempts - attempt
  {
    if attempt > cfg.attempts then Run(if last.Some? then last.value else Exhausted(id), sent, now, [])
    else if cfg.shouldAbort(now) then Run(Aborted(id), sent, now, [])
    else
      var a := script(sent);
      var res := Reported(a, id);
      if attempt >= cfg.attempts || Decisive(cfg, id, a) then Run(res, sent + 1, now + a.elapsed, [])
      else
        var d := Backoff(cfg, attempt);
        var rest := RunFrom(cfg, id, script, sent + 1, now + a.elapsed + d, attempt + 1, Some(res));
        rest.(delays := [d] + rest.delays)
  }

  /** A whole run. */
  function WholeRun(cfg: RetryConfig, id: string, script: Script, sent: nat, now: int): Run {
    RunFrom(cfg, id, script, sent, now, 1, None)
  }

  /** A run that stops here leaves the delays slept so far. */
  lemma {:induction false} Stops(cfg: RetryConfig, id: string, script: Script, sent: nat, now: int, attempt: nat,
                                 last: Option<DeliveryResult>, delays: seq<nat>, run: Run)
    requires attempt >= 1 && run == RunFrom(cfg, id, script, sent, now, attempt, last) && run.delays == []
    ensures run.(delays := delays + run.delays) == run.(delays := delays)
  {
    assert delays + [] == delays;
  }

  /** One more attempt, and what it adds to the delays. */
  lemma {:induction false} GoesOn(cfg: RetryConfig, id: string, script: Script, sent: nat, now: int, attempt: nat,
                                  last: Option<DeliveryResult>, delays: seq<nat>)
    requires 1 <= attempt < cfg.attempts && !cfg.shouldAbort(now) && !Decisive(cfg, id, script(sent))
    ensures
      var a, d := script(sent), Backoff(cfg, attempt);
      var run := RunFrom(cfg, id, script, sent, now, attempt, last);
      var rest := RunFrom(cfg, id, script, sent + 1, now + a.elapsed + d, attempt + 1, Some(Reported(a, id)));
      run.(delays := delays + run.delays) == rest.(delays := delays + [d] + rest.delays)
  {
    hide Backoff, Decisive, Reported;
    var a, d := script(sent), Backoff(cfg, attempt);
    var rest := RunFrom(cfg, id, script, sent + 1, now + a.elapsed + d, attempt + 1, Some(Reported(a, id)));
    assert delays + ([d] + rest.delays) == delays + [d] + rest.delays;
  }

  /** An attempt that settles the matter, or the last one. */
  lemma {:induction false} LastAttempt(cfg: RetryConfig, id: string, script: Script, sent: nat, now: int, attempt: nat,
                                       last: Option<DeliveryResult>)
    requires 1 <= attempt <= cfg.attempts && !cfg.shouldAbort(now)
    requires attempt == cfg.attempts || Decisive(cfg, id, script(sent))
    ensures RunFrom(cfg, id, script, sent, now, attempt, last)
         == Run(Reported(script(sent), id), sent + 1, now + script(sent).elapsed, [])
  {
  }

  /** The loop of `run`: clock, send counter and last failure are updated attempt by attempt. */
  method RunRetry(cfg: RetryConfig, id: string, script: Script, sent0: nat, now0: int)
    returns (result: DeliveryResult, sent: nat, now: int, delays: seq<nat>)
    ensures Run(result, sent, now, delays) == WholeRun(cfg, id, script, sent0, now0)
  {
    hide RunFrom, Backoff, Exhausted, Aborted;
    var last: Option<DeliveryResult> := None;
    sent, now, delays := sent0, now0, [];
    var attempt := 1;
    ghost var whole := WholeRun(cfg, id, script, sent0, now0);
    while attempt <= cfg.attempts
      invariant attempt >= 1
      invariant
        var rest := RunFrom(cfg, id, script, sent, now, attempt, last);
        rest.(delays := delays + rest.delays) == whole
    {
      ghost var rest := RunFrom(cfg, id, script, sent, now, attempt, last);
      if cfg.shouldAbort(now) {
        AbortsHere(cfg, id, script, sent, now, attempt, last);
        Stops(cfg, id, script, sent, now, attempt, last, delays, rest);
        result := Aborted(id);
        return;
      }
      var started := now;
      var a := script(sent);
      if attempt == cfg.attempts || Decisive(cfg, id, a) {
        LastAttempt(cfg, id, script, sent, now, attempt, last);
        Stops(cfg, id, script, sent, now, attempt, last, delays, rest);
      } else {
        GoesOn(cfg, id, script, sent, now, attempt, last, delays);
      }
      sent := sent + 1;
      now := now + a.elapsed;
      match a {
        case Replied(r, _) =>
          var res := r.(latencyMs := now - started);
          if res.ok || attempt >= cfg.attempts || !cfg.isRetryable(res) {
            result := res;
            return;
          }
          last := Some(res);
        case Threw(message, isAbort, _) =>
          var res := DeliveryResult(false, None, id, now - started, Some(message), None);
          if attempt >= cfg.attempts || isAbort {
            result := res;
            return;
          }
          last := Some(res);
      }
      var d := Backoff(cfg, attempt);
      now := now + d;
      delays := delays + [d];
      attempt := attempt + 1;
    }
    EndsHere(cfg, id, script, sent, now, attempt, last);
    Stops(cfg, id, script, sent, now, attempt, last, delays, RunFrom(cfg, id, script, sent, now, attempt, last));
    result := if last.Some? then last.value else Exhausted(id);
  }

  lemma {:induction false} AbortsHere(cfg: RetryConfig, id: string, script: Script, sent: nat, now: int, attempt: nat,
                                      last: Option<DeliveryResult>)
    requires 1 <= attempt <= cfg.attempts && cfg.shouldAbort(now)
    ensures RunFrom(cfg, id, script, sent, now, attempt, last) == Run(Aborted(id), sent, now, [])
  {
  }

  lemma {:induction false} EndsHere(cfg: RetryConfig, id: string, script: Script, sent: nat, now: int, attempt: nat,
                                    last: Option<DeliveryResult>)
    requires attempt >= 1 && attempt > cfg.attempts
    ensures RunFrom(cfg, id, script, sent, now, attempt, last)
         == Run(if last.Some? then last.value else Exhausted(id), sent, now, [])
  {
  }

  // ---------------------------------------------------------------------------
  // What a run amounts to
  // ---------------------------------------------------------------------------

  /**
   * First decisive outcome, else the last: all sends but the final one were indecisive failures, and the result is
   * that of the final send. A run that ends otherwise was aborted, at a moment the caller wanted that, or had no
   * attempts at all.
   */
  ghost predicate FirstDecisive(cfg: RetryConfig, id: string, script: Script, from: nat, budget: int, run: Run) {
    && from <= run.sent
    && (forall k :: from <= k < run.sent - 1 ==> !Decisive(cfg, id, script(k)))
    && (|| (run.result == Aborted(id) && cfg.shouldAbort(run.now)
            && (forall k :: from <= k < run.sent ==> !Decisive(cfg, id, script(k))))
        || (run.result == Exhausted(id) && run.sent == from && budget <= 0)
        || (from < run.sent && run.result == Reported(script(run.sent - 1), id)
            && (Decisive(cfg, id, script(run.sent - 1)) || run.sent - from == budget)))
  }

  lemma {:induction false} RunFromIsFirstDecisive(cfg: RetryConfig, id: string, script: Script, sent: nat, now: int,
                                                  attempt: nat, last: Option<DeliveryResult>)
    requires attempt >= 1 && (last.Some? ==> attempt <= cfg.attempts)
    ensures
      var run := RunFrom(cfg, id, script, sent, now, attempt, last);
      && FirstDecisive(cfg, id, script, sent, cfg.attempts - attempt + 1, run)
      && run.sent - sent <= (if attempt <= cfg.attempts then cfg.attempts - attempt + 1 else 0)
      && now <= run.now
    decreases cfg.attempts - attempt
  {
    hide Backoff, Reported, Decisive, Aborted, Exhausted;
    if attempt <= cfg.attempts && !cfg.shouldAbort(now) {
      var a := script(sent);
      if attempt < cfg.attempts && !Decisive(cfg, id, a) {
        RunFromIsFirstDecisive(cfg, id, script, sent + 1, now + a.elapsed + Backoff(cfg, attempt), attempt + 1,
                               Some(Reported(a, id)));
      }
    }
  }

  /** Every run returns the first decisive outcome, else the last, in at most `attempts` sends. */
  lemma {:induction false} RunIsFirstDecisive(cfg: RetryConfig, id: string, script: Script, sent: nat, now: int)
    ensures
      var run := WholeRun(cfg, id, script, sent, now);
      && FirstDecisive(cfg, id, script, sent, cfg.attempts, run)
      && run.sent - sent <= (if cfg.attempts >= 1 then cfg.attempts else 0)
      && now <= run.now
  {
    RunFromIsFirstDecisive(cfg, id, script, sent, now, 1, None);
  }

  /** The transport has answered a send with success. */
  predicate Accepted(a: Attempt) {
    a.Replied? && a.result.ok
  }

  /**
   * The run succeeds exactly when the transport answered one of its sends with success, and that was the last; nothing
   * is sent after a success.
   */
  lemma {:induction false} RunOkIff(cfg: RetryConfig, id: string, script: Script, sent: nat, now: int)
    ensures
      var run := WholeRun(cfg, id, script, sent, now);
      && (run.result.ok <==> exists k :: sent <= k < run.sent && Accepted(script(k)))
      && (forall k :: sent <= k < run.sent - 1 ==> !Accepted(script(k)))
  {
    RunIsFirstDecisive(cfg, id, script, sent, now);
    var run := WholeRun(cfg, id, script, sent, now);
    if run.result.ok { assert Accepted(script(run.sent - 1)); }
  }

  /**
   * What comes back is what the transport said last, but for the measured time: its own answer, or the message of what
   * it threw. Otherwise the caller aborted, or there was no attempt to make.
   */
  lemma {:induction false} ResultIsLastAnswer(cfg: RetryConfig, id: string, script: Script, sent: nat, now: int)
    ensures
      var run := WholeRun(cfg, id, script, sent, now);
      var r := run.result;
      || (r == Aborted(id) && cfg.shouldAbort(run.now))
      || (r == Exhausted(id) && run.sent == sent && cfg.attempts <= 0)
      || (&& sent < run.sent
          && match script(run.sent - 1)
             case Replied(answer, elapsed) =>
               && r.latencyMs == elapsed && r.ok == answer.ok && r.accepted == answer.accepted
               && r.providerId == answer.providerId && r.error == answer.error && r.statusCode == answer.statusCode
             case Threw(message, _, elapsed) =>
               && r.latencyMs == elapsed && !r.ok && r.providerId == id && r.error == Some(message)
               && r.statusCode == None)
  {
    RunIsFirstDecisive(cfg, id, script, sent, now);
  }

  /** The transport has answered with a client error: a 4xx answer other than 429. */
  predicate ClientError(a: Attempt) {
    && a.Replied? && !a.result.ok && a.result.statusCode.Some?
    && 400 <= a.result.statusCode.value < 500 && a.result.statusCode.value != 429
  }

  /**
   * With the default rule, a client error is never followed by another send; any other failure is, while attempts
   * remain.
   */
  lemma {:induction false} ClientErrorsAreFinal(cfg: RetryConfig, id: string, script: Script, sent: nat, now: int)
    requires forall r :: cfg.isRetryable(r) == DefaultRetryable(r)
    ensures
      var run := WholeRun(cfg, id, script, sent, now);
      && (forall k :: sent <= k < run.sent - 1 ==>
            !Accepted(script(k)) && !ClientError(script(k)) && !(script(k).Threw? && script(k).isAbort))
      && (sent < run.sent < sent + cfg.attempts && run.result != Aborted(id) ==>
            var last := script(run.sent - 1);
            Accepted(last) || ClientError(last) || (last.Threw? && last.isAbort))
  {
    hide RunFrom;
    RunIsFirstDecisive(cfg, id, script, sent, now);
  }

  // ---------------------------------------------------------------------------
  // Delays
  // ---------------------------------------------------------------------------

  lemma {:induction false} DelaysAreBackoffs(cfg: RetryConfig, id: string, script: Script, sent: nat, now: int,
                                             attempt: nat, last: Option<DeliveryResult>)
    requires attempt >= 1
    ensures
      var delays := RunFrom(cfg, id, script, sent, now, attempt, last).delays;
      && |delays| <= (if attempt <= cfg.attempts then cfg.attempts - attempt else 0)
      && (forall i :: 0 <= i < |delays| ==> delays[i] == Backoff(cfg, attempt + i))
    decreases cfg.attempts - attempt
  {
    if attempt < cfg.attempts && !cfg.shouldAbort(now) && !Decisive(cfg, id, script(sent)) {
      var a := script(sent);
      DelaysAreBackoffs(cfg, id, script, sent + 1, now + a.elapsed + Backoff(cfg, attempt), attempt + 1,
                        Some(Reported(a, id)));
    }
  }

  lemma {:induction false} BackoffMonotone(cfg: RetryConfig, i: nat, j: nat)
    requires 1 <= i <= j
    ensures Backoff(cfg, i) <= Backoff(cfg, j)
  {
    if i < j {
      BackoffMonotone(cfg, i, j - 1);
      var p := Pow2(j - 2);
      assert Pow2(j - 1) == p + p;
      assert cfg.baseDelayMs * (p + p) == cfg.baseDelayMs * p + cfg.baseDelayMs * p;
    }
  }

  function Sum(s: seq<nat>): nat {
    if s == [] then 0 else s[0] + Sum(s[1..])
  }

  lemma {:induction false} SumBound(s: seq<nat>, bound: nat)
    requires forall i :: 0 <= i < |s| ==> s[i] <= bound
    ensures Sum(s) <= |s| * bound
  {
    if s == [] {
    } else {
      SumBound(s[1..], bound);
      assert |s| * bound == bound + (|s| - 1) * bound;
    }
  }

  /** What the sends from `sent` on take, up to the n-th. */
  function Elapsed(script: Script, sent: nat, n: nat): nat
    decreases n
  {
    if n == 0 then 0 else script(sent).elapsed + Elapsed(script, sent + 1, n - 1)
  }

  /** When the j-th send of a run starts: after the sends and the delays before it. */
  function StartOf(script: Script, sent: nat, now: int, delays: seq<nat>, j: nat): int
    requires j <= |delays|
  {
    now + Elapsed(script, sent, j) + Sum(delays[..j])
  }

  /**
   * Time adds up: a run ends after its sends and its delays, one delay between any two sends and one more only before
   * an abort; and at the start of none of its sends did the caller want to abort.
   */
  lemma {:induction false} TimeAddsUp(cfg: RetryConfig, id: string, script: Script, sent: nat, now: int, attempt: nat,
                                      last: Option<DeliveryResult>)
    requires attempt >= 1
    ensures
      var run := RunFrom(cfg, id, script, sent, now, attempt, last);
      && run.sent >= sent
      && var n := run.sent - sent;
         && run.now == now + Elapsed(script, sent, n) + Sum(run.delays)
         && (|run.delays| == n || |run.delays| == n - 1)
         && (|run.delays| == n && attempt <= cfg.attempts ==> run.result == Aborted(id) && cfg.shouldAbort(run.now))
         && (forall j :: 0 <= j < n ==> !cfg.shouldAbort(StartOf(script, sent, now, run.delays, j)))
    decreases cfg.attempts - attempt
  {
    hide Backoff, Decisive, Reported, Aborted, Elapsed, StartOf, Sum;
    var run := RunFrom(cfg, id, script, sent, now, attempt, last);
    NoTime(script, sent, now, run.delays);
    if attempt <= cfg.attempts && !cfg.shouldAbort(now) {
      var a, d := script(sent), Backoff(cfg, attempt);
      if attempt < cfg.attempts && !Decisive(cfg, id, a) {
        var now' := now + a.elapsed + d;
        var rest := RunFrom(cfg, id, script, sent + 1, now', attempt + 1, Some(Reported(a, id)));
        TimeAddsUp(cfg, id, script, sent + 1, now', attempt + 1, Some(Reported(a, id)));
        SumNext(d, rest.delays);
        ElapsedNext(script, sent, rest.sent - sent);
        forall j | 0 <= j < run.sent - sent
          ensures !cfg.shouldAbort(StartOf(script, sent, now, run.delays, j))
        {
          LaterStart(script, sent, now, rest.delays, d, j);
        }
      } else {
        ElapsedNext(script, sent, 1);
      }
    }
  }

  lemma {:induction false} NoTime(script: Script, sent: nat, now: int, delays: seq<nat>)
    ensures Elapsed(script, sent, 0) == 0 && Elapsed(script, sent + 1, 0) == 0 && Sum([]) == 0
    ensures StartOf(script, sent, now, delays, 0) == now
  {
  }

  lemma {:induction false} ElapsedNext(script: Script, sent: nat, n: nat)
    requires n >= 1
    ensures Elapsed(script, sent, n) == script(sent).elapsed + Elapsed(script, sent + 1, n - 1)
  {
  }

  lemma {:induction false} SumNext(d: nat, delays: seq<nat>)
    ensures Sum([d] + delays) == d + Sum(delays)
  {
    assert ([d] + delays)[1..] == delays;
  }

  lemma {:induction false} LaterStart(script: Script, sent: nat, now: int, delays: seq<nat>, d: nat, j: nat)
    requires j <= |delays| + 1
    ensures StartOf(script, sent, now, [d] + delays, j) ==
            if j == 0 then now else StartOf(script, sent + 1, now + script(sent).elapsed + d, delays, j - 1)
  {
    if j > 0 {
      assert ([d] + delays)[..j] == [d] + delays[..j - 1];
      assert ([d] + delays[..j - 1])[1..] == delays[..j - 1];
    } else {
      assert ([d] + delays)[..0] == [];
    }
  }

  /** For a whole run. */
  lemma {:induction false} RunTimes(cfg: RetryConfig, id: string, script: Script, sent: nat, now: int)
    ensures
      var run := WholeRun(cfg, id, script, sent, now);
      && run.sent >= sent
      && var n := run.sent - sent;
         && run.now == now + Elapsed(script, sent, n) + Sum(run.delays)
         && (n > 0 && run.result != Aborted(id) ==> |run.delays| == n - 1)
         && (|run.delays| == n || |run.delays| == n - 1)
         && (forall j :: 0 <= j < n ==> !cfg.shouldAbort(StartOf(script, sent, now, run.delays, j)))
  {
    hide StartOf, Elapsed, Sum, RunFrom, Aborted;
    TimeAddsUp(cfg, id, script, sent, now, 1, None);
    RunIsFirstDecisive(cfg, id, script, sent, now);
  }

  function Capped(cfg: RetryConfig, d: nat): nat {
    if d <= cfg.maxDelayMs then d else cfg.maxDelayMs
  }

  lemma {:induction false} BackoffSteps(cfg: RetryConfig, i: nat)
    requires i >= 1
    ensures Backoff(cfg, 1) == Capped(cfg, cfg.baseDelayMs)
    ensures Backoff(cfg, i + 1) == Capped(cfg, 2 * Backoff(cfg, i))
    ensures Backoff(cfg, i) <= cfg.maxDelayMs
  {
    var p := Pow2(i - 1);
    assert Pow2(i) == p + p;
    assert cfg.baseDelayMs * (p + p) == cfg.baseDelayMs * p + cfg.baseDelayMs * p;
  }

  /**
   * The first delay is the base and each later one twice the one before, all capped; delays never shrink; together
   * they stay within (attempts - 1) * maxDelayMs.
   */
  lemma {:induction false} DelaysBounded(cfg: RetryConfig, id: string, script: Script, sent: nat, now: int)
    ensures
      var delays := WholeRun(cfg, id, script, sent, now).delays;
      && |delays| <= Max(cfg.attempts - 1)
      && (delays != [] ==> delays[0] == Capped(cfg, cfg.baseDelayMs))
      && (forall i :: 0 < i < |delays| ==> delays[i] == Capped(cfg, 2 * delays[i - 1]))
      && (forall i, j :: 0 <= i <= j < |delays| ==> delays[i] <= delays[j])
      && Sum(delays) <= Max(cfg.attempts - 1) * cfg.maxDelayMs
  {
    hide Backoff, Capped, Sum, RunFrom;
    var delays := WholeRun(cfg, id, script, sent, now).delays;
    DelaysAreBackoffs(cfg, id, script, sent, now, 1, None);
    forall i | 0 <= i < |delays|
      ensures delays[i] <= cfg.maxDelayMs
      ensures i > 0 ==> delays[i] == Capped(cfg, 2 * delays[i - 1])
    {
      BackoffSteps(cfg, 1 + i);
      if i > 0 { BackoffSteps(cfg, i); }
    }
    if delays != [] {
      BackoffSteps(cfg, 1);
      assert delays[0] == Backoff(cfg, 1 + 0);
    }
    forall i, j | 0 <= i <= j < |delays|
      ensures delays[i] <= delays[j]
    {
      BackoffMonotone(cfg, 1 + i, 1 + j);
    }
    SumBound(delays, cfg.maxDelayMs);
    MulMonotone(|delays|, Max(cfg.attempts - 1), cfg.maxDelayMs);
  }

  /** The number itself, or 0 for a negative one. */
  function Max(n: int): nat {
    if n >= 0 then n else 0
  }

  lemma {:induction false} MulMonotone(a: nat, b: nat, k: nat)
    requires a <= b
    ensures a * k <= b * k
  {
    assert b * k == a * k + (b - a) * k;
  }
}

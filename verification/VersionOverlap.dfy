/**
 * Overlapping changes of one account's password (packages/core/src/auth/auth.engine.ts): each reads the token version,
 * hashes the new password, and only then writes the version it read, plus one. Logins likewise sign the version they
 * read when they began.
 */
module VersionOverlap {
  import opened AuthEngine

  /** The stored version, those read by pending changes and by pending logins, and those of the tokens minted so far. */
  datatype State = State(version: nat, pending: seq<nat>, logins: seq<nat>, minted: seq<nat>)

  datatype Step = Begin | Finish(which: nat) | Enter | Mint(which: nat)

  function Without(s: seq<nat>, j: nat): seq<nat>
    requires j < |s|
  {
    s[..j] + s[j + 1..]
  }

  function Apply(s: State, step: Step): State {
    match step
    case Begin => s.(pending := s.pending + [s.version])
    case Finish(j) =>
      if j >= |s.pending| then s else s.(version := s.pending[j] + 1, pending := Without(s.pending, j))
    case Enter => s.(logins := s.logins + [s.version])
    case Mint(j) =>
      if j >= |s.logins| then s else s.(logins := Without(s.logins, j), minted := s.minted + [s.logins[j]])
  }

  function Run(s: State, steps: seq<Step>): State
    decreases |steps|
  {
    if steps == [] then s else Run(Apply(s, steps[0]), steps[1..])
  }

  /** Never more than k changes are between read and write. */
  predicate AtMost(k: nat, s: State, steps: seq<Step>)
    decreases |steps|
  {
    |s.pending| <= k && (steps != [] ==> AtMost(k, Apply(s, steps[0]), steps[1..]))
  }

  /** An account nobody is using yet. */
  function Fresh(version: nat): State {
    State(version, [], [], [])
  }

  /** Without overlap, beginning and finishing is the engine's atomic change or reset. */
  lemma {:induction false} AtomicChange(p: Passwords, users: Users, op: Op, minted: seq<nat>, check: int, record: int)
    requires ChangesPassword(p, users, op, op.userId)
    ensures StoredVersion(Call(p, users, op, check, record).0, op.userId)
         == Run(State(StoredVersion(users, op.userId), [], [], minted), [Begin, Finish(0)]).version
  {
    var s := State(StoredVersion(users, op.userId), [], [], minted);
    assert [Begin, Finish(0)][1..] == [Finish(0)] && [Finish(0)][1..] == [];
    CallVersion(p, users, Timed(op, check, record), op.userId);
  }

  // ---------------------------------------------------------------------------
  // Without overlap
  // ---------------------------------------------------------------------------

  /** Nothing read or minted is above the stored version, and a pending change has read just that. */
  ghost predicate Inv(s: State) {
    && (forall t :: t in s.minted ==> t <= s.version)
    && (forall t :: t in s.logins ==> t <= s.version)
    && (forall i :: 0 <= i < |s.pending| ==> s.pending[i] == s.version)
  }

  lemma {:induction false} StepKeeps(s: State, step: Step)
    requires Inv(s) && |s.pending| <= 1
    ensures Inv(Apply(s, step)) && s.version <= Apply(s, step).version
  {
    match step
    case Begin =>
    case Enter =>
    case Finish(j) =>
      if j < |s.pending| {
        var version := Apply(s, step).version;
        forall t | t in s.minted || t in s.logins
          ensures t <= version
        {
          assert t <= s.version;
        }
      }
    case Mint(j) =>
      if j < |s.logins| {
        assert s.logins[j] in s.logins;
        forall t | t in Without(s.logins, j)
          ensures t in s.logins
        {
        }
      }
  }

  lemma {:induction false} SequentialKeeps(s: State, steps: seq<Step>)
    requires Inv(s) && AtMost(1, s, steps)
    ensures Inv(Run(s, steps)) && s.version <= Run(s, steps).version
    decreases |steps|
  {
    hide Inv, Apply;
    if steps == [] {
    } else {
      StepKeeps(s, steps[0]);
      SequentialKeeps(Apply(s, steps[0]), steps[1..]);
    }
  }

  lemma {:induction false} MoreSlots(k: nat, n: nat, s: State, steps: seq<Step>)
    requires k <= n && AtMost(k, s, steps)
    ensures AtMost(n, s, steps)
    decreases |steps|
  {
    hide Apply;
    if steps == [] {
    } else {
      MoreSlots(k, n, Apply(s, steps[0]), steps[1..]);
    }
  }

  lemma {:induction false} RunAppend(k: nat, s: State, a: seq<Step>, b: seq<Step>)
    requires AtMost(k, s, a + b)
    ensures AtMost(k, s, a) && AtMost(k, Run(s, a), b) && Run(s, a + b) == Run(Run(s, a), b)
    decreases |a|
  {
    hide Apply;
    if a == [] {
      assert a + b == b;
    } else {
      assert (a + b)[0] == a[0] && (a + b)[1..] == a[1..] + b;
      RunAppend(k, Apply(s, a[0]), a[1..], b);
    }
  }

  // ---------------------------------------------------------------------------
  // With overlap
  // ---------------------------------------------------------------------------

  /** Putting one more step in front of a run. */
  lemma {:induction false} First(k: nat, s: State, step: Step, s': State, steps: seq<Step>, s'': State)
    requires |s.pending| <= k && Apply(s, step) == s' && AtMost(k, s', steps) && Run(s', steps) == s''
    ensures AtMost(k, s, [step] + steps) && Run(s, [step] + steps) == s''
  {
    assert ([step] + steps)[1..] == steps;
  }

  /** Two changes read the same version, and one writes. */
  const WRITTEN := [Begin, Begin, Finish(0)]

  /** And a token is minted for what it wrote. */
  const MINTED_BETWEEN := WRITTEN + [Enter, Mint(0)]

  lemma {:induction false} Written(v: nat)
    ensures AtMost(2, Fresh(v), WRITTEN) && Run(Fresh(v), WRITTEN) == State(v + 1, [v], [], [])
  {
    hide AtMost, Run;
    var s1, s2, s3 := State(v, [v], [], []), State(v, [v, v], [], []), State(v + 1, [v], [], []);
    Nothing(2, s3);
    First(2, s2, Finish(0), s3, [], s3);
    First(2, s1, Begin, s2, [Finish(0)] + [], s3);
    First(2, Fresh(v), Begin, s1, [Begin] + ([Finish(0)] + []), s3);
    assert [Begin] + ([Begin] + ([Finish(0)] + [])) == WRITTEN;
  }

  lemma {:induction false} MintedBetween(v: nat)
    ensures AtMost(2, Fresh(v), MINTED_BETWEEN)
    ensures Run(Fresh(v), MINTED_BETWEEN) == State(v + 1, [v], [], [v + 1])
  {
    hide AtMost, Run;
    var s3, s4 := State(v + 1, [v], [], []), State(v + 1, [v], [v + 1], []);
    var s5 := State(v + 1, [v], [], [v + 1]);
    Nothing(2, s5);
    First(2, s4, Mint(0), s5, [], s5);
    First(2, s3, Enter, s4, [Mint(0)] + [], s5);
    assert [Enter] + ([Mint(0)] + []) == [Enter, Mint(0)];
    Written(v);
    Joined(2, Fresh(v), WRITTEN, [Enter, Mint(0)]);
  }

  lemma {:induction false} Nothing(k: nat, s: State)
    requires |s.pending| <= k
    ensures AtMost(k, s, []) && Run(s, []) == s
  {
  }

  /** A third change begins and finishes, and the token is outdated. */
  const OUTDATED := [Begin, Finish(1)]

  lemma {:induction false} ThenOutdated(v: nat)
    ensures AtMost(2, State(v + 1, [v], [], [v + 1]), OUTDATED)
    ensures Run(State(v + 1, [v], [], [v + 1]), OUTDATED) == State(v + 2, [v], [], [v + 1])
  {
    hide AtMost, Run;
    var s0, s1 := State(v + 1, [v], [], [v + 1]), State(v + 1, [v, v + 1], [], [v + 1]);
    var s2 := State(v + 2, [v], [], [v + 1]);
    Nothing(2, s2);
    First(2, s1, Finish(1), s2, [], s2);
    First(2, s0, Begin, s1, [Finish(1)] + [], s2);
    assert [Begin] + ([Finish(1)] + []) == OUTDATED;
  }

  /** A fourth login reads that version, and the change left over writes an older one. */
  const AHEAD := [Enter, Mint(0), Finish(0)]

  lemma {:induction false} ThenAhead(v: nat)
    ensures AtMost(2, State(v + 2, [v], [], [v + 1]), AHEAD)
    ensures Run(State(v + 2, [v], [], [v + 1]), AHEAD) == State(v + 1, [], [], [v + 1, v + 2])
  {
    hide AtMost, Run;
    var s0, s1 := State(v + 2, [v], [], [v + 1]), State(v + 2, [v], [v + 2], [v + 1]);
    var s2, s3 := State(v + 2, [v], [], [v + 1, v + 2]), State(v + 1, [], [], [v + 1, v + 2]);
    Nothing(2, s3);
    First(2, s2, Finish(0), s3, [], s3);
    First(2, s1, Mint(0), s2, [Finish(0)] + [], s3);
    First(2, s0, Enter, s1, [Mint(0)] + ([Finish(0)] + []), s3);
    assert [Enter] + ([Mint(0)] + ([Finish(0)] + [])) == AHEAD;
  }

  lemma {:induction false} Joined(k: nat, s: State, a: seq<Step>, b: seq<Step>)
    requires AtMost(k, s, a) && AtMost(k, Run(s, a), b)
    ensures AtMost(k, s, a + b) && Run(s, a + b) == Run(Run(s, a), b)
    decreases |a|
  {
    hide Apply;
    if a == [] {
      assert a + b == b;
    } else {
      assert (a + b)[0] == a[0] && (a + b)[1..] == a[1..] + b;
      Joined(k, Apply(s, a[0]), a[1..], b);
    }
  }

  // ---------------------------------------------------------------------------
  // Exactly when versions do their work
  // ---------------------------------------------------------------------------

  /** Finishing the j-th pending change leaves all tokens minted so far strictly below the stored version. */
  predicate Outdates(s: State, j: nat) {
    forall t :: t in s.minted ==> t < Apply(s, Finish(j)).version
  }

  predicate NoneAhead(s: State) {
    forall t :: t in s.minted ==> t <= s.version
  }

  /** No token that is not current at first is current in the end; the account state service tests for equality. */
  predicate NoneRevived(s: State, s': State) {
    forall t :: t in s.minted && t != s.version ==> t != s'.version
  }

  /**
   * That every change and reset outdates all tokens minted before it, over every run from a fresh account, holds if
   * and only if no two changes overlap.
   */
  lemma {:induction false} EveryChangeOutdatesIff(k: nat)
    ensures
      (forall v: nat, steps, j: nat ::
         AtMost(k, Fresh(v), steps) && j < |Run(Fresh(v), steps).pending| ==> Outdates(Run(Fresh(v), steps), j))
      <==> k <= 1
  {
    hide Run, AtMost, Apply;
    if k <= 1 {
      forall v: nat, steps, j: nat | AtMost(k, Fresh(v), steps) && j < |Run(Fresh(v), steps).pending|
        ensures Outdates(Run(Fresh(v), steps), j)
      {
        MoreSlots(k, 1, Fresh(v), steps);
        SequentialKeeps(Fresh(v), steps);
        FinishWrites(Run(Fresh(v), steps), j);
      }
    } else {
      var s := Run(Fresh(0), MINTED_BETWEEN);
      MintedBetween(0);
      MoreSlots(2, k, Fresh(0), MINTED_BETWEEN);
      FinishWrites(s, 0);
      assert 1 in s.minted && !Outdates(s, 0);
    }
  }

  lemma {:induction false} FinishWrites(s: State, j: nat)
    requires j < |s.pending|
    ensures Apply(s, Finish(j)).version == s.pending[j] + 1
  {
  }

  /** That no token is ever ahead of the stored version holds if and only if no two changes overlap. */
  lemma {:induction false} NoneAheadIff(k: nat)
    ensures (forall v: nat, steps :: AtMost(k, Fresh(v), steps) ==> NoneAhead(Run(Fresh(v), steps))) <==> k <= 1
  {
    hide Run, AtMost, Apply;
    if k <= 1 {
      forall v: nat, steps | AtMost(k, Fresh(v), steps)
        ensures NoneAhead(Run(Fresh(v), steps))
      {
        MoreSlots(k, 1, Fresh(v), steps);
        SequentialKeeps(Fresh(v), steps);
      }
    } else {
      MintedBetween(0);
      ThenOutdated(0);
      ThenAhead(0);
      Joined(2, Fresh(0), MINTED_BETWEEN, OUTDATED);
      Joined(2, Fresh(0), MINTED_BETWEEN + OUTDATED, AHEAD);
      MoreSlots(2, k, Fresh(0), MINTED_BETWEEN + OUTDATED + AHEAD);
      assert 2 in Run(Fresh(0), MINTED_BETWEEN + OUTDATED + AHEAD).minted;
      assert !NoneAhead(Run(Fresh(0), MINTED_BETWEEN + OUTDATED + AHEAD));
    }
  }

  /**
   * That a token once outdated stays outdated, over every run and every continuation, holds if and only if no two
   * changes overlap: a late write can bring its version back.
   */
  lemma {:induction false} NoneRevivedIff(k: nat)
    ensures
      (forall v: nat, steps, more ::
         AtMost(k, Fresh(v), steps + more) ==> NoneRevived(Run(Fresh(v), steps), Run(Fresh(v), steps + more)))
      <==> k <= 1
  {
    hide Run, AtMost, Apply;
    if k <= 1 {
      forall v: nat, steps, more | AtMost(k, Fresh(v), steps + more)
        ensures NoneRevived(Run(Fresh(v), steps), Run(Fresh(v), steps + more))
      {
        MoreSlots(k, 1, Fresh(v), steps + more);
        RunAppend(1, Fresh(v), steps, more);
        SequentialKeeps(Fresh(v), steps);
        SequentialKeeps(Run(Fresh(v), steps), more);
      }
    } else {
      var steps := MINTED_BETWEEN + OUTDATED;
      MintedBetween(0);
      ThenOutdated(0);
      ThenAhead(0);
      Joined(2, Fresh(0), MINTED_BETWEEN, OUTDATED);
      Joined(2, Fresh(0), steps, AHEAD);
      MoreSlots(2, k, Fresh(0), steps + AHEAD);
      assert 1 in Run(Fresh(0), steps).minted;
      assert !NoneRevived(Run(Fresh(0), steps), Run(Fresh(0), steps + AHEAD));
    }
  }

  /** The j-th login pending would now mint a token of the stored version. */
  predicate MintsCurrent(s: State, j: nat) {
    Apply(s, Mint(j)).minted == s.minted + [s.version]
  }

  /** A login that began before a change and mints after it. */
  const OVERTAKEN := [Enter, Begin, Finish(0)]

  lemma {:induction false} Overtaken(v: nat)
    ensures AtMost(1, Fresh(v), OVERTAKEN) && Run(Fresh(v), OVERTAKEN) == State(v + 1, [], [v], [])
  {
    hide AtMost, Run;
    var s1, s2, s3 := State(v, [], [v], []), State(v, [v], [v], []), State(v + 1, [], [v], []);
    Nothing(1, s3);
    First(1, s2, Finish(0), s3, [], s3);
    First(1, s1, Begin, s2, [Finish(0)] + [], s3);
    First(1, Fresh(v), Enter, s1, [Begin] + ([Finish(0)] + []), s3);
    assert [Enter] + ([Begin] + ([Finish(0)] + [])) == OVERTAKEN;
  }

  /**
   * A login mints the version it read when it began: that every token is current when it is minted, over every run,
   * holds if and only if there are no changes. One change, overlapping no other, is enough to outdate a late token.
   */
  lemma {:induction false} MintsCurrentIff(k: nat)
    ensures
      (forall v: nat, steps, j: nat ::
         AtMost(k, Fresh(v), steps) && j < |Run(Fresh(v), steps).logins| ==> MintsCurrent(Run(Fresh(v), steps), j))
      <==> k == 0
  {
    hide Run, AtMost, Apply;
    if k == 0 {
      forall v: nat, steps, j: nat | AtMost(k, Fresh(v), steps) && j < |Run(Fresh(v), steps).logins|
        ensures MintsCurrent(Run(Fresh(v), steps), j)
      {
        NoChanges(Fresh(v), steps);
        MintWrites(Run(Fresh(v), steps), j);
      }
    } else {
      Overtaken(0);
      MoreSlots(1, k, Fresh(0), OVERTAKEN);
      MintWrites(Run(Fresh(0), OVERTAKEN), 0);
      assert !MintsCurrent(Run(Fresh(0), OVERTAKEN), 0);
    }
  }

  lemma {:induction false} MintWrites(s: State, j: nat)
    requires j < |s.logins|
    ensures MintsCurrent(s, j) <==> s.logins[j] == s.version
  {
    assert (s.minted + [s.logins[j]])[|s.minted|] == s.logins[j];
    assert (s.minted + [s.version])[|s.minted|] == s.version;
  }

  lemma {:induction false} NoChanges(s: State, steps: seq<Step>)
    requires AtMost(0, s, steps) && s.pending == [] && forall i :: 0 <= i < |s.logins| ==> s.logins[i] == s.version
    ensures forall i :: 0 <= i < |Run(s, steps).logins| ==> Run(s, steps).logins[i] == Run(s, steps).version
    decreases |steps|
  {
    if steps == [] {
    } else {
      NoChanges(Apply(s, steps[0]), steps[1..]);
    }
  }
}

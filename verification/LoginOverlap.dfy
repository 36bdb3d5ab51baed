/**
 * Overlapping logins with wrong passwords on one account (packages/core/src/auth/auth.engine.ts): each reads the
 * account, compares the password, and only then writes the failure count it read, plus one.
 */
module LoginOverlap {
  import opened AuthEngine
  import Wrappers

  /** The account, and for every login between its read and its write the failure count it read. */
  datatype State = State(user: User, pending: seq<nat>)

  /** A login reads the account and compares; the which-th pending one records its failure. */
  datatype Step = Begin(now: int) | Finish(which: nat, now: int)

  predicate Locked(u: User, now: int) {
    u.loginLockUntil.Some? && u.loginLockUntil.value > now
  }

  /** The login gets as far as comparing its password. */
  predicate Compares(s: State, step: Step) {
    step.Begin? && !Locked(s.user, step.now)
  }

  function Recorded(u: User, read: nat, now: int): User {
    var failed := AfterFailedLogin(u.(failedLoginAttempts := read), now);
    u.(failedLoginAttempts := failed.failedLoginAttempts, loginLockUntil := failed.loginLockUntil)
  }

  function Without(s: seq<nat>, j: nat): seq<nat>
    requires j < |s|
  {
    s[..j] + s[j + 1..]
  }

  function Apply(s: State, step: Step): State {
    match step
    case Begin(now) => if Locked(s.user, now) then s else State(s.user, s.pending + [s.user.failedLoginAttempts])
    case Finish(j, now) =>
      if j >= |s.pending| then s else State(Recorded(s.user, s.pending[j], now), Without(s.pending, j))
  }

  function Run(s: State, steps: seq<Step>): State
    decreases |steps|
  {
    if steps == [] then s else Run(Apply(s, steps[0]), steps[1..])
  }

  /** How many wrong passwords a run compares. */
  function Compared(s: State, steps: seq<Step>): nat
    decreases |steps|
  {
    if steps == [] then 0
    else (if Compares(s, steps[0]) then 1 else 0) + Compared(Apply(s, steps[0]), steps[1..])
  }

  /** Never more than k logins are between read and write, and all happens in a window shorter than the lock. */
  predicate Within(k: nat, s: State, steps: seq<Step>, from: int)
    decreases |steps|
  {
    && |s.pending| <= k
    && (steps != [] ==> from <= steps[0].now < from + LOCK_MS && Within(k, Apply(s, steps[0]), steps[1..], from))
  }

  /** Without overlap, beginning and finishing is the engine's atomic login. */
  lemma {:induction false} AtomicLogin(p: Passwords, users: Users, userId: string, password: string, mfaEnabled: bool,
                                       check: int, record: int)
    requires userId in users && users[userId].passwordHash.Some? && p.isArgon2(users[userId].passwordHash.value)
    requires !p.verify(password, users[userId].passwordHash.value)
    ensures Call(p, users, Login(userId, password, mfaEnabled), check, record).0 ==
            users[userId := Apply(Apply(State(users[userId], []), Begin(check)), Finish(0, record)).user]
  {
    assert users[userId := users[userId]] == users;
  }

  // ---------------------------------------------------------------------------
  // How many comparisons k slots can make
  // ---------------------------------------------------------------------------

  /**
   * The most k slots can compare from failure count v on: one login is left pending at v while the others do their
   * most, then its write sets the count to v + 1 for all k.
   */
  function Most(k: nat, v: nat): nat
    decreases MAX_FAILURES - v, k
  {
    if k == 0 || v >= MAX_FAILURES then 0 else Most(k - 1, v) + 1 + Most(k, v + 1)
  }

  /** Binomial coefficients, by Pascal's rule. */
  function Choose(n: nat, r: nat): nat {
    if r == 0 then 1 else if n == 0 then 0 else Choose(n - 1, r) + Choose(n - 1, r - 1)
  }

  lemma {:induction false} ChooseBeyond(n: nat, r: nat)
    requires r >= n
    ensures Choose(n, r) == if r == n then 1 else 0
  {
    if n == 0 || r == 0 {
    } else {
      ChooseBeyond(n - 1, r);
      ChooseBeyond(n - 1, r - 1);
    }
  }

  lemma {:induction false} MostIsBinomial(k: nat, v: nat)
    requires v <= MAX_FAILURES
    ensures Most(k, v) + 1 == Choose(k + (MAX_FAILURES - v), MAX_FAILURES - v)
    decreases MAX_FAILURES - v, k
  {
    if v == MAX_FAILURES {
    } else if k == 0 {
      ChooseBeyond(MAX_FAILURES - v, MAX_FAILURES - v);
    } else {
      MostIsBinomial(k - 1, v);
      MostIsBinomial(k, v + 1);
    }
  }

  /** What is lost when n slots are no better off than level r. */
  function Loss(r: nat, n: nat): nat
    requires r >= 1
  {
    if n == 0 then 0 else 1 + Most(n - 1, r - 1)
  }

  lemma {:induction false} LossIsDifference(r: nat, n: nat)
    requires 1 <= r <= MAX_FAILURES
    ensures Most(n, r - 1) == Most(n, r) + Loss(r, n)
  {
  }

  lemma {:induction false} MostGrows(k: nat, n: nat, v: nat)
    requires k <= n
    ensures Most(k, v) <= Most(n, v)
    decreases n
  {
    if k == n {
    } else {
      MostGrows(k, n - 1, v);
    }
  }

  lemma {:induction false} LossGrows(r: nat, n: nat, n': nat)
    requires r >= 1 && n <= n'
    ensures Loss(r, n) <= Loss(r, n')
  {
    if n > 0 { MostGrows(n - 1, n' - 1, r - 1); }
  }

  /** One more slot at level r costs the slot and everything n slots could have done from there. */
  lemma {:induction false} LossStep(r: nat, n: nat)
    requires 1 <= r <= MAX_FAILURES
    ensures Loss(r, n + 1) == Loss(r, n) + 1 + Most(n, r)
  {
  }

  // ---------------------------------------------------------------------------
  // The slots of a state
  // ---------------------------------------------------------------------------

  function Min(a: nat, b: nat): nat {
    if a <= b then a else b
  }

  /** How far a pending login is: its own comparison always counts. */
  function Level(read: nat): (l: nat)
    ensures l < MAX_FAILURES
  {
    Min(read, MAX_FAILURES - 1)
  }

  /** How far the next login to begin is. A lock that outlasts the window lets none begin. */
  function IdleLevel(u: User, end: int): (l: nat)
    ensures l <= MAX_FAILURES
  {
    if u.loginLockUntil.Some? && u.loginLockUntil.value >= end then MAX_FAILURES else Level(u.failedLoginAttempts)
  }

  /** The pending logins at level r or above. */
  function PendingFrom(pending: seq<nat>, r: nat): (n: nat)
    ensures n <= |pending|
  {
    if pending == [] then 0 else PendingFrom(pending[1..], r) + if Level(pending[0]) >= r then 1 else 0
  }

  /** All slots at level r or above. */
  function SlotsFrom(k: nat, s: State, end: int, r: nat): (n: nat)
    requires |s.pending| <= k
    ensures n <= k
  {
    PendingFrom(s.pending, r) + if IdleLevel(s.user, end) >= r then k - |s.pending| else 0
  }

  lemma {:induction false} PendingWithout(pending: seq<nat>, j: nat, r: nat)
    requires j < |pending|
    ensures PendingFrom(pending, r) == PendingFrom(Without(pending, j), r) + if Level(pending[j]) >= r then 1 else 0
  {
    var rest := Without(pending, j);
    if j == 0 {
      assert rest == pending[1..];
    } else {
      PendingWithout(pending[1..], j - 1, r);
      assert rest[0] == pending[0] && rest[1..] == Without(pending[1..], j - 1);
    }
  }

  lemma {:induction false} PendingWith(pending: seq<nat>, read: nat, r: nat)
    ensures PendingFrom(pending + [read], r) == PendingFrom(pending, r) + if Level(read) >= r then 1 else 0
  {
    PendingWithout(pending + [read], |pending|, r);
    assert Without(pending + [read], |pending|) == pending;
  }

  lemma {:induction false} SlotsShrink(k: nat, s: State, end: int, r: nat)
    requires |s.pending| <= k
    ensures SlotsFrom(k, s, end, r + 1) <= SlotsFrom(k, s, end, r)
  {
    PendingShrinks(s.pending, r);
  }

  lemma {:induction false} PendingShrinks(pending: seq<nat>, r: nat)
    ensures PendingFrom(pending, r + 1) <= PendingFrom(pending, r)
  {
    if pending == [] {
    } else {
      PendingShrinks(pending[1..], r);
    }
  }

  // ---------------------------------------------------------------------------
  // The bound
  // ---------------------------------------------------------------------------

  /** What the slots have lost at levels r and above, against slots that are all at level 0. */
  function LostFrom(k: nat, s: State, end: int, r: nat): nat
    requires |s.pending| <= k && r >= 1
    decreases MAX_FAILURES + 1 - r
  {
    if r > MAX_FAILURES then 0 else Loss(r, SlotsFrom(k, s, end, r)) + LostFrom(k, s, end, r + 1)
  }

  /** Levels above r together lose at most what n slots could do from r on, if no more than n slots are above r. */
  lemma {:induction false} LostAtMost(k: nat, s: State, end: int, r: nat, n: nat)
    requires |s.pending| <= k && 1 <= r <= MAX_FAILURES && SlotsFrom(k, s, end, r + 1) <= n
    ensures LostFrom(k, s, end, r + 1) <= Most(n, r)
    decreases MAX_FAILURES - r
  {
    hide Loss, SlotsFrom, Most;
    if r == MAX_FAILURES {
    } else {
      SlotsShrink(k, s, end, r + 1);
      LostAtMost(k, s, end, r + 1, n);
      LossGrows(r + 1, SlotsFrom(k, s, end, r + 1), n);
      LossIsDifference(r + 1, n);
    }
  }

  /** Beginning moves an idle slot to a pending one of the same level. */
  lemma {:induction false} BeginKeepsSlots(k: nat, s: State, now: int, end: int, r: nat)
    requires |s.pending| < k && !Locked(s.user, now) && now < end
    ensures SlotsFrom(k, Apply(s, Begin(now)), end, r) == SlotsFrom(k, s, end, r)
  {
    PendingWith(s.pending, s.user.failedLoginAttempts, r);
  }

  lemma {:induction false} BeginKeepsLost(k: nat, s: State, now: int, end: int, r: nat)
    requires |s.pending| < k && !Locked(s.user, now) && now < end && r >= 1
    ensures LostFrom(k, Apply(s, Begin(now)), end, r) == LostFrom(k, s, end, r)
    decreases MAX_FAILURES + 1 - r
  {
    hide Loss, SlotsFrom;
    if r > MAX_FAILURES {
    } else {
      BeginKeepsSlots(k, s, now, end, r);
      BeginKeepsLost(k, s, now, end, r + 1);
    }
  }

  /** Finishing moves its slot and all idle ones to the level above the one it read. */
  lemma {:induction false} FinishSlots(k: nat, s: State, j: nat, now: int, end: int, r: nat)
    requires |s.pending| <= k && j < |s.pending| && end <= now + LOCK_MS
    ensures
      var s', w, n := Apply(s, Finish(j, now)), Level(s.pending[j]) + 1, SlotsFrom(k, s, end, r);
      && |s'.pending| <= k
      && (r < w ==> SlotsFrom(k, s', end, r) >= n)
      && (r == w ==> SlotsFrom(k, s', end, r) >= n + 1)
  {
    PendingWithout(s.pending, j, r);
  }

  lemma {:induction false} FinishGainsBelow(k: nat, s: State, j: nat, now: int, end: int, r: nat)
    requires |s.pending| <= k && j < |s.pending| && end <= now + LOCK_MS && 1 <= r <= Level(s.pending[j]) + 1
    ensures
      var s', w := Apply(s, Finish(j, now)), Level(s.pending[j]) + 1;
      LostFrom(k, s, end, r) + 1 <= LostFrom(k, s', end, r)
    decreases MAX_FAILURES - r
  {
    hide Loss, SlotsFrom, Most, Apply, Level;
    var s', w := Apply(s, Finish(j, now)), Level(s.pending[j]) + 1;
    FinishSlots(k, s, j, now, end, r);
    if r == w {
      var n := SlotsFrom(k, s, end, w);
      LossGrows(w, n + 1, SlotsFrom(k, s', end, w));
      LossStep(w, n);
      SlotsShrink(k, s, end, w);
      LostAtMost(k, s, end, w, n);
    } else {
      LossGrows(r, SlotsFrom(k, s, end, r), SlotsFrom(k, s', end, r));
      FinishGainsBelow(k, s, j, now, end, r + 1);
    }
  }

  /** Beginning loses nothing, finishing loses at least the comparison that is over. */
  lemma {:induction false} StepCosts(k: nat, s: State, step: Step, from: int)
    requires |s.pending| <= k && |Apply(s, step).pending| <= k && from <= step.now < from + LOCK_MS
    ensures
      var s', end := Apply(s, step), from + LOCK_MS;
      LostFrom(k, s, end, 1) + (if Compares(s, step) then 1 else 0) + |s.pending|
        <= LostFrom(k, s', end, 1) + |s'.pending|
  {
    hide LostFrom, Recorded;
    match step
    case Begin(now) =>
      if !Locked(s.user, now) { BeginKeepsLost(k, s, now, from + LOCK_MS, 1); }
    case Finish(j, now) =>
      if j < |s.pending| { FinishGainsBelow(k, s, j, now, from + LOCK_MS, 1); }
  }

  lemma {:induction false} RunCosts(k: nat, s: State, steps: seq<Step>, from: int)
    requires Within(k, s, steps, from)
    ensures |Run(s, steps).pending| <= k
    ensures
      var s', end := Run(s, steps), from + LOCK_MS;
      LostFrom(k, s, end, 1) + Compared(s, steps) + |s.pending| <= LostFrom(k, s', end, 1) + |s'.pending|
    decreases |steps|
  {
    hide LostFrom, Apply, Compares;
    if steps == [] {
    } else {
      RunCosts(k, Apply(s, steps[0]), steps[1..], from);
      StepCosts(k, s, steps[0], from);
    }
  }

  /** Every pending login has something left: its own comparison. */
  lemma {:induction false} PendingNotLost(k: nat, s: State, end: int)
    requires |s.pending| <= k
    ensures LostFrom(k, s, end, 1) + |s.pending| <= Most(k, 0)
  {
    LostBelowTop(k, s, end, 1);
    LossIsDifference(1, k);
  }

  lemma {:induction false} NonePendingAtTop(pending: seq<nat>)
    ensures PendingFrom(pending, MAX_FAILURES) == 0
  {
    if pending == [] {
    } else {
      NonePendingAtTop(pending[1..]);
    }
  }

  lemma {:induction false} LostBelowTop(k: nat, s: State, end: int, r: nat)
    requires |s.pending| <= k && 1 <= r <= MAX_FAILURES
    ensures LostFrom(k, s, end, r) + |s.pending| <= Most(k, r - 1)
    decreases MAX_FAILURES - r
  {
    hide Loss, SlotsFrom;
    if r == MAX_FAILURES {
      TopLoss(k, s, end);
    } else {
      LostBelowTop(k, s, end, r + 1);
      LossGrows(r, SlotsFrom(k, s, end, r), k);
      LossIsDifference(r, k);
    }
  }

  lemma {:induction false} TopLoss(k: nat, s: State, end: int)
    requires |s.pending| <= k
    ensures LostFrom(k, s, end, MAX_FAILURES) + |s.pending| <= Most(k, MAX_FAILURES - 1)
  {
    NonePendingAtTop(s.pending);
    MostAtTop(k);
    var n := SlotsFrom(k, s, end, MAX_FAILURES);
    if n > 0 { MostAtTop(n - 1); }
    assert LostFrom(k, s, end, MAX_FAILURES + 1) == 0;
  }

  lemma {:induction false} MostAtTop(k: nat)
    ensures Most(k, MAX_FAILURES - 1) == k
  {
    if k == 0 {
    } else {
      MostAtTop(k - 1);
    }
  }

  /**
   * Overlapping logins: in any window shorter than 15 minutes in which nothing clears the account and never more than k
   * wrong logins overlap, those pending when it opens included, these and the ones that begin compare at most
   * Most(k, 0) wrong passwords, whatever the account's count and lock are.
   */
  lemma {:induction false} OverlapBound(k: nat, s: State, steps: seq<Step>, from: int)
    requires Within(k, s, steps, from)
    ensures |s.pending| + Compared(s, steps) <= Most(k, 0)
  {
    hide LostFrom, Compared, Run, Most;
    RunCosts(k, s, steps, from);
    PendingNotLost(k, Run(s, steps), from + LOCK_MS);
  }

  // ---------------------------------------------------------------------------
  // The bound is reached
  // ---------------------------------------------------------------------------

  /** A run that does it, in slots behind the first n pending ones. */
  function Best(k: nat, v: nat, n: nat, now: int): seq<Step>
    decreases MAX_FAILURES - v, k
  {
    if k == 0 || v >= MAX_FAILURES then []
    else [Begin(now)] + (Best(k - 1, v, n + 1, now) + ([Finish(n, now)] + Best(k, v + 1, n, now)))
  }

  /** A run and what it does: its comparisons, the pending logins it leaves, its fit in k slots. */
  ghost predicate Does(k: nat, s: State, steps: seq<Step>, from: int, compared: nat, s': State) {
    Within(k, s, steps, from) && Compared(s, steps) == compared && Run(s, steps) == s'
  }

  lemma {:induction false} Then(k: nat, s: State, a: seq<Step>, b: seq<Step>, from: int, n: nat, s': State, m: nat,
                                s'': State)
    requires Does(k, s, a, from, n, s') && Does(k, s', b, from, m, s'')
    ensures Does(k, s, a + b, from, n + m, s'')
    decreases |a|
  {
    hide Apply, Compares;
    if a == [] {
      assert a + b == b;
    } else {
      assert (a + b)[0] == a[0] && (a + b)[1..] == a[1..] + b;
      var rest := Compared(Apply(s, a[0]), a[1..]);
      Then(k, Apply(s, a[0]), a[1..], b, from, rest, s', m, s'');
    }
  }

  lemma {:induction false} OneStep(k: nat, s: State, step: Step, from: int)
    requires |s.pending| <= k && |Apply(s, step).pending| <= k && from <= step.now < from + LOCK_MS
    ensures Does(k, s, [step], from, if Compares(s, step) then 1 else 0, Apply(s, step))
  {
    assert [step][1..] == [];
  }

  /**
   * From count v and no lock, with k slots free, the run compares all it can and leaves the pending logins as they
   * were.
   */
  lemma {:induction false} BestDoes(k: nat, v: nat, s: State, now: int)
    returns (s': State)
    requires v < MAX_FAILURES ==> s.user.failedLoginAttempts == v && !Locked(s.user, now)
    ensures Does(|s.pending| + k, s, Best(k, v, |s.pending|, now), now, Most(k, v), s')
    ensures s'.pending == s.pending
    decreases MAX_FAILURES - v, k
  {
    hide Does;
    var n := |s.pending|;
    var all := n + k;
    if k == 0 || v >= MAX_FAILURES {
      s' := s;
      NoStep(all, s, now);
    } else {
      hide Apply, Most, Best;
      var s1 := State(s.user, s.pending + [v]);
      assert Apply(s, Begin(now)) == s1 && Compares(s, Begin(now)) by { Begins(s, now); }
      OneStep(all, s, Begin(now), now);
      var s2 := BestDoes(k - 1, v, s1, now);
      var s3 := Apply(s2, Finish(n, now));
      Finishes(s2, s.pending, v, now);
      OneStep(all, s2, Finish(n, now), now);
      s' := BestDoes(k, v + 1, s3, now);
      Then(all, s2, [Finish(n, now)], Best(k, v + 1, n, now), now, 0, s3, Most(k, v + 1), s');
      Then(all, s1, Best(k - 1, v, n + 1, now), [Finish(n, now)] + Best(k, v + 1, n, now), now,
           Most(k - 1, v), s2, 0 + Most(k, v + 1), s');
      Then(all, s, [Begin(now)], Best(k - 1, v, n + 1, now) + ([Finish(n, now)] + Best(k, v + 1, n, now)), now,
           1, s1, Most(k - 1, v) + (0 + Most(k, v + 1)), s');
      BestUnfolds(k, v, n, now);
    }
  }

  lemma {:induction false} BestUnfolds(k: nat, v: nat, n: nat, now: int)
    requires k > 0 && v < MAX_FAILURES
    ensures Best(k, v, n, now)
         == [Begin(now)] + (Best(k - 1, v, n + 1, now) + ([Finish(n, now)] + Best(k, v + 1, n, now)))
    ensures Most(k, v) == 1 + (Most(k - 1, v) + (0 + Most(k, v + 1)))
  {
  }

  lemma {:induction false} NoStep(k: nat, s: State, from: int)
    requires |s.pending| <= k
    ensures Does(k, s, [], from, 0, s)
  {
  }

  lemma {:induction false} Begins(s: State, now: int)
    requires !Locked(s.user, now)
    ensures Apply(s, Begin(now)) == State(s.user, s.pending + [s.user.failedLoginAttempts]) && Compares(s, Begin(now))
  {
  }

  /** The login behind the pending ones finishes. */
  lemma {:induction false} Finishes(s: State, pending: seq<nat>, v: nat, now: int)
    requires s.pending == pending + [v]
    ensures
      var s' := Apply(s, Finish(|pending|, now));
      && s'.pending == pending && s'.user.failedLoginAttempts == v + 1
      && (v + 1 < MAX_FAILURES ==> s'.user.loginLockUntil.None?)
  {
  }

  /**
   * Exactly how much overlap costs: k overlapping logins compare at most C(k + 5, 5) - 1 wrong passwords per window,
   * and from every account without failures and without a lock there is a run that compares as many.
   */
  lemma {:induction false} OverlapMaximum(k: nat, user: User, now: int)
    requires user.failedLoginAttempts == 0 && !Locked(user, now)
    ensures forall s, steps, from :: Within(k, s, steps, from) ==> |s.pending| + Compared(s, steps) < Choose(k + 5, 5)
    ensures exists steps :: Within(k, State(user, []), steps, now)
                            && Compared(State(user, []), steps) + 1 == Choose(k + 5, 5)
  {
    hide Within, Compared, Most, Choose, Best;
    MostIsBinomial(k, 0);
    forall s, steps, from | Within(k, s, steps, from)
      ensures |s.pending| + Compared(s, steps) < Choose(k + 5, 5)
    {
      OverlapBound(k, s, steps, from);
    }
    var s' := BestDoes(k, 0, State(user, []), now);
  }

  /** The engine's limit of five holds for overlapping logins if and only if no two overlap. */
  lemma {:induction false} FiveHoldsIff(k: nat)
    ensures (forall s, steps, from :: Within(k, s, steps, from) ==> Compared(s, steps) <= MAX_FAILURES) <==> k <= 1
  {
    hide Within, Compared, Best;
    MostValues();
    if k <= 1 {
      forall s, steps, from | Within(k, s, steps, from)
        ensures Compared(s, steps) <= MAX_FAILURES
      {
        OverlapBound(k, s, steps, from);
        MostGrows(k, 1, 0);
      }
    } else {
      MostGrows(2, k, 0);
      hide Most;
      var s := State(FRESH_USER, []);
      var s' := BestDoes(k, 0, s, 0);
      assert Within(k, s, Best(k, 0, 0, 0), 0);
    }
  }

  const FRESH_USER := User(Wrappers.None, true, 0, 0, Wrappers.None)

  lemma MostValues()
    ensures Most(1, 0) == 5 && Most(2, 0) > 5
  {
    assert Most(1, 4) == 1;
    assert Most(1, 3) == 2;
    assert Most(1, 2) == 3;
    assert Most(1, 1) == 4;
  }

  // ---------------------------------------------------------------------------
  // Which write decides
  // ---------------------------------------------------------------------------

  lemma {:induction false} BeginsKeepUser(s: State, steps: seq<Step>)
    requires forall i :: 0 <= i < |steps| ==> steps[i].Begin?
    ensures Run(s, steps).user == s.user
    decreases |steps|
  {
    if steps == [] {
    } else {
      BeginsKeepUser(Apply(s, steps[0]), steps[1..]);
    }
  }

  lemma {:induction false} RunAppend(s: State, a: seq<Step>, b: seq<Step>)
    ensures Run(s, a + b) == Run(Run(s, a), b)
    decreases |a|
  {
    hide Apply;
    if a == [] {
      assert a + b == b;
    } else {
      assert (a + b)[0] == a[0] && (a + b)[1..] == a[1..] + b;
      RunAppend(Apply(s, a[0]), a[1..], b);
    }
  }

  /**
   * After any run the account is locked exactly if the login that wrote last had read four failures or more, for 15
   * minutes from its write; whatever was counted or locked since it read is forgotten.
   */
  lemma {:induction false} LastWriteDecides(s: State, before: seq<Step>, j: nat, now: int, after: seq<Step>, later: int)
    requires j < |Run(s, before).pending| && forall i :: 0 <= i < |after| ==> after[i].Begin?
    ensures
      var read, user := Run(s, before).pending[j], Run(s, before + [Finish(j, now)] + after).user;
      && user.failedLoginAttempts == read + 1
      && (Locked(user, later) <==> read >= MAX_FAILURES - 1 && later < now + LOCK_MS)
  {
    var s1 := Run(s, before);
    RunAppend(s, before + [Finish(j, now)], after);
    RunAppend(s, before, [Finish(j, now)]);
    BeginsKeepUser(Run(s, before + [Finish(j, now)]), after);
    assert [Finish(j, now)][1..] == [];
    assert Run(s1, [Finish(j, now)]) == Apply(s1, Finish(j, now));
  }
}

/**
 * Account state behind the auth engine (packages/core/src/auth/auth.engine.ts): lockout after wrong passwords, and
 * token versions across password changes.
 *
 * Engine calls are atomic and the account store is available. Password hashing, the password policy and the services
 * an engine call consults (OTP, verification tokens, MFA) are parameters.
 */
module AuthEngine {
  import opened Wrappers

  datatype User = User(
    passwordHash: Option<string>,
    isActive: bool,
    tokenVersion: nat,
    failedLoginAttempts: nat,
    loginLockUntil: Option<int>)

  type Users = map<string, User>

  datatype Passwords = Passwords(verify: (string, string) -> bool, isArgon2: string -> bool, policyOk: string -> bool)

  datatype AuthError = InvalidCredentials | AccountLocked | AccountDisabled | PolicyViolation | UserNotFound
                     | WrongCurrentPassword | InvalidProof

  /** The answer of an engine call; tokens are represented by the version they carry. */
  datatype Answer = Tokens(version: nat) | MfaRequired | Done | Failed(error: AuthError)

  const MAX_FAILURES := 5
  const LOCK_MS := 15 * 60000

  // ---------------------------------------------------------------------------
  // Engine calls as functions of the store
  // ---------------------------------------------------------------------------

  datatype Op =
    | Register(userId: string, passwordHash: Option<string>)
    | Login(userId: string, password: string, mfaEnabled: bool)
    | OtpLogin(userId: string, verified: bool, mfaEnabled: bool)
    | Refresh(userId: string)
    | ChangePassword(userId: string, current: string, next: string, nextHash: string)
    | ResetPassword(userId: string, byCode: bool, proofOk: bool, next: string, nextHash: string)

  /** The password of a login is compared with the stored hash. */
  predicate LoginChecksPassword(p: Passwords, users: Users, userId: string, now: int) {
    && userId in users
    && !(users[userId].loginLockUntil.Some? && users[userId].loginLockUntil.value > now)
    && users[userId].passwordHash.Some?
    && p.isArgon2(users[userId].passwordHash.value)
  }

  function AfterFailedLogin(u: User, now: int): User {
    var next := u.failedLoginAttempts + 1;
    u.(failedLoginAttempts := next, loginLockUntil := if next >= MAX_FAILURES then Some(now + LOCK_MS) else None)
  }

  function AfterClear(u: User): User {
    u.(failedLoginAttempts := 0, loginLockUntil := None)
  }

  function AfterReset(u: User, hash: string): User {
    u.(passwordHash := Some(hash), tokenVersion := u.tokenVersion + 1, failedLoginAttempts := 0, loginLockUntil := None)
  }

  /** The store and the answer after one call; `check` is the clock at its start, `record` when it writes. */
  function Call(p: Passwords, users: Users, op: Op, check: int, record: int): (Users, Answer) {
    match op
    case Register(userId, hash) =>
      if userId in users then (users, Failed(InvalidCredentials))
      else (users[userId := User(hash, true, 0, 0, None)], Tokens(0))
    case Login(userId, password, mfaEnabled) =>
      if userId !in users then (users, Failed(InvalidCredentials))
      else
        var u := users[userId];
        if u.loginLockUntil.Some? && u.loginLockUntil.value > check then (users, Failed(AccountLocked))
        else if u.passwordHash.None? || !p.isArgon2(u.passwordHash.value) then (users, Failed(InvalidCredentials))
        else if !p.verify(password, u.passwordHash.value) then
          (users[userId := AfterFailedLogin(u, record)], Failed(InvalidCredentials))
        else if !u.isActive then (users, Failed(AccountDisabled))
        else (users[userId := AfterClear(u)], if mfaEnabled then MfaRequired else Tokens(u.tokenVersion))
    case OtpLogin(userId, verified, mfaEnabled) =>
      if !verified || userId !in users then (users, Failed(InvalidProof))
      else if !users[userId].isActive then (users, Failed(AccountDisabled))
      else (users, if mfaEnabled then MfaRequired else Tokens(users[userId].tokenVersion))
    case Refresh(userId) =>
      (users, Tokens(if userId in users then users[userId].tokenVersion else 0))
    case ChangePassword(userId, current, next, nextHash) =>
      if !p.policyOk(next) then (users, Failed(PolicyViolation))
      else if userId !in users then (users, Failed(UserNotFound))
      else
        var u := users[userId];
        if u.passwordHash.None? || !p.verify(current, u.passwordHash.value) then (users, Failed(WrongCurrentPassword))
        else (users[userId := u.(passwordHash := Some(nextHash), tokenVersion := u.tokenVersion + 1)], Done)
    case ResetPassword(userId, byCode, proofOk, next, nextHash) =>
      if !p.policyOk(next) then (users, Failed(PolicyViolation))
      else if !proofOk then (users, Failed(InvalidProof))
      else if userId !in users then (users, Failed(if byCode then InvalidProof else UserNotFound))
      else (users[userId := AfterReset(users[userId], nextHash)], Tokens(users[userId].tokenVersion))
  }

  /** The engine over its account store. Each call reads the account, then updates it through the store. */
  class Engine {
    const p: Passwords
    var users: Users

    constructor (p: Passwords)
      ensures this.p == p && users == map[]
    {
      this.p := p;
      users := map[];
    }

    method RecordFailedLogin(userId: string, user: User, now: int)
      modifies this
      ensures users == if userId in old(users)
                       then old(users)[userId := old(users)[userId].(
                         failedLoginAttempts := AfterFailedLogin(user, now).failedLoginAttempts,
                         loginLockUntil := AfterFailedLogin(user, now).loginLockUntil)]
                       else old(users)
    {
      var next := user.failedLoginAttempts + 1;
      var lockAt := if next >= 5 then Some(now + 15 * 60000) else None;
      if userId in users {
        users := users[userId := users[userId].(failedLoginAttempts := next, loginLockUntil := lockAt)];
      }
    }

    method ClearFailedLogin(userId: string)
      modifies this
      ensures users == if userId in old(users) then old(users)[userId := AfterClear(old(users)[userId])] else old(users)
    {
      if userId in users {
        users := users[userId := users[userId].(failedLoginAttempts := 0, loginLockUntil := None)];
      }
    }

    method LoginPassword(userId: string, password: string, mfaEnabled: bool, check: int, record: int)
      returns (a: Answer)
      modifies this
      ensures (users, a) == Call(p, old(users), Login(userId, password, mfaEnabled), check, record)
    {
      if userId !in users { return Failed(InvalidCredentials); }
      var user := users[userId];
      if user.loginLockUntil.Some? && user.loginLockUntil.value > check { return Failed(AccountLocked); }
      if user.passwordHash.None? || !p.isArgon2(user.passwordHash.value) { return Failed(InvalidCredentials); }
      var ok := p.verify(password, user.passwordHash.value);
      if !ok {
        RecordFailedLogin(userId, user, record);
        return Failed(InvalidCredentials);
      }
      if !user.isActive { return Failed(AccountDisabled); }
      ClearFailedLogin(userId);
      a := if mfaEnabled then MfaRequired else Tokens(user.tokenVersion);
    }

    method RefreshSession(userId: string) returns (a: Answer)
      ensures (users, a) == Call(p, users, Refresh(userId), 0, 0)
    {
      a := Tokens(if userId in users then users[userId].tokenVersion else 0);
    }

    method ChangePass(userId: string, current: string, next: string, nextHash: string) returns (a: Answer)
      modifies this
      ensures (users, a) == Call(p, old(users), ChangePassword(userId, current, next, nextHash), 0, 0)
    {
      if !p.policyOk(next) { return Failed(PolicyViolation); }
      if userId !in users { return Failed(UserNotFound); }
      var user := users[userId];
      var ok := user.passwordHash.Some? && p.verify(current, user.passwordHash.value);
      if !ok { return Failed(WrongCurrentPassword); }
      var nextVersion := user.tokenVersion + 1;
      users := users[userId := users[userId].(passwordHash := Some(nextHash), tokenVersion := nextVersion)];
      a := Done;
    }

    /** By one-time code or by verification token. The returned tokens carry the version read before the update. */
    method ResetPass(userId: string, byCode: bool, proofOk: bool, next: string, nextHash: string) returns (a: Answer)
      modifies this
      ensures (users, a) == Call(p, old(users), ResetPassword(userId, byCode, proofOk, next, nextHash), 0, 0)
    {
      if !p.policyOk(next) { return Failed(PolicyViolation); }
      if !proofOk { return Failed(InvalidProof); }
      if userId !in users { return Failed(if byCode then InvalidProof else UserNotFound); }
      var user := users[userId];
      var nextVersion := user.tokenVersion + 1;
      users := users[userId := users[userId].(passwordHash := Some(nextHash), tokenVersion := nextVersion,
                                              failedLoginAttempts := 0, loginLockUntil := None)];
      a := Tokens(user.tokenVersion);
    }
  }

  // ---------------------------------------------------------------------------
  // Runs
  // ---------------------------------------------------------------------------

  datatype Timed = Timed(op: Op, check: int, record: int)

  function After(p: Passwords, start: Users, run: seq<Timed>): Users {
    if run == [] then start
    else
      var c := run[|run| - 1];
      Call(p, After(p, start, run[..|run| - 1]), c.op, c.check, c.record).0
  }

  /** The store just before call i of a run, and that call's answer. */
  function Before(p: Passwords, start: Users, run: seq<Timed>, i: nat): Users
    requires i <= |run|
  {
    After(p, start, run[..i])
  }

  function AnswerOf(p: Passwords, start: Users, run: seq<Timed>, i: nat): Answer
    requires i < |run|
  {
    Call(p, Before(p, start, run, i), run[i].op, run[i].check, run[i].record).1
  }

  // ---------------------------------------------------------------------------
  // Lockout
  // ---------------------------------------------------------------------------

  /** A login of this account whose password is compared and found wrong. */
  predicate WrongCheck(p: Passwords, users: Users, c: Timed, userId: string) {
    && c.op.Login? && c.op.userId == userId
    && LoginChecksPassword(p, users, userId, c.check)
    && !p.verify(c.op.password, users[userId].passwordHash.value)
  }

  /** The call clears the account's failure count: a correct password on an active account, or a reset. */
  predicate Clears(p: Passwords, users: Users, c: Timed, userId: string) {
    && userId in users
    && (|| (c.op.Login? && c.op.userId == userId && LoginChecksPassword(p, users, userId, c.check)
            && p.verify(c.op.password, users[userId].passwordHash.value) && users[userId].isActive)
        || (c.op.ResetPassword? && c.op.userId == userId && p.policyOk(c.op.next) && c.op.proofOk))
  }

  function WrongChecks(p: Passwords, start: Users, run: seq<Timed>, userId: string): nat {
    if run == [] then 0
    else
      var init, c := run[..|run| - 1], run[|run| - 1];
      WrongChecks(p, start, init, userId) + if WrongCheck(p, After(p, start, init), c, userId) then 1 else 0
  }

  ghost predicate NeverCleared(p: Passwords, start: Users, run: seq<Timed>, userId: string) {
    forall i :: 0 <= i < |run| ==> !Clears(p, Before(p, start, run, i), run[i], userId)
  }

  /** Calls one after another on a clock that does not run backwards. */
  ghost predicate Ordered(from: int, run: seq<Timed>) {
    && (forall i :: 0 <= i < |run| ==> from <= run[i].check <= run[i].record)
    && (forall i, j :: 0 <= i < j < |run| ==> run[i].record <= run[j].check)
  }

  /** The earliest end of the lock that is set by the n-th wrong check. */
  function LockEnd(from: int, n: int): int {
    from + (if n <= MAX_FAILURES then 1 else n - MAX_FAILURES + 1) * LOCK_MS
  }

  /**
   * After n wrong checks and no clearing: n failures at least, and from five on a lock that n checks have pushed
   * out.
   */
  ghost predicate Guarded(users: Users, userId: string, from: int, n: nat) {
    n > 0 ==>
      && userId in users
      && users[userId].failedLoginAttempts >= n
      && (users[userId].failedLoginAttempts >= MAX_FAILURES ==>
            users[userId].loginLockUntil.Some? && users[userId].loginLockUntil.value >= LockEnd(from, n))
  }

  /** What a call that neither checks a wrong password of the account nor clears it leaves alone. */
  lemma {:induction false} OthersKeepLock(p: Passwords, users: Users, c: Timed, userId: string)
    requires !WrongCheck(p, users, c, userId) && !Clears(p, users, c, userId) && userId in users
    ensures
      var after := Call(p, users, c.op, c.check, c.record).0;
      && userId in after
      && after[userId].failedLoginAttempts == users[userId].failedLoginAttempts
      && after[userId].loginLockUntil == users[userId].loginLockUntil
  {
  }

  lemma {:induction false} WrongCheckLocks(p: Passwords, users: Users, c: Timed, userId: string, from: int, n: nat)
    requires WrongCheck(p, users, c, userId) && Guarded(users, userId, from, n) && from <= c.check <= c.record
    ensures Guarded(Call(p, users, c.op, c.check, c.record).0, userId, from, n + 1)
    ensures n >= MAX_FAILURES ==> c.check >= LockEnd(from, n)
  {
    if n > MAX_FAILURES { LockEndNext(from, n); }
  }

  lemma {:induction false} LockEndNext(from: int, n: nat)
    requires n >= MAX_FAILURES
    ensures LockEnd(from, n + 1) == LockEnd(from, n) + LOCK_MS
  {
  }

  lemma {:induction false} LockoutInvariant(p: Passwords, start: Users, run: seq<Timed>, userId: string, from: int)
    requires Ordered(from, run) && NeverCleared(p, start, run, userId)
    ensures
      var n := WrongChecks(p, start, run, userId);
      && Guarded(After(p, start, run), userId, from, n)
      && (n > MAX_FAILURES ==> run != [] && run[|run| - 1].check >= LockEnd(from, n - 1))
  {
    hide Call, WrongCheck, Guarded, Clears, LockEnd;
    if run == [] {
      NothingYet(start, userId, from);
    } else {
      var init, c := run[..|run| - 1], run[|run| - 1];
      forall i | 0 <= i < |init|
        ensures !Clears(p, Before(p, start, init, i), init[i], userId)
      {
        assert init[..i] == run[..i];
        assert !Clears(p, Before(p, start, run, i), run[i], userId);
      }
      assert run[..|run| - 1] == init;
      assert !Clears(p, Before(p, start, run, |run| - 1), c, userId);
      LockoutInvariant(p, start, init, userId, from);
      var users, n := After(p, start, init), WrongChecks(p, start, init, userId);
      if WrongCheck(p, users, c, userId) {
        WrongCheckLocks(p, users, c, userId, from, n);
      } else {
        UncheckedKeeps(p, users, c, userId, from, n);
        assert init != [] ==> init[|init| - 1].check <= c.check;
      }
    }
  }

  lemma {:induction false} NothingYet(users: Users, userId: string, from: int)
    ensures Guarded(users, userId, from, 0)
  {
  }

  lemma {:induction false} UncheckedKeeps(p: Passwords, users: Users, c: Timed, userId: string, from: int, n: nat)
    requires !WrongCheck(p, users, c, userId) && !Clears(p, users, c, userId) && Guarded(users, userId, from, n)
    ensures Guarded(Call(p, users, c.op, c.check, c.record).0, userId, from, n)
  {
    hide Call, WrongCheck, Clears, LockEnd;
    if n > 0 { OthersKeepLock(p, users, c, userId); }
  }

  /**
   * Lockout over every run: from any state, while nothing clears the account, at most 5 + T / 15 min wrong passwords
   * are compared by logins, T being the time from the first call to the last. In particular at most 5 in any window
   * shorter than 15 minutes.
   */
  lemma {:induction false} LockoutBound(p: Passwords, start: Users, run: seq<Timed>, userId: string)
    requires run != [] && Ordered(run[0].check, run) && NeverCleared(p, start, run, userId)
    ensures
      var T := run[|run| - 1].check - run[0].check;
      && T >= 0
      && WrongChecks(p, start, run, userId) <= MAX_FAILURES + T / LOCK_MS
      && (T < LOCK_MS ==> WrongChecks(p, start, run, userId) <= MAX_FAILURES)
  {
    hide WrongChecks, NeverCleared, Guarded, After;
    assert run[0].check <= run[|run| - 1].check;
    LockoutInvariant(p, start, run, userId, run[0].check);
  }

  /** The call starts the account's failure count anew. */
  predicate StartsAnew(p: Passwords, users: Users, c: Timed, userId: string) {
    Clears(p, users, c, userId) || (c.op.Register? && c.op.userId == userId && userId !in users)
  }

  /** How many wrong passwords logins have compared since the count was started anew; before that, the count found. */
  function Streak(p: Passwords, start: Users, run: seq<Timed>, userId: string): nat {
    if run == [] then (if userId in start then start[userId].failedLoginAttempts else 0)
    else
      var init, c := run[..|run| - 1], run[|run| - 1];
      var users := After(p, start, init);
      if StartsAnew(p, users, c, userId) then 0
      else Streak(p, start, init, userId) + if WrongCheck(p, users, c, userId) then 1 else 0
  }

  /** The lock the last call that counted or started anew has set: 15 minutes from the fifth wrong password on. */
  function LastLock(p: Passwords, start: Users, run: seq<Timed>, userId: string): Option<int> {
    if run == [] then (if userId in start then start[userId].loginLockUntil else None)
    else
      var init, c := run[..|run| - 1], run[|run| - 1];
      var users := After(p, start, init);
      if StartsAnew(p, users, c, userId) then None
      else if !WrongCheck(p, users, c, userId) then LastLock(p, start, init, userId)
      else if Streak(p, start, init, userId) >= 4 then Some(c.record + 900_000)
      else None
  }

  /** Over every run the stored count and lock are exactly these. */
  lemma {:induction false} CountAndLockAreExact(p: Passwords, start: Users, run: seq<Timed>, userId: string)
    requires userId in After(p, start, run)
    ensures
      var u := After(p, start, run)[userId];
      u.failedLoginAttempts == Streak(p, start, run, userId) && u.loginLockUntil == LastLock(p, start, run, userId)
  {
    hide Call, WrongCheck, StartsAnew;
    if run == [] {
    } else {
      var init, c := run[..|run| - 1], run[|run| - 1];
      CountAndLockAfterCall(p, After(p, start, init), c, userId);
      if userId in After(p, start, init) { CountAndLockAreExact(p, start, init, userId); }
    }
  }

  lemma {:induction false} CountAndLockAfterCall(p: Passwords, users: Users, c: Timed, userId: string)
    ensures
      var after := Call(p, users, c.op, c.check, c.record).0;
      userId in after ==>
        && (userId !in users ==> StartsAnew(p, users, c, userId))
        && var u := after[userId];
           if StartsAnew(p, users, c, userId) then u.failedLoginAttempts == 0 && u.loginLockUntil == None
           else if WrongCheck(p, users, c, userId) then
             var n := users[userId].failedLoginAttempts;
             && u.failedLoginAttempts == n + 1
             && u.loginLockUntil == if n >= 4 then Some(c.record + 900_000) else None
           else
             && u.failedLoginAttempts == users[userId].failedLoginAttempts
             && u.loginLockUntil == users[userId].loginLockUntil
  {
  }

  /** A change of password that is answered with an error. */
  predicate RefusedChange(op: Op, a: Answer) {
    op.ChangePassword? && a.Failed?
  }

  /** Every call of a run with its answer. */
  function Trace(p: Passwords, start: Users, run: seq<Timed>): (t: seq<(Timed, Answer)>)
    ensures |t| == |run|
  {
    if run == [] then []
    else
      var c := run[|run| - 1];
      Trace(p, start, run[..|run| - 1]) + [(c, Call(p, After(p, start, run[..|run| - 1]), c.op, c.check, c.record).1)]
  }

  function WithoutRefusedChanges(trace: seq<(Timed, Answer)>): seq<(Timed, Answer)> {
    if trace == [] then []
    else
      var init, (c, a) := trace[..|trace| - 1], trace[|trace| - 1];
      WithoutRefusedChanges(init) + if RefusedChange(c.op, a) then [] else [(c, a)]
  }

  function Calls(trace: seq<(Timed, Answer)>): seq<Timed> {
    seq(|trace|, i requires 0 <= i < |trace| => trace[i].0)
  }

  /**
   * Refused changes of password leave no trace: deleting all of them from any run changes neither the final store, so
   * no failure count and no lock, nor any other answer.
   */
  lemma {:induction false} RefusedChangesLeaveNoTrace(p: Passwords, start: Users, run: seq<Timed>)
    ensures
      var kept := WithoutRefusedChanges(Trace(p, start, run));
      After(p, start, Calls(kept)) == After(p, start, run) && Trace(p, start, Calls(kept)) == kept
  {
    if run == [] {
    } else {
      hide Call, After, Trace, WithoutRefusedChanges, Calls, RefusedChange;
      var init, c := run[..|run| - 1], run[|run| - 1];
      RefusedChangesLeaveNoTrace(p, start, init);
      var before := WithoutRefusedChanges(Trace(p, start, init));
      var (users, a) := Call(p, After(p, start, init), c.op, c.check, c.record);
      assert run == init + [c];
      OneMoreCall(p, start, init, c);
      OneMoreKept(Trace(p, start, init), c, a);
      if RefusedChange(c.op, a) {
        RefusedChangeKeepsStore(p, After(p, start, init), c);
      } else {
        OneMoreCall(p, start, Calls(before), c);
        CallsOfMore(before, c, a);
      }
    }
  }

  lemma {:induction false} OneMoreCall(p: Passwords, start: Users, init: seq<Timed>, c: Timed)
    ensures
      var (users, a) := Call(p, After(p, start, init), c.op, c.check, c.record);
      After(p, start, init + [c]) == users && Trace(p, start, init + [c]) == Trace(p, start, init) + [(c, a)]
  {
    hide Call;
    assert (init + [c])[..|init|] == init;
  }

  lemma {:induction false} OneMoreKept(trace: seq<(Timed, Answer)>, c: Timed, a: Answer)
    ensures WithoutRefusedChanges(trace + [(c, a)])
         == if RefusedChange(c.op, a) then WithoutRefusedChanges(trace) else WithoutRefusedChanges(trace) + [(c, a)]
  {
    assert (trace + [(c, a)])[..|trace|] == trace;
    assert WithoutRefusedChanges(trace) + [] == WithoutRefusedChanges(trace);
  }

  lemma {:induction false} CallsOfMore(trace: seq<(Timed, Answer)>, c: Timed, a: Answer)
    ensures Calls(trace + [(c, a)]) == Calls(trace) + [c]
  {
  }

  lemma {:induction false} RefusedChangeKeepsStore(p: Passwords, users: Users, c: Timed)
    requires RefusedChange(c.op, Call(p, users, c.op, c.check, c.record).1)
    ensures Call(p, users, c.op, c.check, c.record).0 == users
  {
  }

  /** The call is a change of password with an acceptable new and a wrong current password. */
  predicate WrongChange(p: Passwords, users: Users, op: Op) {
    && op.ChangePassword? && op.userId in users && users[op.userId].passwordHash.Some?
    && p.policyOk(op.next) && !p.verify(op.current, users[op.userId].passwordHash.value)
  }

  /**
   * Wrong current passwords in changePassword are outside the lockout: in any run of such calls, for whatever accounts,
   * with whatever passwords and at whatever times, every one is compared and refused, and nothing is counted.
   */
  lemma {:induction false} ChangePasswordIsNotCounted(p: Passwords, start: Users, run: seq<Timed>)
    requires forall i :: 0 <= i < |run| ==> WrongChange(p, start, run[i].op)
    ensures After(p, start, run) == start
    ensures forall i :: 0 <= i < |run| ==> Trace(p, start, run)[i] == (run[i], Failed(WrongCurrentPassword))
  {
    hide Call, WrongChange;
    if run == [] {
    } else {
      var init, c := run[..|run| - 1], run[|run| - 1];
      ChangePasswordIsNotCounted(p, start, init);
      WrongChangeRefused(p, start, c);
    }
  }

  lemma {:induction false} WrongChangeRefused(p: Passwords, users: Users, c: Timed)
    requires WrongChange(p, users, c.op)
    ensures Call(p, users, c.op, c.check, c.record) == (users, Failed(WrongCurrentPassword))
  {
  }

  // ---------------------------------------------------------------------------
  // Who gets in
  // ---------------------------------------------------------------------------

  /** The password hash a call has stored, by its answer. */
  function StoredHash(op: Op, a: Answer): Option<Option<string>> {
    match op
    case Register(_, hash) => if a.Tokens? then Some(hash) else None
    case ChangePassword(_, _, _, nextHash) => if a == Done then Some(Some(nextHash)) else None
    case ResetPassword(_, _, _, _, nextHash) => if a.Tokens? then Some(Some(nextHash)) else None
    case _ => None
  }

  /** The hash stored for the account last, or else the one at the start. */
  function LastHash(start: Users, trace: seq<(Timed, Answer)>, userId: string): Option<string> {
    if trace == [] then (if userId in start then start[userId].passwordHash else None)
    else
      var (c, a) := trace[|trace| - 1];
      var stored := StoredHash(c.op, a);
      if c.op.userId == userId && stored.Some? then stored.value else LastHash(start, trace[..|trace| - 1], userId)
  }

  /** Over every run an account has the hash stored last: by its registration, a change or a reset that went through. */
  lemma {:induction false} HashIsLastStored(p: Passwords, start: Users, run: seq<Timed>, userId: string)
    ensures
      var users := After(p, start, run);
      LastHash(start, Trace(p, start, run), userId) == if userId in users then users[userId].passwordHash else None
  {
    if run == [] {
    } else {
      var init, c := run[..|run| - 1], run[|run| - 1];
      var before, trace := After(p, start, init), Trace(p, start, init);
      HashIsLastStored(p, start, init, userId);
      var entry := (c, Call(p, before, c.op, c.check, c.record).1);
      assert Trace(p, start, run) == trace + [entry] && (trace + [entry])[..|trace|] == trace;
      hide After, Trace;
      HashAfterCall(p, before, c, userId);
    }
  }

  lemma {:induction false} HashAfterCall(p: Passwords, users: Users, c: Timed, userId: string)
    ensures
      var (after, a) := Call(p, users, c.op, c.check, c.record);
      var stored := StoredHash(c.op, a);
      && (userId in users ==> userId in after)
      && (if c.op.userId == userId && stored.Some? then userId in after && after[userId].passwordHash == stored.value
          else if userId in users then after[userId].passwordHash == users[userId].passwordHash
          else userId !in after)
  {
  }

  predicate Locked(users: Users, userId: string, now: int) {
    userId in users && users[userId].loginLockUntil.Some? && now < users[userId].loginLockUntil.value
  }

  /** The right password of an account that is not locked; `hash` is the one stored last. */
  predicate RightPassword(p: Passwords, users: Users, hash: Option<string>, c: Timed)
    requires c.op.Login?
  {
    && c.op.userId in users && !Locked(users, c.op.userId, c.check)
    && hash.Some? && p.isArgon2(hash.value) && p.verify(c.op.password, hash.value)
  }

  /** What the caller proves who is let in by a call, second factor apart. */
  predicate Proven(p: Passwords, users: Users, hash: Option<string>, c: Timed) {
    match c.op
    case Register(userId, _) => userId !in users
    case Login(userId, _, _) => RightPassword(p, users, hash, c) && users[userId].isActive
    case OtpLogin(userId, verified, _) => verified && userId in users && users[userId].isActive
    case Refresh(_) => true
    case ChangePassword(userId, current, next, _) =>
      p.policyOk(next) && userId in users && hash.Some? && p.verify(current, hash.value)
    case ResetPassword(userId, _, proofOk, next, _) => p.policyOk(next) && proofOk && userId in users
  }

  predicate NeedsSecondFactor(op: Op) {
    (op.Login? || op.OtpLogin?) && op.mfaEnabled
  }

  /** The hash stored last before call i of a run. */
  function HashBefore(p: Passwords, start: Users, run: seq<Timed>, i: nat): Option<string>
    requires i < |run|
  {
    LastHash(start, Trace(p, start, run[..i]), run[i].op.userId)
  }

  /**
   * Over every run: call i hands out tokens if and only if its proof holds, no second factor is needed, and it is no
   * change of password; a second factor is demanded, and a change confirmed, likewise. Nobody else gets in.
   */
  lemma {:induction false} LetInIff(p: Passwords, start: Users, run: seq<Timed>, i: nat)
    requires i < |run|
    ensures
      var c, users, a := run[i], Before(p, start, run, i), AnswerOf(p, start, run, i);
      var proven := Proven(p, users, HashBefore(p, start, run, i), c);
      && (a.Tokens? <==> proven && !NeedsSecondFactor(c.op) && !c.op.ChangePassword?)
      && (a == MfaRequired <==> proven && NeedsSecondFactor(c.op))
      && (a == Done <==> proven && c.op.ChangePassword?)
      && (a.Failed? <==> !proven)
  {
    hide After, Trace, LastHash;
    HashIsLastStored(p, start, run[..i], run[i].op.userId);
  }

  /** What a refused call is told. */
  lemma {:induction false} RefusedWith(p: Passwords, start: Users, run: seq<Timed>, i: nat)
    requires i < |run| && AnswerOf(p, start, run, i).Failed?
    ensures
      var c, users, hash := run[i], Before(p, start, run, i), HashBefore(p, start, run, i);
      var known, error := c.op.userId in users, AnswerOf(p, start, run, i).error;
      match c.op
      case Register(_, _) => known && error == InvalidCredentials
      case Login(userId, _, _) =>
        && (error == AccountLocked <==> Locked(users, userId, c.check))
        && (error == AccountDisabled <==> RightPassword(p, users, hash, c) && !users[userId].isActive)
        && (error == InvalidCredentials <==>
              !Locked(users, userId, c.check) && !RightPassword(p, users, hash, c))
      case OtpLogin(userId, verified, _) =>
        && (error == AccountDisabled <==> verified && known && !users[userId].isActive)
        && (error == InvalidProof <==> !(verified && known))
      case Refresh(_) => false
      case ChangePassword(_, current, next, _) =>
        && (error == PolicyViolation <==> !p.policyOk(next))
        && (error == UserNotFound <==> p.policyOk(next) && !known)
        && (error == WrongCurrentPassword <==>
              p.policyOk(next) && known && !(hash.Some? && p.verify(current, hash.value)))
      case ResetPassword(_, byCode, proofOk, next, _) =>
        && (error == PolicyViolation <==> !p.policyOk(next))
        && (error == InvalidProof <==> p.policyOk(next) && (!proofOk || (byCode && !known)))
        && (error == UserNotFound <==> p.policyOk(next) && proofOk && !byCode && !known)
  {
    hide After, Trace, LastHash;
    HashIsLastStored(p, start, run[..i], run[i].op.userId);
  }

  predicate Registers(op: Op, userId: string) {
    op.Register? && op.userId == userId
  }

  /** The accounts are those of the start and the registered ones; none is ever disabled or enabled. */
  lemma {:induction false} AccountsStay(p: Passwords, start: Users, run: seq<Timed>, userId: string)
    ensures
      var users := After(p, start, run);
      && (userId in users <==> userId in start || exists i :: 0 <= i < |run| && Registers(run[i].op, userId))
      && (userId in users ==> users[userId].isActive == (userId in start ==> start[userId].isActive))
  {
    if run == [] {
    } else {
      var init, c := run[..|run| - 1], run[|run| - 1];
      AccountsStay(p, start, init, userId);
      AccountAfterCall(p, After(p, start, init), c, userId);
      assert forall i :: 0 <= i < |init| ==> init[i] == run[i];
      assert run[|init|] == c;
      if i :| 0 <= i < |init| && Registers(init[i].op, userId) { assert Registers(run[i].op, userId); }
      hide Call;
      if i :| 0 <= i < |run| && Registers(run[i].op, userId) { assert i < |init| ==> Registers(init[i].op, userId); }
    }
  }

  lemma {:induction false} AccountAfterCall(p: Passwords, users: Users, c: Timed, userId: string)
    ensures
      var after := Call(p, users, c.op, c.check, c.record).0;
      && (userId in after <==> userId in users || Registers(c.op, userId))
      && (userId in after ==> after[userId].isActive == (userId in users ==> users[userId].isActive))
  {
  }

  /** Without a call of its own that stores a hash, an account keeps its hash. */
  lemma {:induction false} HashStays(p: Passwords, start: Users, run: seq<Timed>, userId: string, k: nat, i: nat)
    requires k <= i <= |run|
    requires forall j :: k <= j < i && run[j].op.userId == userId ==>
      StoredHash(run[j].op, AnswerOf(p, start, run, j)).None?
    ensures LastHash(start, Trace(p, start, run[..i]), userId) == LastHash(start, Trace(p, start, run[..k]), userId)
    decreases i
  {
    if k < i {
      hide Call, LastHash;
      HashStays(p, start, run, userId, k, i - 1);
      LastHashNext(p, start, run, userId, i - 1);
    }
  }

  lemma {:induction false} LastHashNext(p: Passwords, start: Users, run: seq<Timed>, userId: string, i: nat)
    requires i < |run|
    ensures
      var before := LastHash(start, Trace(p, start, run[..i]), userId);
      var stored := StoredHash(run[i].op, AnswerOf(p, start, run, i));
      LastHash(start, Trace(p, start, run[..i + 1]), userId)
      == if run[i].op.userId == userId && stored.Some? then stored.value else before
  {
    hide Call, StoredHash;
    var trace, entry := Trace(p, start, run[..i]), (run[i], AnswerOf(p, start, run, i));
    assert run[..i + 1][..i] == run[..i] && run[..i + 1][i] == run[i];
    assert Trace(p, start, run[..i + 1]) == trace + [entry] && (trace + [entry])[..|trace|] == trace;
  }

  /**
   * The new password counts: after a registration, change or reset that went through, and until the next, a login of
   * the account passes the password check exactly with a password of the new hash, unless the account is locked.
   */
  lemma {:induction false} NewPasswordCounts(p: Passwords, start: Users, run: seq<Timed>, k: nat, i: nat, hash: string)
    requires k < i < |run| && run[i].op.Login? && run[k].op.userId == run[i].op.userId
    requires StoredHash(run[k].op, AnswerOf(p, start, run, k)) == Some(Some(hash))
    requires forall j :: k < j < i && run[j].op.userId == run[i].op.userId ==>
      StoredHash(run[j].op, AnswerOf(p, start, run, j)).None?
    ensures
      var c, a := run[i], AnswerOf(p, start, run, i);
      a !in {Failed(InvalidCredentials), Failed(AccountLocked)} <==>
        && !Locked(Before(p, start, run, i), c.op.userId, c.check)
        && p.isArgon2(hash) && p.verify(c.op.password, hash)
  {
    hide After, Trace, LastHash, Call, StoredHash, Locked;
    var userId := run[i].op.userId;
    HashStays(p, start, run, userId, k + 1, i);
    LastHashNext(p, start, run, userId, k);
    HashIsLastStored(p, start, run[..i], userId);
    LetInIff(p, start, run, i);
    if AnswerOf(p, start, run, i).Failed? { RefusedWith(p, start, run, i); }
  }

  // ---------------------------------------------------------------------------
  // Token versions
  // ---------------------------------------------------------------------------

  function StoredVersion(users: Users, userId: string): nat {
    if userId in users then users[userId].tokenVersion else 0
  }

  /** The call changes the account's password. */
  predicate ChangesPassword(p: Passwords, users: Users, op: Op, userId: string) {
    && userId in users
    && (|| (op.ChangePassword? && op.userId == userId && p.policyOk(op.next) && users[userId].passwordHash.Some?
            && p.verify(op.current, users[userId].passwordHash.value))
        || (op.ResetPassword? && op.userId == userId && p.policyOk(op.next) && op.proofOk))
  }

  lemma {:induction false} CallVersion(p: Passwords, users: Users, c: Timed, userId: string)
    ensures
      var (after, answer) := Call(p, users, c.op, c.check, c.record);
      && StoredVersion(after, userId)
         == StoredVersion(users, userId) + (if ChangesPassword(p, users, c.op, userId) then 1 else 0)
      && (c.op.userId == userId && answer.Tokens? ==> answer.version == StoredVersion(users, userId))
  {
  }

  lemma {:induction false} VersionsOnlyGrow(p: Passwords, start: Users, run: seq<Timed>, userId: string, i: nat)
    requires i <= |run|
    ensures StoredVersion(Before(p, start, run, i), userId) <= StoredVersion(After(p, start, run), userId)
    decreases |run|
  {
    hide Call, StoredVersion;
    if i == |run| {
      assert run[..i] == run;
    } else {
      var init, c := run[..|run| - 1], run[|run| - 1];
      VersionsOnlyGrow(p, start, init, userId, i);
      assert init[..i] == run[..i];
      CallVersion(p, After(p, start, init), c, userId);
    }
  }

  /** Over every run: a token minted by call i for an account carries at most the version stored at the end. */
  lemma {:induction false} MintedAtMostStored(p: Passwords, start: Users, run: seq<Timed>, i: nat)
    requires i < |run| && AnswerOf(p, start, run, i).Tokens?
    ensures AnswerOf(p, start, run, i).version <= StoredVersion(After(p, start, run), run[i].op.userId)
  {
    hide Call, StoredVersion;
    CallVersion(p, Before(p, start, run, i), run[i], run[i].op.userId);
    VersionsOnlyGrow(p, start, run, run[i].op.userId, i);
  }

  /**
   * Every password change or reset by call k leaves all tokens minted for the account up to then strictly below the
   * stored version, for good. Call k itself is included: a reset hands out tokens that are already outdated.
   */
  lemma {:induction false} ChangeOutdatesTokens(p: Passwords, start: Users, run: seq<Timed>, i: nat, k: nat)
    requires i <= k < |run| && run[i].op.userId == run[k].op.userId
    requires AnswerOf(p, start, run, i).Tokens?
    requires ChangesPassword(p, Before(p, start, run, k), run[k].op, run[k].op.userId)
    ensures AnswerOf(p, start, run, i).version < StoredVersion(After(p, start, run), run[k].op.userId)
  {
    hide Call, StoredVersion, ChangesPassword;
    var userId := run[k].op.userId;
    CallVersion(p, Before(p, start, run, i), run[i], userId);
    assert run[..k][..i] == run[..i];
    VersionsOnlyGrow(p, start, run[..k], userId, i);
    CallVersion(p, Before(p, start, run, k), run[k], userId);
    assert run[..k + 1][..k] == run[..k] && run[..k + 1][k] == run[k];
    VersionsOnlyGrow(p, start, run, userId, k + 1);
  }

  /** Tokens of a login or refresh that no later call outdates are current: they carry exactly the stored version. */
  lemma {:induction false} UndisturbedTokensStayCurrent(p: Passwords, start: Users, run: seq<Timed>, i: nat)
    requires i < |run| && AnswerOf(p, start, run, i).Tokens?
    requires forall k :: i <= k < |run| ==> !ChangesPassword(p, Before(p, start, run, k), run[k].op, run[i].op.userId)
    ensures AnswerOf(p, start, run, i).version == StoredVersion(After(p, start, run), run[i].op.userId)
    decreases |run|
  {
    hide Call, StoredVersion, ChangesPassword;
    var m := |run| - 1;
    var init, userId := run[..m], run[i].op.userId;
    assert Before(p, start, run, m) == After(p, start, init);
    CallVersion(p, After(p, start, init), run[m], userId);
    assert !ChangesPassword(p, Before(p, start, run, m), run[m].op, userId);
    if i < m {
      forall k | i <= k < m
        ensures !ChangesPassword(p, Before(p, start, init, k), init[k].op, userId)
      {
        assert init[..k] == run[..k];
        assert !ChangesPassword(p, Before(p, start, run, k), run[k].op, userId);
      }
      assert init[..i] == run[..i];
      UndisturbedTokensStayCurrent(p, start, init, i);
    }
  }
}

/**
 * Migration 004 of stored MFA secrets and its two rollbacks (migrations/004-mfa-secrets-encryption.ts,
 * migrations/rollback/004-mfa-secrets-rollback.ts).
 *
 * Collections are maps from user id; AES-GCM and base64 are an Envelopes value, and random IVs an argument.
 */
module MfaMigration {
  import opened Wrappers
  import opened Bytes

  /** A stored secret that is not null: a string, or something else. */
  datatype Stored = Text(s: string) | NonText

  type Users = map<string, Option<Stored>>

  /**
   * `open` decrypts a payload of IV, tag and ciphertext, or fails; `seal` produces one. `openV3` and `sealV3` are the
   * application's own envelope, whose payload also holds the wrapped data key.
   */
  datatype Envelopes = Envelopes(
    toBase64: seq<Byte> -> string,
    fromBase64: string -> seq<Byte>,
    seal: (seq<Byte>, seq<Byte>) -> seq<Byte>,
    open: seq<Byte> -> Option<seq<Byte>>,
    sealV3: seq<Byte> -> seq<Byte>,
    openV3: seq<Byte> -> Option<seq<Byte>>)

  /**
   * Base64 decodes what it encoded; a payload opens to what was sealed. AES-GCM keeps lengths: an IV of 12 and a tag
   * of 16 bytes come on top, in the application's envelope also 60 bytes of wrapped data key.
   */
  ghost predicate Lawful(e: Envelopes) {
    && (forall b :: e.fromBase64(e.toBase64(b)) == b)
    && (forall iv, secret :: |e.seal(iv, secret)| >= 28 && e.open(e.seal(iv, secret)) == Some(secret))
    && (forall secret :: |e.sealV3(secret)| >= 88 && e.openV3(e.sealV3(secret)) == Some(secret))
    && (forall payload :: e.open(payload).Some? ==> |e.open(payload).value| + 28 == |payload|)
    && (forall payload :: e.openV3(payload).Some? ==> |e.openV3(payload).value| + 88 == |payload|)
  }

  /** Decoding is lenient: it skips the colon and reads on, so a prefix costs no bytes. */
  ghost predicate Lenient(e: Envelopes) {
    forall t :: |e.fromBase64("v3:" + t)| >= |e.fromBase64(t)|
  }

  datatype Kind = Current | Legacy(secret: seq<Byte>) | Corrupt | Unrecognized

  datatype Counters = Counters(current: nat, upgraded: nat, corrupt: nat, unrecognized: nat, failed: nat)

  const ZERO := Counters(0, 0, 0, 0, 0)

  // ---------------------------------------------------------------------------
  // Envelopes and classification
  // ---------------------------------------------------------------------------

  predicate IsV2(s: string) {
    |s| >= 3 && s[..3] == "v2:"
  }

  function WrapV2(e: Envelopes, iv: seq<Byte>, secret: seq<Byte>): string {
    "v2:" + e.toBase64(e.seal(iv, secret))
  }

  /** Nothing where the source throws. */
  function Unwrap(e: Envelopes, s: string): Option<seq<Byte>> {
    var payload := e.fromBase64(if IsV2(s) then s[3..] else s);
    if |payload| < 28 then None else e.open(payload)
  }

  function Classify(e: Envelopes, v: Stored): Kind {
    match v
    case NonText => Unrecognized
    case Text(s) =>
      if s == "" then Unrecognized
      else if IsV2(s) then (if Unwrap(e, s).Some? then Current else Corrupt)
      else
        match Unwrap(e, s)
        case Some(secret) => Legacy(secret)
        case None => if |e.fromBase64(s)| >= 20 then Legacy(e.fromBase64(s)) else Corrupt
  }

  predicate IsV3(s: string) {
    |s| >= 3 && s[..3] == "v3:"
  }

  /** What the application writes today. */
  function WrapV3(e: Envelopes, secret: seq<Byte>): string {
    "v3:" + e.toBase64(e.sealV3(secret))
  }

  /** The secret the application reads from a stored value; nothing where it throws or there is none. */
  function Reads(e: Envelopes, v: Option<Stored>): Option<seq<Byte>> {
    if v.None? || v.value.NonText? then None
    else if IsV3(v.value.s) then
      var payload := e.fromBase64(v.value.s[3..]);
      if |payload| < 88 then None else e.openV3(payload)
    else Unwrap(e, v.value.s)
  }

  /** A value of the application's current format, which the migration does not know. */
  predicate HoldsV3(v: Option<Stored>) {
    v.Some? && v.value.Text? && IsV3(v.value.s)
  }

  lemma {:induction false} WrapUnwrap(e: Envelopes, iv: seq<Byte>, secret: seq<Byte>)
    requires Lawful(e)
    ensures IsV2(WrapV2(e, iv, secret)) && Unwrap(e, WrapV2(e, iv, secret)) == Some(secret)
    ensures Classify(e, Text(WrapV2(e, iv, secret))) == Current
    ensures Reads(e, Some(Text(WrapV2(e, iv, secret)))) == Some(secret)
  {
    var body := e.toBase64(e.seal(iv, secret));
    var s := WrapV2(e, iv, secret);
    assert s[..3] == "v2:" && s[3..] == body;
  }

  /** The payload of an envelope decrypts, with or without the prefix that is left off here. */
  ghost predicate Opens(e: Envelopes, payload: string) {
    e.open(e.fromBase64(payload)).Some?
  }

  /**
   * What counts as what: nothing but non-empty strings is recognised; of these, prefixed ones are current if they
   * decrypt, and others legacy if they decrypt or decode to 20 bytes at least; the rest is corrupt.
   */
  lemma {:induction false} KindIff(e: Envelopes, v: Stored)
    requires Lawful(e)
    ensures
      var kind := Classify(e, v);
      && (kind.Unrecognized? <==> v == NonText || v == Text(""))
      && (kind.Current? <==> exists t :: v == Text("v2:" + t) && Opens(e, t))
      && (kind.Corrupt? <==>
            v.Text? && v.s != "" && if "v2:" <= v.s then !Opens(e, v.s[3..])
                                    else !Opens(e, v.s) && |e.fromBase64(v.s)| < 20)
      && (kind.Legacy? <==>
            v.Text? && v.s != "" && !("v2:" <= v.s) && (Opens(e, v.s) || |e.fromBase64(v.s)| >= 20))
  {
    if v.Text? && "v2:" <= v.s {
      assert v.s == "v2:" + v.s[3..] && IsV2(v.s);
    }
    forall t | v == Text("v2:" + t)
      ensures "v2:" <= v.s && v.s[3..] == t
    {
    }
  }

  // ---------------------------------------------------------------------------
  // One user
  // ---------------------------------------------------------------------------

  datatype Db = Db(users: Users, backup: map<string, Stored>)

  /** The run's flags. */
  datatype Mode = Mode(apply: bool, dryRun: bool, validate: bool)

  /** What the run says of itself: `DRY-RUN (no writes)` or `APPLY`. */
  predicate ReportsDryRun(mode: Mode) {
    !mode.apply || mode.dryRun
  }

  /** `updateOne({ _id, mfaSecret: expected }, ...)` changes a document that still has the expected value. */
  predicate Matches(users: Users, id: string, expected: Stored) {
    id in users && users[id] == Some(expected)
  }

  /** The new envelope reads back as the plain secret. */
  predicate ReadsBack(e: Envelopes, envelope: string, secret: seq<Byte>) {
    Unwrap(e, envelope) == Some(secret)
  }

  /** The database and the counter after one user of the batch, whose secret was `stored` when the batch was read. */
  function Process(e: Envelopes, mode: Mode, db: Db, id: string, stored: Stored, iv: seq<Byte>, n: Counters)
    : (Db, Counters)
  {
    match Classify(e, stored)
    case Current => (db, n.(current := n.current + 1))
    case Corrupt => (db, n.(corrupt := n.corrupt + 1))
    case Unrecognized => (db, n.(unrecognized := n.unrecognized + 1))
    case Legacy(secret) =>
      if !mode.apply then (db, n.(upgraded := n.upgraded + 1))
      else
        var backup := db.backup[id := stored];
        var envelope := WrapV2(e, iv, secret);
        if !Matches(db.users, id, stored) || Text(envelope) == stored then
          (Db(db.users, backup), n.(failed := n.failed + 1))
        else if mode.validate && !ReadsBack(e, envelope, secret) then
          (Db(db.users[id := Some(stored)], backup), n.(failed := n.failed + 1))
        else
          (Db(db.users[id := Some(Text(envelope))], backup), n.(upgraded := n.upgraded + 1))
  }

  lemma {:induction false} LegacyIsNotV2(e: Envelopes, stored: Stored, iv: seq<Byte>, secret: seq<Byte>)
    requires Classify(e, stored).Legacy?
    ensures Text(WrapV2(e, iv, secret)) != stored
  {
    assert WrapV2(e, iv, secret)[..3] == "v2:";
  }

  // ---------------------------------------------------------------------------
  // The whole run
  // ---------------------------------------------------------------------------

  /** The users a run visits: those with a secret. */
  function Visited(users: Users): set<string> {
    set id | id in users && users[id].Some?
  }

  /** Each visited user once. */
  ghost predicate Covers(order: seq<string>, ids: set<string>) {
    && (forall i :: 0 <= i < |order| ==> order[i] in ids)
    && (forall id :: id in ids ==> id in order)
    && (forall i, j :: 0 <= i < j < |order| ==> order[i] != order[j])
  }

  predicate IsLegacy(e: Envelopes, v: Option<Stored>) {
    v.Some? && Classify(e, v.value).Legacy?
  }

  /** What a visited prefix of the users has become. */
  function Migrated(e: Envelopes, users: Users, done: seq<string>, iv: string -> seq<Byte>): Users {
    map id | id in users ::
      if id in done && IsLegacy(e, users[id]) then Some(Text(WrapV2(e, iv(id), Classify(e, users[id].value).secret)))
      else users[id]
  }

  function BackedUp(e: Envelopes, users: Users, backup: map<string, Stored>, done: seq<string>): map<string, Stored> {
    backup + map id | id in done && id in users && IsLegacy(e, users[id]) :: users[id].value
  }

  /** How many of the users are of each kind; nothing fails without a concurrent writer. */
  function Tally(e: Envelopes, users: Users, done: seq<string>): Counters
    requires forall i :: 0 <= i < |done| ==> done[i] in users && users[done[i]].Some?
  {
    if done == [] then ZERO
    else
      var n := Tally(e, users, done[..|done| - 1]);
      match Classify(e, users[done[|done| - 1]].value)
      case Current => n.(current := n.current + 1)
      case Corrupt => n.(corrupt := n.corrupt + 1)
      case Unrecognized => n.(unrecognized := n.unrecognized + 1)
      case Legacy(_) => n.(upgraded := n.upgraded + 1)
  }

  /** The counters add up to the users processed. */
  lemma {:induction false} CountersSum(e: Envelopes, users: Users, done: seq<string>)
    requires forall i :: 0 <= i < |done| ==> done[i] in users && users[done[i]].Some?
    ensures var n := Tally(e, users, done);
      n.current + n.upgraded + n.corrupt + n.unrecognized == |done| && n.failed == 0
  {
    if done == [] {
    } else {
      CountersSum(e, users, done[..|done| - 1]);
    }
  }

  /** The visited users of one kind. */
  ghost function OfKind(e: Envelopes, users: Users, done: seq<string>, kind: Kind -> bool): set<string> {
    set id | id in done && id in users && users[id].Some? && kind(Classify(e, users[id].value))
  }

  /** Each counter is the number of visited users of its kind. */
  lemma {:induction false} CountersCount(e: Envelopes, users: Users, done: seq<string>)
    requires forall i :: 0 <= i < |done| ==> done[i] in users && users[done[i]].Some?
    requires forall i, j :: 0 <= i < j < |done| ==> done[i] != done[j]
    ensures
      var n := Tally(e, users, done);
      && n.current == |OfKind(e, users, done, (k: Kind) => k.Current?)|
      && n.upgraded == |OfKind(e, users, done, (k: Kind) => k.Legacy?)|
      && n.corrupt == |OfKind(e, users, done, (k: Kind) => k.Corrupt?)|
      && n.unrecognized == |OfKind(e, users, done, (k: Kind) => k.Unrecognized?)|
  {
    hide Classify, OfKind;
    if done == [] {
      NoneOfKind(e, users, (k: Kind) => k.Current?);
      NoneOfKind(e, users, (k: Kind) => k.Legacy?);
      NoneOfKind(e, users, (k: Kind) => k.Corrupt?);
      NoneOfKind(e, users, (k: Kind) => k.Unrecognized?);
    } else {
      CountersCount(e, users, done[..|done| - 1]);
      OneMoreOfKind(e, users, done, (k: Kind) => k.Current?);
      OneMoreOfKind(e, users, done, (k: Kind) => k.Legacy?);
      OneMoreOfKind(e, users, done, (k: Kind) => k.Corrupt?);
      OneMoreOfKind(e, users, done, (k: Kind) => k.Unrecognized?);
    }
  }

  lemma {:induction false} NoneOfKind(e: Envelopes, users: Users, kind: Kind -> bool)
    ensures OfKind(e, users, [], kind) == {}
  {
  }

  lemma {:induction false} OneMoreOfKind(e: Envelopes, users: Users, done: seq<string>, kind: Kind -> bool)
    requires done != [] && forall i :: 0 <= i < |done| ==> done[i] in users && users[done[i]].Some?
    requires forall i, j :: 0 <= i < j < |done| ==> done[i] != done[j]
    ensures
      var id := done[|done| - 1];
      |OfKind(e, users, done, kind)|
      == |OfKind(e, users, done[..|done| - 1], kind)| + if kind(Classify(e, users[id].value)) then 1 else 0
  {
    hide Classify;
    var init, id := done[..|done| - 1], done[|done| - 1];
    assert done == init + [id];
    var before, after := OfKind(e, users, init, kind), OfKind(e, users, done, kind);
    assert id !in before;
    if kind(Classify(e, users[id].value)) {
      assert after == before + {id};
    } else {
      assert after == before;
    }
  }

  /**
   * What one user of the batch counts as, whatever others have written meanwhile: exactly one counter grows, by one. A
   * legacy secret counts as failed exactly when it was to be written and the user no longer had the value of the batch,
   * and as upgraded otherwise; upgraded with `--apply`, the user has the new envelope.
   */
  lemma {:induction false} EachCountsOnce(e: Envelopes, mode: Mode, db: Db, id: string, stored: Stored, iv: seq<Byte>,
                                          n: Counters)
    requires Lawful(e)
    ensures
      var (db', n') := Process(e, mode, db, id, stored, iv, n);
      var kind := Classify(e, stored);
      var stale := mode.apply && !(id in db.users && db.users[id] == Some(stored));
      && n'.current == n.current + (if kind.Current? then 1 else 0)
      && n'.corrupt == n.corrupt + (if kind.Corrupt? then 1 else 0)
      && n'.unrecognized == n.unrecognized + (if kind.Unrecognized? then 1 else 0)
      && n'.failed == n.failed + (if kind.Legacy? && stale then 1 else 0)
      && n'.upgraded == n.upgraded + (if kind.Legacy? && !stale then 1 else 0)
      && (kind.Legacy? && mode.apply && !stale ==>
            db'.users == db.users[id := Some(Text(WrapV2(e, iv, kind.secret)))])
      && (!(kind.Legacy? && mode.apply && !stale) ==> db'.users == db.users)
      && db'.backup == if kind.Legacy? && mode.apply then db.backup[id := stored] else db.backup
  {
    hide Classify, Unwrap, WrapV2, Lawful;
    if Classify(e, stored).Legacy? {
      LegacyIsNotV2(e, stored, iv, Classify(e, stored).secret);
      WrapUnwrap(e, iv, Classify(e, stored).secret);
    }
  }

  /** The users and backup collections, and the loops over them. */
  class Collections {
    var users: Users
    var backup: map<string, Stored>

    constructor (users: Users, backup: map<string, Stored>)
      ensures this.users == users && this.backup == backup
    {
      this.users, this.backup := users, backup;
    }

    /** Matched and modified counts of an update of one user's secret, as booleans. */
    method UpdateSecret(id: string, expected: Option<Stored>, value: Stored) returns (matched: bool, modified: bool)
      modifies this`users
      ensures matched == (id in old(users) && (expected.Some? ==> old(users)[id] == expected))
      ensures modified == (matched && old(users)[id] != Some(value))
      ensures users == if matched then old(users)[id := Some(value)] else old(users)
    {
      matched := id in users && (expected.Some? ==> users[id] == expected);
      modified := matched && users[id] != Some(value);
      if matched { users := users[id := Some(value)]; }
    }

    method ProcessUser(e: Envelopes, mode: Mode, id: string, stored: Stored, iv: seq<Byte>, n: Counters)
      returns (n': Counters)
      modifies this
      ensures (Db(users, backup), n') == Process(e, mode, old(Db(users, backup)), id, stored, iv, n)
    {
      hide Unwrap, WrapV2;
      match Classify(e, stored) {
        case Current => n' := n.(current := n.current + 1);
        case Corrupt => n' := n.(corrupt := n.corrupt + 1);
        case Unrecognized => n' := n.(unrecognized := n.unrecognized + 1);
        case Legacy(secret) =>
          if !mode.apply { return n.(upgraded := n.upgraded + 1); }
          backup := backup[id := stored];
          var envelope := WrapV2(e, iv, secret);
          var matched, modified := UpdateSecret(id, Some(stored), Text(envelope));
          if !modified {
            assert users == old(users) by { if matched { assert users[id := users[id]] == users; } }
            return n.(failed := n.failed + 1);
          }
          if mode.validate {
            if Unwrap(e, envelope) != Some(secret) {
              var _, _ := UpdateSecret(id, None, stored);
              assert users == old(users)[id := Some(Text(envelope))][id := Some(stored)]
                           == old(users)[id := Some(stored)];
              return n.(failed := n.failed + 1);
            }
          }
          n' := n.(upgraded := n.upgraded + 1);
      }
    }

    /** A run with `--apply`, or without writes, over a stable snapshot. */
    method Migrate(e: Envelopes, mode: Mode, order: seq<string>, iv: string -> seq<Byte>) returns (n: Counters)
      requires Lawful(e) && Covers(order, Visited(users))
      modifies this
      ensures users == if mode.apply then Migrated(e, old(users), order, iv) else old(users)
      ensures backup == if mode.apply then BackedUp(e, old(users), old(backup), order) else old(backup)
      ensures n == Tally(e, old(users), order)
    {
      hide Classify, Tally, Process, Lawful;
      n := ZERO;
      var batch := users;
      NothingDone(e, users, backup, iv);
      for i := 0 to |order|
        invariant users == if mode.apply then Migrated(e, batch, order[..i], iv) else batch
        invariant backup == if mode.apply then BackedUp(e, batch, old(backup), order[..i]) else old(backup)
        invariant n == Tally(e, batch, order[..i])
      {
        var id := order[i];
        assert id in Visited(batch);
        ProcessNext(e, mode, batch, old(backup), order, iv, i, n);
        n := ProcessUser(e, mode, id, batch[id].value, iv(id), n);
      }
      assert order[..|order|] == order;
    }

    /** The rollback inside the migration: a row goes only when its user's secret really changed. */
    method RunRollback(rows: seq<string>) returns (restored: nat)
      requires Covers(rows, backup.Keys)
      modifies this
      ensures users == RolledBack(old(users), old(backup))
      ensures backup == KeptByModified(old(users), old(backup))
      ensures restored == |old(backup)| - |backup|
    {
      hide RolledBackUpTo, KeptUpTo, Covers;
      restored := 0;
      ghost var users0, backup0 := users, backup;
      RollbackStarts(users0, backup0, true);
      for i := 0 to |rows|
        invariant users == RolledBackUpTo(users0, backup0, rows[..i])
        invariant backup == KeptUpTo(users0, backup0, rows[..i], true)
        invariant restored == |backup0| - |backup|
      {
        var id := rows[i];
        RollbackNext(users0, backup0, rows, i, true);
        var _, modified := UpdateSecret(id, None, backup[id]);
        if modified {
          RemoveOne(backup, id);
          backup := backup - {id};
          restored := restored + 1;
        }
      }
      RollbackEnds(users0, backup0, rows, true);
      assert rows[..|rows|] == rows;
    }

    /** The stand-alone rollback: a row goes as soon as its user exists. */
    method RunRollbackScript(rows: seq<string>) returns (restored: nat, skipped: nat)
      requires Covers(rows, backup.Keys)
      modifies this
      ensures users == RolledBack(old(users), old(backup))
      ensures backup == KeptByMatched(old(users), old(backup))
      ensures restored == |old(backup)| - |backup| && restored + skipped == |rows|
    {
      hide RolledBackUpTo, KeptUpTo, Covers;
      restored, skipped := 0, 0;
      ghost var users0, backup0 := users, backup;
      RollbackStarts(users0, backup0, false);
      for i := 0 to |rows|
        invariant users == RolledBackUpTo(users0, backup0, rows[..i])
        invariant backup == KeptUpTo(users0, backup0, rows[..i], false)
        invariant restored == |backup0| - |backup| && restored + skipped == i
      {
        var id := rows[i];
        RollbackNext(users0, backup0, rows, i, false);
        var matched, modified := UpdateSecret(id, None, backup[id]);
        if modified || matched {
          RemoveOne(backup, id);
          backup := backup - {id};
          restored := restored + 1;
        } else {
          skipped := skipped + 1;
        }
      }
      RollbackEnds(users0, backup0, rows, false);
      assert rows[..|rows|] == rows;
    }
  }

  lemma {:induction false} NothingDone(e: Envelopes, users: Users, backup: map<string, Stored>, iv: string -> seq<Byte>)
    ensures Migrated(e, users, [], iv) == users && BackedUp(e, users, backup, []) == backup
    ensures Tally(e, users, []) == ZERO
  {
  }

  /** The collections when the users in `done` are done. */
  function DoneSoFar(e: Envelopes, mode: Mode, batch: Users, backup: map<string, Stored>, done: seq<string>,
                     iv: string -> seq<Byte>): Db
  {
    if mode.apply then Db(Migrated(e, batch, done, iv), BackedUp(e, batch, backup, done)) else Db(batch, backup)
  }

  /** One more user of the batch. */
  lemma {:induction false} ProcessNext(e: Envelopes, mode: Mode, batch: Users, backup: map<string, Stored>,
                                       order: seq<string>, iv: string -> seq<Byte>, i: nat, n: Counters)
    requires Lawful(e) && Covers(order, Visited(batch)) && i < |order| && order[i] in batch && batch[order[i]].Some?
    requires n == Tally(e, batch, order[..i])
    ensures
      var db := DoneSoFar(e, mode, batch, backup, order[..i], iv);
      var db' := DoneSoFar(e, mode, batch, backup, order[..i + 1], iv);
      Process(e, mode, db, order[i], batch[order[i]].value, iv(order[i]), n) == (db', Tally(e, batch, order[..i + 1]))
  {
    hide Unwrap, Lawful, WrapV2, Classify, Migrated, BackedUp, Covers;
    var id, stored := order[i], batch[order[i]].value;
    assert order[..i + 1][..i] == order[..i];
    MigratedNext(e, batch, backup, order, iv, i);
    if Classify(e, stored).Legacy? {
      LegacyIsNotV2(e, stored, iv(id), Classify(e, stored).secret);
      WrapUnwrap(e, iv(id), Classify(e, stored).secret);
    }
  }

  /** How the collections change with one more user done. */
  lemma {:induction false} MigratedNext(e: Envelopes, batch: Users, backup: map<string, Stored>, order: seq<string>,
                                        iv: string -> seq<Byte>, i: nat)
    requires Covers(order, Visited(batch)) && i < |order| && order[i] in batch && batch[order[i]].Some?
    ensures
      var id := order[i];
      var users, rows := Migrated(e, batch, order[..i], iv), BackedUp(e, batch, backup, order[..i]);
      && id in users && users[id] == batch[id]
      && (IsLegacy(e, batch[id]) ==>
            && Migrated(e, batch, order[..i + 1], iv)
               == users[id := Some(Text(WrapV2(e, iv(id), Classify(e, batch[id].value).secret)))]
            && BackedUp(e, batch, backup, order[..i + 1]) == rows[id := batch[id].value])
      && (!IsLegacy(e, batch[id]) ==>
            Migrated(e, batch, order[..i + 1], iv) == users && BackedUp(e, batch, backup, order[..i + 1]) == rows)
  {
    hide Classify, WrapV2, Migrated, BackedUp, Covers;
    PrefixNext(order, Visited(batch), i);
    MigratedAdd(e, batch, order[..i], order[..i + 1], order[i], iv);
    BackedUpAdd(e, batch, backup, order[..i], order[..i + 1], order[i]);
  }

  /** `after` lists what `before` lists, and one id more. */
  ghost predicate AddsOne(before: seq<string>, after: seq<string>, id: string) {
    && id !in before
    && (forall x :: x in after <==> x in before || x == id)
  }

  lemma {:induction false} PrefixNext(order: seq<string>, ids: set<string>, i: nat)
    requires Covers(order, ids) && i < |order|
    ensures AddsOne(order[..i], order[..i + 1], order[i])
  {
    assert order[..i + 1] == order[..i] + [order[i]];
  }

  lemma {:induction false} MigratedAdd(e: Envelopes, batch: Users, before: seq<string>, after: seq<string>,
                                       id: string, iv: string -> seq<Byte>)
    requires AddsOne(before, after, id) && id in batch
    ensures
      var users := Migrated(e, batch, before, iv);
      && id in users && users[id] == batch[id]
      && Migrated(e, batch, after, iv) ==
         if IsLegacy(e, batch[id]) then users[id := Some(Text(WrapV2(e, iv(id), Classify(e, batch[id].value).secret)))]
         else users
  {
    hide Classify, WrapV2;
  }

  lemma {:induction false} BackedUpAdd(e: Envelopes, batch: Users, backup: map<string, Stored>, before: seq<string>,
                                       after: seq<string>, id: string)
    requires AddsOne(before, after, id) && id in batch
    ensures
      var rows := BackedUp(e, batch, backup, before);
      BackedUp(e, batch, backup, after) == if IsLegacy(e, batch[id]) then rows[id := batch[id].value] else rows
  {
    hide IsLegacy;
  }

  // ---------------------------------------------------------------------------
  // What the migration guarantees
  // ---------------------------------------------------------------------------

  /** After the run no user holds a value the migration would still change. */
  lemma {:induction false} NothingLegacyLeft(e: Envelopes, users: Users, order: seq<string>, iv: string -> seq<Byte>)
    requires Lawful(e) && Covers(order, Visited(users))
    ensures
      var after := Migrated(e, users, order, iv);
      after.Keys == users.Keys && forall id :: id in users ==> !IsLegacy(e, after[id])
  {
    hide Unwrap, Lawful;
    forall id | id in users
      ensures !IsLegacy(e, Migrated(e, users, order, iv)[id])
    {
      if IsLegacy(e, users[id]) {
        assert id in Visited(users);
        WrapUnwrap(e, iv(id), Classify(e, users[id].value).secret);
      }
    }
  }

  /** A readable current-format value looks to the migration like a raw secret, or an old envelope, of more bytes. */
  lemma {:induction false} V3LooksLegacy(e: Envelopes, s: string)
    requires Lawful(e) && Lenient(e) && IsV3(s) && Reads(e, Some(Text(s))).Some?
    ensures Classify(e, Text(s)).Legacy?
    ensures |Classify(e, Text(s)).secret| > |Reads(e, Some(Text(s))).value|
  {
    assert s == "v3:" + s[3..];
    assert |e.fromBase64(s)| >= |e.fromBase64(s[3..])|;
  }

  /** Any other readable value keeps its secret when the migration wraps it. */
  lemma {:induction false} OthersKeepSecret(e: Envelopes, v: Stored)
    requires !HoldsV3(Some(v)) && Reads(e, Some(v)).Some? && Classify(e, v).Legacy?
    ensures Reads(e, Some(v)) == Some(Classify(e, v).secret)
  {
  }

  /** Wrapping a readable legacy value keeps the secret exactly when the value is not of the current format. */
  lemma {:induction false} WrappingKeepsIff(e: Envelopes, v: Stored, iv: seq<Byte>)
    requires Lawful(e) && Lenient(e) && Classify(e, v).Legacy? && Reads(e, Some(v)).Some?
    ensures Reads(e, Some(Text(WrapV2(e, iv, Classify(e, v).secret)))) == Reads(e, Some(v)) <==> !HoldsV3(Some(v))
  {
    hide Lawful, Lenient, Classify, Unwrap, WrapV2, IsV3;
    WrapUnwrap(e, iv, Classify(e, v).secret);
    if HoldsV3(Some(v)) { V3LooksLegacy(e, v.s); } else { OthersKeepSecret(e, v); }
  }

  /**
   * Which secrets survive: for a user whose secret the application can read, the migration preserves it if and only
   * if the stored value does not start with "v3:".
   */
  lemma {:induction false} SecretSurvivesIff(e: Envelopes, users: Users, order: seq<string>, iv: string -> seq<Byte>,
                                             id: string)
    requires Lawful(e) && Lenient(e) && Covers(order, Visited(users))
    requires id in users && Reads(e, users[id]).Some?
    ensures Reads(e, Migrated(e, users, order, iv)[id]) == Reads(e, users[id]) <==> !HoldsV3(users[id])
  {
    hide Lawful, Lenient, Classify, Unwrap, WrapV2, IsV3;
    assert id in Visited(users);
    if IsLegacy(e, users[id]) {
      WrappingKeepsIff(e, users[id].value, iv(id));
    } else if HoldsV3(users[id]) {
      V3LooksLegacy(e, users[id].value.s);
      assert false;
    }
  }

  /** So every envelope the application writes today is lost to a run with `--apply`, whatever the secret. */
  lemma {:induction false} CurrentEnvelopeIsLost(e: Envelopes, users: Users, order: seq<string>,
                                                 iv: string -> seq<Byte>, id: string, secret: seq<Byte>)
    requires Lawful(e) && Lenient(e) && Covers(order, Visited(users))
    requires id in users && users[id] == Some(Text(WrapV3(e, secret)))
    ensures Reads(e, users[id]) == Some(secret)
    ensures Reads(e, Migrated(e, users, order, iv)[id]) != Some(secret)
  {
    var s := WrapV3(e, secret);
    assert s[..3] == "v3:" && s[3..] == e.toBase64(e.sealV3(secret));
    SecretSurvivesIff(e, users, order, iv, id);
  }

  /** What the application could not read before becomes readable exactly where the migration wrapped it. */
  lemma {:induction false} UnreadableBecomesReadableIff(e: Envelopes, users: Users, order: seq<string>,
                                                        iv: string -> seq<Byte>, id: string)
    requires Lawful(e) && Covers(order, Visited(users))
    requires id in users && Reads(e, users[id]).None?
    ensures Reads(e, Migrated(e, users, order, iv)[id]).Some? <==> IsLegacy(e, users[id])
    ensures IsLegacy(e, users[id]) ==>
      Reads(e, Migrated(e, users, order, iv)[id]) == Some(Classify(e, users[id].value).secret)
  {
    hide Lawful, Unwrap, Classify, WrapV2;
    if IsLegacy(e, users[id]) {
      assert id in Visited(users);
      WrapUnwrap(e, iv(id), Classify(e, users[id].value).secret);
    }
  }

  /**
   * Raw secrets: a value without the prefix that does not decrypt is migrated, as exactly the bytes it decodes to, if
   * and only if these are 20 or more; shorter ones stay as they are.
   */
  lemma {:induction false} RawSecretMigratedIff(e: Envelopes, users: Users, order: seq<string>, iv: string -> seq<Byte>,
                                                id: string, s: string)
    requires Lawful(e) && Covers(order, Visited(users))
    requires id in users && users[id] == Some(Text(s)) && s != "" && !("v2:" <= s)
    requires |e.fromBase64(s)| < 28 || e.open(e.fromBase64(s)).None?
    ensures
      var bytes, after := e.fromBase64(s), Migrated(e, users, order, iv)[id];
      && (after != users[id] <==> |bytes| >= 20)
      && (|bytes| >= 20 ==> Reads(e, after) == Some(bytes) && Classify(e, after.value) == Current)
  {
    assert id in Visited(users);
    if |e.fromBase64(s)| >= 20 {
      LegacyIsNotV2(e, users[id].value, iv(id), e.fromBase64(s));
      WrapUnwrap(e, iv(id), e.fromBase64(s));
    }
  }

  /** Old envelopes: a value without the prefix that decrypts is migrated as what it decrypts to; prefixed ones stay. */
  lemma {:induction false} EnvelopeMigratedIff(e: Envelopes, users: Users, order: seq<string>, iv: string -> seq<Byte>,
                                               id: string, s: string)
    requires Lawful(e) && Covers(order, Visited(users)) && id in users && users[id] == Some(Text(s))
    requires "v2:" <= s || (s != "" && e.open(e.fromBase64(s)).Some?)
    ensures
      var after := Migrated(e, users, order, iv)[id];
      && (after != users[id] <==> !("v2:" <= s))
      && (!("v2:" <= s) ==> Reads(e, after) == e.open(e.fromBase64(s)) && Classify(e, after.value) == Current)
  {
    assert id in Visited(users);
    if !("v2:" <= s) {
      assert !IsV2(s);
      LegacyIsNotV2(e, users[id].value, iv(id), e.open(e.fromBase64(s)).value);
      WrapUnwrap(e, iv(id), e.open(e.fromBase64(s)).value);
    } else {
      assert IsV2(s);
    }
  }

  /**
   * A run reports a dry run exactly without `--apply` or with `--dry-run`, but what it writes depends on `--apply`
   * alone: users change under a reported dry run if and only if both flags are given and some value is legacy.
   */
  lemma {:induction false} DryRunWritesIff(e: Envelopes, mode: Mode, users: Users, order: seq<string>,
                                           iv: string -> seq<Byte>)
    requires Lawful(e) && Covers(order, Visited(users))
    ensures
      var after := if mode.apply then Migrated(e, users, order, iv) else users;
      && (ReportsDryRun(mode) && after != users <==>
            mode.apply && mode.dryRun && exists id :: id in users && IsLegacy(e, users[id]))
      && (!ReportsDryRun(mode) && after != users <==>
            mode.apply && !mode.dryRun && exists id :: id in users && IsLegacy(e, users[id]))
  {
    hide Lawful, Classify, WrapV2;
    if mode.apply && exists id :: id in users && IsLegacy(e, users[id]) {
      var id :| id in users && IsLegacy(e, users[id]);
      assert id in Visited(users);
      LegacyIsNotV2(e, users[id].value, iv(id), Classify(e, users[id].value).secret);
      assert Migrated(e, users, order, iv)[id] != users[id];
    } else if mode.apply {
      assert Migrated(e, users, order, iv) == users;
    }
  }

  /** A second run, with whatever IVs and in whatever order, changes nothing. */
  lemma {:induction false} SecondRunChangesNothing(e: Envelopes, users: Users, backup: map<string, Stored>,
                                                   order: seq<string>, iv: string -> seq<Byte>, again: seq<string>,
                                                   iv2: string -> seq<Byte>)
    requires Lawful(e) && Covers(order, Visited(users)) && Covers(again, Visited(Migrated(e, users, order, iv)))
    ensures
      var after := Migrated(e, users, order, iv);
      && Migrated(e, after, again, iv2) == after
      && BackedUp(e, after, backup, again) == backup
      && Tally(e, after, again).upgraded == 0
  {
    hide Classify, Lawful, Tally;
    NothingLegacyLeft(e, users, order, iv);
    var after := Migrated(e, users, order, iv);
    assert forall id :: id in after ==> !IsLegacy(e, after[id]);
    assert Migrated(e, after, again, iv2) == after;
    assert BackedUp(e, after, backup, again) == backup;
    forall i | 0 <= i < |again|
      ensures again[i] in after && after[again[i]].Some?
    {
      assert again[i] in Visited(after);
    }
    NothingToUpgrade(e, after, again);
  }

  lemma {:induction false} NothingToUpgrade(e: Envelopes, users: Users, done: seq<string>)
    requires forall i :: 0 <= i < |done| ==> done[i] in users && users[done[i]].Some?
    requires forall id :: id in users ==> !IsLegacy(e, users[id])
    ensures Tally(e, users, done).upgraded == 0
  {
    hide Classify;
    if done == [] {
    } else {
      NothingToUpgrade(e, users, done[..|done| - 1]);
      assert !IsLegacy(e, users[done[|done| - 1]]);
    }
  }

  // ---------------------------------------------------------------------------
  // Rolling back
  // ---------------------------------------------------------------------------

  function RolledBackUpTo(users: Users, backup: map<string, Stored>, rows: seq<string>): Users {
    map id | id in users :: if id in rows && id in backup then Some(backup[id]) else users[id]
  }

  function RolledBack(users: Users, backup: map<string, Stored>): Users {
    map id | id in users :: if id in backup then Some(backup[id]) else users[id]
  }

  function KeptByModified(users: Users, backup: map<string, Stored>): map<string, Stored> {
    map id | id in backup && (id !in users || users[id] == Some(backup[id])) :: backup[id]
  }

  function KeptByMatched(users: Users, backup: map<string, Stored>): map<string, Stored> {
    map id | id in backup && id !in users :: backup[id]
  }

  /** The rows left after some were handled; `changedOnly` tells the two rollbacks apart. */
  function KeptUpTo(users: Users, backup: map<string, Stored>, rows: seq<string>, changedOnly: bool)
    : map<string, Stored>
  {
    map id |
      id in backup && !(id in rows && id in users && (changedOnly ==> users[id] != Some(backup[id]))) :: backup[id]
  }

  lemma {:induction false} RollbackStarts(users: Users, backup: map<string, Stored>, changedOnly: bool)
    ensures RolledBackUpTo(users, backup, []) == users && KeptUpTo(users, backup, [], changedOnly) == backup
  {
  }

  lemma {:induction false} RollbackNext(users: Users, backup: map<string, Stored>, rows: seq<string>, i: nat,
                                        changedOnly: bool)
    requires Covers(rows, backup.Keys) && i < |rows|
    ensures
      var id, now := rows[i], RolledBackUpTo(users, backup, rows[..i]);
      var kept := KeptUpTo(users, backup, rows[..i], changedOnly);
      && id in backup && id in kept && kept[id] == backup[id]
      && now.Keys == users.Keys && (id in users ==> now[id] == users[id])
      && RolledBackUpTo(users, backup, rows[..i + 1]) == (if id in users then now[id := Some(backup[id])] else now)
      && KeptUpTo(users, backup, rows[..i + 1], changedOnly)
         == (if id in users && (changedOnly ==> users[id] != Some(backup[id])) then kept - {id} else kept)
  {
    hide RolledBackUpTo, KeptUpTo;
    assert rows[i] in backup.Keys;
    PrefixNext(rows, backup.Keys, i);
    RolledBackAdd(users, backup, rows[..i], rows[..i + 1], rows[i]);
    KeptAdd(users, backup, rows[..i], rows[..i + 1], rows[i], changedOnly);
  }

  lemma {:induction false} RolledBackAdd(users: Users, backup: map<string, Stored>, before: seq<string>,
                                         after: seq<string>, id: string)
    requires AddsOne(before, after, id) && id in backup
    ensures
      var now := RolledBackUpTo(users, backup, before);
      && now.Keys == users.Keys && (id in users ==> now[id] == users[id])
      && RolledBackUpTo(users, backup, after) == if id in users then now[id := Some(backup[id])] else now
  {
  }

  lemma {:induction false} KeptAdd(users: Users, backup: map<string, Stored>, before: seq<string>, after: seq<string>,
                                   id: string, changedOnly: bool)
    requires AddsOne(before, after, id) && id in backup
    ensures
      var kept := KeptUpTo(users, backup, before, changedOnly);
      && id in kept && kept[id] == backup[id]
      && KeptUpTo(users, backup, after, changedOnly)
         == if id in users && (changedOnly ==> users[id] != Some(backup[id])) then kept - {id} else kept
  {
  }

  lemma {:induction false} RollbackEnds(users: Users, backup: map<string, Stored>, rows: seq<string>, changedOnly: bool)
    requires Covers(rows, backup.Keys)
    ensures RolledBackUpTo(users, backup, rows) == RolledBack(users, backup)
    ensures KeptUpTo(users, backup, rows, changedOnly)
         == if changedOnly then KeptByModified(users, backup) else KeptByMatched(users, backup)
  {
    assert forall id :: id in backup ==> id in backup.Keys;
  }

  lemma {:induction false} RemoveOne(m: map<string, Stored>, id: string)
    requires id in m
    ensures |m - {id}| == |m| - 1
  {
    assert (m - {id}).Keys == m.Keys - {id};
  }

  /**
   * Migrating from an empty backup and rolling back, by either rollback, restores every user and empties the
   * backup.
   */
  lemma {:induction false} RollbackInvertsMigration(e: Envelopes, users: Users, order: seq<string>,
                                                    iv: string -> seq<Byte>)
    requires Lawful(e) && Covers(order, Visited(users))
    ensures
      var after, backup := Migrated(e, users, order, iv), BackedUp(e, users, map[], order);
      && RolledBack(after, backup) == users
      && KeptByModified(after, backup) == map[]
      && KeptByMatched(after, backup) == map[]
  {
    hide Classify, Lawful, WrapV2;
    var after, backup := Migrated(e, users, order, iv), BackedUp(e, users, map[], order);
    forall id | id in backup
      ensures id in users && users[id] == Some(backup[id]) && after[id] != Some(backup[id])
    {
      LegacyIsNotV2(e, users[id].value, iv(id), Classify(e, users[id].value).secret);
    }
    forall id | id in users && id !in backup
      ensures after[id] == users[id]
    {
      assert users[id].Some? ==> id in Visited(users);
    }
  }

  /**
   * From any state at all the two rollbacks leave the same users. They leave the same backup exactly when no
   * backed-up user already has the backed-up value.
   */
  lemma {:induction false} RollbacksAgreeIff(users: Users, backup: map<string, Stored>)
    ensures KeptByModified(users, backup) == KeptByMatched(users, backup) <==>
            !exists id :: id in backup && id in users && users[id] == Some(backup[id])
  {
    var a, b := KeptByModified(users, backup), KeptByMatched(users, backup);
    if exists id :: id in backup && id in users && users[id] == Some(backup[id]) {
      var id :| id in backup && id in users && users[id] == Some(backup[id]);
      assert id in a && id !in b;
    } else {
      assert a == b;
    }
  }

  // ---------------------------------------------------------------------------
  // With concurrent writers
  // ---------------------------------------------------------------------------

  /** The migration handling one user of its batch, or somebody else writing a user's secret meanwhile. */
  datatype Event = Handle(id: string, iv: seq<Byte>) | Write(id: string, value: Option<Stored>)

  function Step(e: Envelopes, mode: Mode, batch: Users, db: Db, ev: Event): Db {
    match ev
    case Handle(id, iv) =>
      if id in batch && batch[id].Some? then Process(e, mode, db, id, batch[id].value, iv, ZERO).0 else db
    case Write(id, value) => if id in db.users then db.(users := db.users[id := value]) else db
  }

  function Interleaved(e: Envelopes, mode: Mode, batch: Users, db: Db, events: seq<Event>): Db {
    if events == [] then db
    else Step(e, mode, batch, Interleaved(e, mode, batch, db, events[..|events| - 1]), events[|events| - 1])
  }

  /** The same history without the migration: only the writes. */
  function WritesOnly(users: Users, events: seq<Event>): Users {
    if events == [] then users
    else
      var before, ev := WritesOnly(users, events[..|events| - 1]), events[|events| - 1];
      if ev.Write? && ev.id in before then before[ev.id := ev.value] else before
  }

  /**
   * The run has caught the user: a write-enabled handling found the value of the batch still in place, and nobody has
   * written the user since.
   */
  predicate Caught(e: Envelopes, mode: Mode, batch: Users, start: Users, events: seq<Event>, id: string) {
    if events == [] then false
    else
      var init, ev := events[..|events| - 1], events[|events| - 1];
      if ev.id != id then Caught(e, mode, batch, start, init, id)
      else
        ev.Handle? &&
        (Caught(e, mode, batch, start, init, id)
         || (mode.apply && id in batch && IsLegacy(e, batch[id])
             && id in WritesOnly(start, init) && WritesOnly(start, init)[id] == batch[id]))
  }

  lemma {:induction false} WritesKeepUsers(start: Users, events: seq<Event>)
    ensures WritesOnly(start, events).Keys == start.Keys
  {
    if events == [] {
    } else {
      WritesKeepUsers(start, events[..|events| - 1]);
    }
  }

  /** The user's value is the one written last, or the envelope of that value where the run has caught it. */
  ghost predicate Tracks(e: Envelopes, mode: Mode, batch: Users, start: Users, events: seq<Event>, users: Users,
                         id: string)
    requires id in start && id in users
  {
    WritesKeepUsers(start, events);
    var last := WritesOnly(start, events)[id];
    if Caught(e, mode, batch, start, events, id) then
      && id in batch && last == batch[id] && IsLegacy(e, last)
      && exists iv :: users[id] == Some(Text(WrapV2(e, iv, Classify(e, last.value).secret)))
    else users[id] == last
  }

  /** One step on a tracked user. */
  lemma {:induction false} StepTracks(e: Envelopes, mode: Mode, batch: Users, start: Users, events: seq<Event>, db: Db,
                                      id: string)
    requires Lawful(e) && events != [] && id in start && db.users.Keys == start.Keys
    requires Tracks(e, mode, batch, start, events[..|events| - 1], db.users, id)
    ensures
      var db' := Step(e, mode, batch, db, events[|events| - 1]);
      db'.users.Keys == start.Keys && Tracks(e, mode, batch, start, events, db'.users, id)
  {
    hide Lawful, Classify, Unwrap, WrapV2;
    var init, ev := events[..|events| - 1], events[|events| - 1];
    WritesKeepUsers(start, init);
    if ev.Handle? && ev.id == id && id in batch && IsLegacy(e, batch[id]) {
      LegacyIsNotV2(e, batch[id].value, ev.iv, Classify(e, batch[id].value).secret);
      WrapUnwrap(e, ev.iv, Classify(e, batch[id].value).secret);
      forall iv
        ensures Text(WrapV2(e, iv, Classify(e, batch[id].value).secret)) != batch[id].value
      {
        LegacyIsNotV2(e, batch[id].value, iv, Classify(e, batch[id].value).secret);
      }
    }
  }

  lemma {:induction false} RunTracks(e: Envelopes, mode: Mode, batch: Users, db: Db, events: seq<Event>, id: string)
    requires Lawful(e) && id in db.users
    ensures
      var after := Interleaved(e, mode, batch, db, events).users;
      after.Keys == db.users.Keys && Tracks(e, mode, batch, db.users, events, after, id)
  {
    hide Lawful, Step, Tracks;
    if events == [] {
      NothingTracked(e, mode, batch, db.users, id);
    } else {
      RunTracks(e, mode, batch, db, events[..|events| - 1], id);
      StepTracks(e, mode, batch, db.users, events, Interleaved(e, mode, batch, db, events[..|events| - 1]), id);
    }
  }

  lemma {:induction false} NothingTracked(e: Envelopes, mode: Mode, batch: Users, users: Users, id: string)
    requires id in users
    ensures Tracks(e, mode, batch, users, [], users, id)
  {
  }

  /**
   * Beside concurrent writers: in every interleaving, the secret the application reads from a user is the one in the
   * value written last, if and only if that value is not a current-format one the run has caught. In particular no
   * concurrent change is ever overwritten.
   */
  lemma {:induction false} ConcurrentSecretSurvivesIff(e: Envelopes, mode: Mode, batch: Users, db: Db,
                                                       events: seq<Event>, id: string)
    requires Lawful(e) && Lenient(e) && id in db.users
    ensures
      var after, writes := Interleaved(e, mode, batch, db, events).users, WritesOnly(db.users, events);
      && id in after && id in writes
      && (!Caught(e, mode, batch, db.users, events, id) ==> after[id] == writes[id])
      && (Reads(e, writes[id]).Some? ==>
            (Reads(e, after[id]) == Reads(e, writes[id])
             <==> !(HoldsV3(writes[id]) && Caught(e, mode, batch, db.users, events, id))))
  {
    hide Lawful, Lenient, Interleaved, WritesOnly, Caught, Classify, Reads, WrapV2;
    WritesKeepUsers(db.users, events);
    RunTracks(e, mode, batch, db, events, id);
    var after, writes := Interleaved(e, mode, batch, db, events).users, WritesOnly(db.users, events);
    if Caught(e, mode, batch, db.users, events, id) && Reads(e, writes[id]).Some? {
      var iv :| after[id] == Some(Text(WrapV2(e, iv, Classify(e, writes[id].value).secret)));
      WrappingKeepsIff(e, writes[id].value, iv);
    }
  }

  /** The migration has handled the user, with writes enabled, and so backed up the value of its batch. */
  predicate Handled(e: Envelopes, mode: Mode, batch: Users, events: seq<Event>, id: string) {
    && mode.apply && id in batch && IsLegacy(e, batch[id])
    && exists i :: 0 <= i < |events| && events[i].Handle? && events[i].id == id
  }

  lemma {:induction false} BackupTracks(e: Envelopes, mode: Mode, batch: Users, users: Users, events: seq<Event>,
                                        id: string)
    ensures
      var backup := Interleaved(e, mode, batch, Db(users, map[]), events).backup;
      && (id in backup <==> Handled(e, mode, batch, events, id))
      && (id in backup ==> Some(backup[id]) == batch[id])
  {
    hide Classify, WrapV2, Unwrap;
    if events == [] {
    } else {
      var init, ev := events[..|events| - 1], events[|events| - 1];
      BackupTracks(e, mode, batch, users, init, id);
      HandledNext(e, mode, batch, init, ev, id);
      assert init + [ev] == events;
    }
  }

  lemma {:induction false} HandledNext(e: Envelopes, mode: Mode, batch: Users, init: seq<Event>, ev: Event, id: string)
    ensures Handled(e, mode, batch, init + [ev], id) <==>
            || Handled(e, mode, batch, init, id)
            || (mode.apply && id in batch && IsLegacy(e, batch[id]) && ev.Handle? && ev.id == id)
  {
    hide IsLegacy;
    var events := init + [ev];
    if Handled(e, mode, batch, init, id) {
      var i :| 0 <= i < |init| && init[i].Handle? && init[i].id == id;
      assert events[i] == init[i];
    }
    if mode.apply && id in batch && IsLegacy(e, batch[id]) && ev.Handle? && ev.id == id {
      assert events[|init|] == ev;
    }
  }

  /**
   * Rolling back does not have that guarantee: the backup row is written before the guarded update. Over every
   * interleaving from an empty backup, rolling back afterwards leaves a user with another value than the writes alone
   * if and only if the migration had handled the user and the value written last is not the one of its batch.
   */
  lemma {:induction false} RollbackOverwritesIff(e: Envelopes, mode: Mode, batch: Users, users: Users,
                                                 events: seq<Event>, id: string)
    requires Lawful(e) && id in users
    ensures
      var db, writes := Interleaved(e, mode, batch, Db(users, map[]), events), WritesOnly(users, events);
      && id in db.users && id in writes
      && (RolledBack(db.users, db.backup)[id] != writes[id] <==>
            Handled(e, mode, batch, events, id) && writes[id] != batch[id])
  {
    hide Lawful, Interleaved, WritesOnly, Classify, WrapV2, Handled, Caught;
    WritesKeepUsers(users, events);
    RunTracks(e, mode, batch, Db(users, map[]), events, id);
    BackupTracks(e, mode, batch, users, events, id);
    if Caught(e, mode, batch, users, events, id) { CaughtWasHandled(e, mode, batch, users, events, id); }
  }

  lemma {:induction false} CaughtWasHandled(e: Envelopes, mode: Mode, batch: Users, users: Users, events: seq<Event>,
                                            id: string)
    requires Caught(e, mode, batch, users, events, id)
    ensures Handled(e, mode, batch, events, id)
  {
    hide IsLegacy, WritesOnly;
    var init, ev := events[..|events| - 1], events[|events| - 1];
    assert events == init + [ev];
    HandledNext(e, mode, batch, init, ev, id);
    if ev.id != id || Caught(e, mode, batch, users, init, id) {
      CaughtWasHandled(e, mode, batch, users, init, id);
    }
  }
}

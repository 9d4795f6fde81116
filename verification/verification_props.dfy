/** Properties of the verification-code lifecycle that relate several calls. */
module VerificationProps {
  import opened Base
  import opened Messages
  import opened CodeStore
  import opened Verification
  import opened Decimal
  import Validations

  /** What every row of the table satisfies when operations run with a clock that never
      goes backwards: created in the past, valid for five minutes from creation, at most
      five attempts, and a lock exactly when the fifth attempt has been counted, one that
      outlasts the row's own expiry. */
  predicate Consistent(r: Record, now: Time) {
    && r.createdAt <= now
    && r.expiresAt == r.createdAt + ExpiryMs
    && r.attempts <= MaxAttempts
    && (r.attempts < MaxAttempts ==> r.lockedUntil.None?)
    && (r.attempts == MaxAttempts ==> r.lockedUntil.Some? && r.lockedUntil.value >= r.expiresAt)
  }

  predicate WellFormed(s: Store, now: Time) {
    && UniqueIds(s.records)
    && forall r | r in s.records :: r.id < s.nextId && Consistent(r, now)
  }

  /** Time passing keeps a table well formed. */
  lemma WellFormedLater(s: Store, now: Time, later: Time)
    requires WellFormed(s, now) && now <= later
    ensures WellFormed(s, later)
  {
  }

  /** Issuing keeps the table well formed. */
  lemma IssuePreservesWellFormed(s: Store, email: string, now: Time, draw: nat)
    requires draw < DrawRange
    requires WellFormed(s, now)
    ensures WellFormed(CreateVerificationCode(s, email, now, draw).store, now)
  {
    var out := CreateVerificationCode(s, email, now, draw);
    if out.result.Issued? {
      var inserted := NewRecord(s, email, out.result.code, now);
      assert forall r | r in out.store.records :: r == inserted || r in s.records;
    }
  }

  /** Verifying keeps the table well formed; in particular no row ever counts more than
      five attempts, because a row that has counted five is locked past its own expiry
      and is refused before its code is compared again. */
  lemma VerifyPreservesWellFormed(s: Store, email: string, code: string, now: Time)
    requires WellFormed(s, now)
    ensures WellFormed(VerifyCode(s, email, code, now).store, now)
  {
    var c := Candidate(s, email, now);
    if c.Some? {
      CheckCandidatePreservesWellFormed(s, c.value, code, now);
    }
  }

  lemma CheckCandidatePreservesWellFormed(s: Store, rec: Record, code: string, now: Time)
    requires WellFormed(s, now) && rec in s.records && rec.expiresAt > now
    ensures WellFormed(CheckCandidate(s, rec, code, now).store, now)
  {
    var out := CheckCandidate(s, rec, code, now);
    if LockActive(rec, now) {
      assert out.store == s;
    } else if rec.code == HashCode(code) {
      assert out.store == Store(DeleteById(s.records, rec.id), s.nextId);
      DeletePreservesWellFormed(s, rec.id, now);
    } else {
      assert rec.attempts < MaxAttempts;
      var lock := if rec.attempts + 1 >= MaxAttempts then Some(now + LockMs) else None;
      assert out.store == Store(SetAttempts(s.records, rec.id, rec.attempts + 1, lock), s.nextId);
      CountAttemptPreservesWellFormed(s, rec, lock, now);
    }
  }

  lemma DeletePreservesWellFormed(s: Store, id: nat, now: Time)
    requires WellFormed(s, now)
    ensures WellFormed(Store(DeleteById(s.records, id), s.nextId), now)
  {
  }

  lemma CountAttemptPreservesWellFormed(s: Store, rec: Record, lock: Option<Time>, now: Time)
    requires WellFormed(s, now) && rec in s.records && rec.attempts < MaxAttempts
    requires Consistent(rec.(attempts := rec.attempts + 1, lockedUntil := lock), now)
    ensures WellFormed(Store(SetAttempts(s.records, rec.id, rec.attempts + 1, lock), s.nextId), now)
  {
    var rs' := SetAttempts(s.records, rec.id, rec.attempts + 1, lock);
    var updated := rec.(attempts := rec.attempts + 1, lockedUntil := lock);
    SetAttemptsRows(s.records, rec, rec.attempts + 1, lock);
    ReplacePreservesWellFormed(s, rs', updated, now);
  }

  /** A table whose rows are old rows or one consistent replacement under an old id, with
      ids still unique, is well formed. */
  lemma ReplacePreservesWellFormed(s: Store, rs': seq<Record>, updated: Record, now: Time)
    requires WellFormed(s, now) && UniqueIds(rs')
    requires updated.id < s.nextId && Consistent(updated, now)
    requires forall r | r in rs' :: r == updated || r in s.records
    ensures WellFormed(Store(rs', s.nextId), now)
  {
  }

  /** The calls the lifecycle can see, each at its own instant. */
  datatype Call =
    | IssueCall(email: string, at: Time, draw: nat)
    | VerifyCall(email: string, code: string, at: Time)

  predicate ValidDraws(calls: seq<Call>) {
    forall i | 0 <= i < |calls| :: calls[i].IssueCall? ==> calls[i].draw < DrawRange
  }

  /** Each call happens no earlier than `start` and no earlier than the calls before it. */
  predicate Chronological(calls: seq<Call>, start: Time) {
    && (forall i | 0 <= i < |calls| :: start <= calls[i].at)
    && (forall i, j | 0 <= i < j < |calls| :: calls[i].at <= calls[j].at)
  }

  function Apply(s: Store, c: Call): Store
    requires c.IssueCall? ==> c.draw < DrawRange
  {
    match c
    case IssueCall(email, at, draw) => CreateVerificationCode(s, email, at, draw).store
    case VerifyCall(email, code, at) => VerifyCode(s, email, code, at).store
  }

  /** The table after a sequence of calls. */
  function Run(s: Store, calls: seq<Call>): Store
    requires ValidDraws(calls)
    decreases |calls|
  {
    if calls == [] then s else Run(Apply(s, calls[0]), calls[1..])
  }

  /** Along any chronological run from a well-formed table, every row keeps at most
      five attempts and the table stays well formed. */
  lemma {:induction false} RunPreservesWellFormed(s: Store, start: Time, calls: seq<Call>)
    requires ValidDraws(calls) && Chronological(calls, start)
    requires WellFormed(s, start)
    ensures calls != [] ==> WellFormed(Run(s, calls), calls[|calls| - 1].at)
    ensures forall r | r in Run(s, calls).records :: r.attempts <= MaxAttempts
    decreases |calls|
  {
    if calls != [] {
      var c := calls[0];
      assert start <= c.at;
      WellFormedLater(s, start, c.at);
      match c {
        case IssueCall(email, at, draw) => IssuePreservesWellFormed(s, email, at, draw);
        case VerifyCall(email, code, at) => VerifyPreservesWellFormed(s, email, code, at);
      }
      var rest := calls[1..];
      assert Chronological(rest, c.at) by {
        forall i | 0 <= i < |rest|
          ensures c.at <= rest[i].at
        {
          assert rest[i] == calls[i + 1];
        }
        forall i, j | 0 <= i < j < |rest|
          ensures rest[i].at <= rest[j].at
        {
          assert rest[i] == calls[i + 1] && rest[j] == calls[j + 1];
        }
      }
      RunPreservesWellFormed(Apply(s, c), c.at, rest);
      if rest != [] {
        assert calls[|calls| - 1] == rest[|rest| - 1];
      }
    }
  }

  /** A row expiring exactly now survives the sweep (which deletes only rows expired
      strictly before now), yet verification, which needs an expiry strictly after now,
      can no longer select it. */
  lemma ExpiryBoundary(s: Store, r: Record, email: string, now: Time)
    requires r in s.records && r.expiresAt == now
    ensures r in CleanupExpiredCodes(s, now).records
    ensures Candidate(s, email, now).Some? ==> Candidate(s, email, now).value != r
  {
  }

  /** Issuing, then presenting the issued code before it expires, succeeds on the row just
      inserted and deletes exactly that row: the table returns to the swept one. */
  lemma IssueThenVerify(s: Store, email: string, t: Time, draw: nat, t': Time)
    requires draw < DrawRange && WellFormed(s, t)
    requires t <= t' < t + ExpiryMs
    requires CreateVerificationCode(s, email, t, draw).result.Issued?
    ensures var issue := CreateVerificationCode(s, email, t, draw);
      var v := VerifyCode(issue.store, email, issue.result.code, t');
      && v.result == Verified(NewRecord(s, email, issue.result.code, t))
      && v.store == Store(CleanupExpiredCodes(s, t).records, s.nextId + 1)
  {
    var issue := CreateVerificationCode(s, email, t, draw);
    var code := issue.result.code;
    var rec := NewRecord(s, email, code, t);
    var swept := Sweep(s.records, t);
    assert issue.store.records == swept + [rec];
    forall r | r in issue.store.records && r.email == email && r.expiresAt > t' && r != rec
      ensures IsLater(rec, r)
    {
      assert r in s.records;
    }
    CandidateIsLatest(issue.store, email, t', rec);
    assert VerifyCode(issue.store, email, code, t') == CheckCandidate(issue.store, rec, code, t');
    DeleteNewest(s, swept, rec);
  }

  /** A live row of the address that is later than every other live row of the address
      is the verification candidate. */
  lemma CandidateIsLatest(s: Store, email: string, now: Time, rec: Record)
    requires rec in s.records && rec.email == email && rec.expiresAt > now
    requires forall r | r in s.records && r.email == email && r.expiresAt > now && r != rec :: IsLater(rec, r)
    ensures Candidate(s, email, now) == Some(rec)
  {
    var c := Candidate(s, email, now);
    assert c.Some?;
    assert !IsLater(rec, c.value);
    assert c.value == rec;
  }

  /** Deleting the row just appended, under an id no older row carries, leaves the older rows. */
  lemma DeleteNewest(s: Store, swept: seq<Record>, rec: Record)
    requires WellFormed(s, rec.createdAt) && rec.id == s.nextId
    requires forall r | r in swept :: r in s.records
    ensures DeleteById(swept + [rec], rec.id) == swept
  {
    assert forall r | r in swept :: r.id != rec.id;
    DeleteConcat(swept, [rec], rec.id);
    DeleteAbsent(swept, rec.id);
    assert DeleteById([rec], rec.id) == [];
  }

  /** A second issue for the same address within 60 seconds of a successful one is
      refused with `sendTooFrequent` and inserts nothing. */
  lemma IssueTwiceWithinCooldown(s: Store, email: string, t: Time, draw1: nat, t': Time, draw2: nat)
    requires draw1 < DrawRange && draw2 < DrawRange
    requires t <= t' < t + CooldownMs
    requires CreateVerificationCode(s, email, t, draw1).result.Issued?
    ensures var first := CreateVerificationCode(s, email, t, draw1);
      var second := CreateVerificationCode(first.store, email, t', draw2);
      && second.result == IssueFailed(SendTooFrequent)
      && second.store == CleanupExpiredCodes(first.store, t')
  {
    var first := CreateVerificationCode(s, email, t, draw1);
    var rec := NewRecord(s, email, first.result.code, t);
    assert rec in first.store.records;
    forall r | r in first.store.records && r.email == email && r.expiresAt >= t'
      ensures !LockActive(r, t')
    {
      if r != rec {
        assert r in Sweep(s.records, t);
      }
    }
  }

  /** After the fifth wrong code locks the candidate at time t, every verification in the
      next 15 minutes is refused without touching the table, whatever code is presented:
      with `accountLocked` while the locked row is unexpired, and with `codeExpired` after. */
  lemma LockedAfterTooManyAttempts(s: Store, email: string, code: string, t: Time, code2: string, t': Time)
    requires WellFormed(s, t)
    requires VerifyCode(s, email, code, t).result == VerifyFailed(TooManyAttempts)
    requires t <= t' < t + LockMs
    ensures var first := VerifyCode(s, email, code, t);
      var second := VerifyCode(first.store, email, code2, t');
      && second.store == first.store
      && (second.result == VerifyFailed(AccountLocked) || second.result == VerifyFailed(CodeExpired))
      && (t' < Candidate(s, email, t).value.expiresAt ==> second.result == VerifyFailed(AccountLocked))
  {
    var first := VerifyCode(s, email, code, t);
    var rec := Candidate(s, email, t).value;
    var lock := Some(t + LockMs);
    assert first.store.records == SetAttempts(s.records, rec.id, rec.attempts + 1, lock);
    SetAttemptsOnlyTarget(s.records, rec, rec.attempts + 1, lock);
    var updated := rec.(attempts := rec.attempts + 1, lockedUntil := lock);
    forall r | r in first.store.records && r != updated && r.email == email && r.expiresAt > t'
      ensures updated.expiresAt > t' && IsLater(updated, r)
    {
      assert r in s.records && r.id != rec.id;
      assert !IsLater(r, rec);
    }
    var c := Candidate(first.store, email, t');
    assert c.Some? ==> c.value == updated;
    if t' < rec.expiresAt {
      assert updated in first.store.records;
    }
  }

  /** The lock set by the fifth wrong code blocks new codes only while the locked row is
      unexpired: once every row of the address has expired, a new code is issued although
      the 15-minute lock is still running. */
  lemma LockLapsesWithRecord(s: Store, email: string, code: string, t: Time, t': Time, draw: nat)
    requires draw < DrawRange && WellFormed(s, t)
    requires VerifyCode(s, email, code, t).result == VerifyFailed(TooManyAttempts)
    requires Candidate(s, email, t).value.expiresAt < t' < t + LockMs
    ensures var first := VerifyCode(s, email, code, t);
      && (exists r | r in first.store.records :: r.email == email && LockActive(r, t'))
      && CreateVerificationCode(first.store, email, t', draw).result.Issued?
  {
    var first := VerifyCode(s, email, code, t);
    var rec := Candidate(s, email, t).value;
    var lock := Some(t + LockMs);
    assert first == CheckCandidate(s, rec, code, t);
    assert first.store.records == SetAttempts(s.records, rec.id, rec.attempts + 1, lock);
    SetAttemptsOnlyTarget(s.records, rec, rec.attempts + 1, lock);
    var updated := rec.(attempts := rec.attempts + 1, lockedUntil := lock);
    assert updated in first.store.records && LockActive(updated, t');
    RowsExpireWithCandidate(s, email, t, t');
    assert forall r | r in first.store.records && r.email == email :: r.expiresAt < t';
  }

  /** Every row of the address expires no later than the candidate, so once the candidate
      has expired they all have. */
  lemma RowsExpireWithCandidate(s: Store, email: string, t: Time, t': Time)
    requires WellFormed(s, t) && Candidate(s, email, t).Some?
    requires Candidate(s, email, t).value.expiresAt < t'
    ensures forall r | r in s.records && r.email == email :: r.expiresAt < t'
  {
    var rec := Candidate(s, email, t).value;
    forall r | r in s.records && r.email == email
      ensures r.expiresAt < t'
    {
      if r.expiresAt > t {
        assert !IsLater(r, rec);
      }
    }
  }

  /** A code is single use: the row a successful verification returns is gone from the
      table, no later verification can return it again, and a repeat finds nothing when the
      address had no other live row. */
  lemma SingleUse(s: Store, email: string, code: string, t: Time, code2: string, t': Time)
    requires VerifyCode(s, email, code, t).result.Verified?
    ensures var first := VerifyCode(s, email, code, t);
      var rec := first.result.record;
      var second := VerifyCode(first.store, email, code2, t');
      && (forall r | r in first.store.records :: r.id != rec.id)
      && (second.result.Verified? ==> second.result.record.id != rec.id)
      && ((forall r | r in s.records && r.id != rec.id :: !(r.email == email && r.expiresAt > t')) ==>
            second.result == VerifyFailed(CodeExpired))
  {
  }

  /** A repeat of a successful verification is not always answered with `codeExpired`:
      an older live code of the same address becomes the candidate, and the repeat counts a
      failed attempt on it. */
  lemma RepeatSeesOlderCode()
    ensures var older := Record(0, "a@example.com", HashCode("111111"), 0, ExpiryMs, 0, None);
      var newer := Record(1, "a@example.com", HashCode("222222"), 61000, 61000 + ExpiryMs, 0, None);
      var s := Store([older, newer], 2);
      var first := VerifyCode(s, "a@example.com", "222222", 62000);
      var second := VerifyCode(first.store, "a@example.com", "222222", 62000);
      && first.result == Verified(newer)
      && second.result == VerifyFailed(CodeInvalid)
      && second.store.records == [older.(attempts := 1)]
  {
    var older := Record(0, "a@example.com", HashCode("111111"), 0, ExpiryMs, 0, None);
    var newer := Record(1, "a@example.com", HashCode("222222"), 61000, 61000 + ExpiryMs, 0, None);
    var s := Store([older, newer], 2);
    assert Candidate(s, "a@example.com", 62000) == Some(newer);
    var first := VerifyCode(s, "a@example.com", "222222", 62000);
    assert [older, newer][1..] == [newer];
    assert DeleteById([newer], 1) == [];
    assert first.store.records == [older];
    assert Candidate(first.store, "a@example.com", 62000) == Some(older);
  }

  /** The generator produces exactly the codes the code schema accepts that do not start
      with a zero: every such code is the output for one draw, and no other code is. */
  lemma {:induction false} GeneratedCodes(code: string)
    ensures (exists draw: nat | draw < DrawRange :: GenerateCode(draw) == code) <==>
      Validations.SixDigits(code) && code[0] != '0'
  {
    if Validations.SixDigits(code) && code[0] != '0' {
      ValueLowerBound(code);
      ValueUpperBound(code);
      assert Pow10(5) == 100000 by {
        assert Pow10(2) == 100;
      }
      assert Pow10(6) == 1000000;
      RenderOfValue(code);
      var draw: nat := Value(code) - 100000;
      assert GenerateCode(draw) == code;
    }
  }
}

/** The email verification-code lifecycle (platform/lib/repositories/verification.ts):
    issuing a code and verifying one, as pure transitions of the code table. */
module Verification {
  import opened Base
  import opened Messages
  import opened Decimal
  import opened CodeStore
  import Validations

  const CodeExpiryMinutes: int := 5
  const SendCooldownSeconds: int := 60
  const MaxAttempts: nat := 5
  const LockDurationMinutes: int := 15

  const ExpiryMs: int := CodeExpiryMinutes * 60 * 1000
  const CooldownMs: int := SendCooldownSeconds * 1000
  const LockMs: int := LockDurationMinutes * 60 * 1000

  /** The number of values `Math.floor(Math.random() * 900000)` can take. */
  const DrawRange: nat := 900000

  /** `generateCode`: `draw` stands for `Math.floor(Math.random() * 900000)`, a choice in
      [0, 900000); the code is the decimal rendering of 100000 + draw. */
  function GenerateCode(draw: nat): (code: string)
    requires draw < DrawRange
    ensures |code| == 6 && AllDigits(code) && code[0] != '0'
    ensures Value(code) == 100000 + draw
    ensures Validations.SixDigits(code)
  {
    assert Pow10(5) == 100000 by {
      assert Pow10(2) == 100;
    }
    assert Pow10(6) == 1000000;
    RenderLength(100000 + draw, 6);
    ValueOfRender(100000 + draw);
    Render(100000 + draw)
  }

  /** `cleanupExpiredCodes`: deletes every row, for any address, that expired strictly before `now`. */
  function CleanupExpiredCodes(s: Store, now: Time): (s': Store)
    ensures forall r :: r in s'.records <==> r in s.records && !(r.expiresAt < now)
    ensures s'.nextId == s.nextId
  {
    Store(Sweep(s.records, now), s.nextId)
  }

  /** `checkLocked`: the `lockedUntil` of the latest row for the address whose lock is still running. */
  function CheckLocked(s: Store, email: string, now: Time): (lockedUntil: Option<Time>)
    ensures lockedUntil.Some? <==> exists r | r in s.records :: r.email == email && LockActive(r, now)
    ensures lockedUntil.Some? ==> lockedUntil.value > now
  {
    match Latest(s.records, Locked(email, now))
    case None => None
    case Some(r) => r.lockedUntil
  }

  /** `checkSendCooldown`: true when no row for the address was created in the last 60 seconds. */
  function CheckSendCooldown(s: Store, email: string, now: Time): (canSend: bool)
    ensures canSend <==> forall r | r in s.records && r.email == email :: r.createdAt <= now - CooldownMs
  {
    CountCreatedAfter(s.records, email, now - CooldownMs) == 0
  }

  datatype IssueResult = Issued(code: string) | IssueFailed(error: ErrorKey)

  /** The result of `createVerificationCode` together with the table it leaves behind. */
  datatype Issue = Issue(result: IssueResult, store: Store)

  /** The row a successful issue inserts; `createdAt` is the column default, the insertion time. */
  function NewRecord(s: Store, email: string, code: string, now: Time): Record {
    Record(s.nextId, email, HashCode(code), now, now + ExpiryMs, 0, None)
  }

  /** `createVerificationCode`: sweep, refuse while locked, refuse within the cooldown,
      otherwise insert one row for a freshly generated code and return the code. */
  function CreateVerificationCode(s: Store, email: string, now: Time, draw: nat): (out: Issue)
    requires draw < DrawRange
    ensures out.result.IssueFailed? ==> out.store == CleanupExpiredCodes(s, now)
    ensures out.result == IssueFailed(AccountLocked) <==>
      exists r | r in s.records :: r.email == email && r.expiresAt >= now && LockActive(r, now)
    ensures out.result == IssueFailed(SendTooFrequent) <==>
      && (forall r | r in s.records && r.email == email && r.expiresAt >= now :: !LockActive(r, now))
      && (exists r | r in s.records :: r.email == email && r.expiresAt >= now && r.createdAt > now - CooldownMs)
    ensures out.result.IssueFailed? ==> out.result.error == AccountLocked || out.result.error == SendTooFrequent
    ensures out.result.Issued? ==>
      && Validations.SixDigits(out.result.code) && out.result.code[0] != '0'
      && out.store.records == Sweep(s.records, now) + [NewRecord(s, email, out.result.code, now)]
      && out.store.nextId == s.nextId + 1
  {
    var swept := CleanupExpiredCodes(s, now);
    if CheckLocked(swept, email, now).Some? then
      Issue(IssueFailed(AccountLocked), swept)
    else if !CheckSendCooldown(swept, email, now) then
      Issue(IssueFailed(SendTooFrequent), swept)
    else
      var code := GenerateCode(draw);
      Issue(Issued(code), Store(swept.records + [NewRecord(s, email, code, now)], s.nextId + 1))
  }

  datatype VerifyResult = Verified(record: Record) | VerifyFailed(error: ErrorKey)

  /** The result of `verifyCode` together with the table it leaves behind. */
  datatype Verification = Verification(result: VerifyResult, store: Store)

  /** The row `verifyCode` looks at: the latest-created unexpired row for the address. */
  function Candidate(s: Store, email: string, now: Time): (c: Option<Record>)
    ensures c.None? <==> forall r | r in s.records :: !(r.email == email && r.expiresAt > now)
    ensures c.Some? ==> c.value in s.records && c.value.email == email && c.value.expiresAt > now
    ensures c.Some? ==> forall r | r in s.records && r.email == email && r.expiresAt > now :: !IsLater(r, c.value)
  {
    Latest(s.records, Unexpired(email, now))
  }

  /** The steps of `verifyCode` once the candidate row is known: a running lock refuses
      without touching the table; a wrong code counts an attempt on that row alone, setting
      a 15-minute lock at the fifth and clearing the lock otherwise; a right code deletes
      the row and returns it. */
  function CheckCandidate(s: Store, record: Record, code: string, now: Time): (out: Verification)
    ensures out.result == VerifyFailed(AccountLocked) <==> LockActive(record, now)
    ensures LockActive(record, now) ==> out.store == s
    ensures out.result.Verified? <==> !LockActive(record, now) && record.code == HashCode(code)
    ensures out.result.Verified? ==>
      out.result.record == record && out.store == Store(DeleteById(s.records, record.id), s.nextId)
    ensures !LockActive(record, now) && record.code != HashCode(code) ==>
      && (out.result == VerifyFailed(TooManyAttempts) <==> record.attempts + 1 >= MaxAttempts)
      && (out.result == VerifyFailed(CodeInvalid) <==> record.attempts + 1 < MaxAttempts)
      && out.store == Store(SetAttempts(s.records, record.id, record.attempts + 1,
                                        if record.attempts + 1 >= MaxAttempts then Some(now + LockMs) else None),
                            s.nextId)
  {
    if record.lockedUntil.Some? && record.lockedUntil.value > now then
      Verification(VerifyFailed(AccountLocked), s)
    else if !Matches(code, record.code) then
      var newAttempts := record.attempts + 1;
      var lockedUntil := if newAttempts >= MaxAttempts then Some(now + LockMs) else None;
      var s' := Store(SetAttempts(s.records, record.id, newAttempts, lockedUntil), s.nextId);
      if lockedUntil.Some? then Verification(VerifyFailed(TooManyAttempts), s')
      else Verification(VerifyFailed(CodeInvalid), s')
    else
      Verification(Verified(record), Store(DeleteById(s.records, record.id), s.nextId))
  }

  /** `verifyCode`: only the candidate row is considered; without one the answer is
      `codeExpired` and the table is untouched. */
  function VerifyCode(s: Store, email: string, code: string, now: Time): (out: Verification)
    ensures out.result == VerifyFailed(CodeExpired) <==> Candidate(s, email, now).None?
    ensures Candidate(s, email, now).None? ==> out.store == s
    ensures Candidate(s, email, now).Some? ==> out == CheckCandidate(s, Candidate(s, email, now).value, code, now)
  {
    match Candidate(s, email, now)
    case None => Verification(VerifyFailed(CodeExpired), s)
    case Some(record) => CheckCandidate(s, record, code, now)
  }
}

/** The `email_verification_codes` table and the queries run against it
    (platform/lib/repositories/verification.ts, record shape in platform/types/auth.ts).
    The table is a sequence of rows; every query is a pure function of it. */
module CodeStore {
  import opened Base

  /** A bcrypt digest. bcrypt is modelled as an injective hash: comparing a candidate
      with the digest of a code succeeds exactly when the candidate is that code. */
  datatype CodeHash = Bcrypt(preimage: string)

  function HashCode(code: string): CodeHash {
    Bcrypt(code)
  }

  /** `bcrypt.compare(candidate, h)`. */
  function Matches(candidate: string, h: CodeHash): (ok: bool)
    ensures ok <==> h == HashCode(candidate)
  {
    h.preimage == candidate
  }

  /** One row: an issued code challenge for an address. */
  datatype Record = Record(
    id: nat,
    email: string,
    code: CodeHash,
    createdAt: Time,
    expiresAt: Time,
    attempts: nat,
    lockedUntil: Option<Time>)

  /** The table, with the next value of its serial `id` column. */
  datatype Store = Store(records: seq<Record>, nextId: nat)

  /** The row is under a lock that has not yet run out. */
  predicate LockActive(r: Record, now: Time) {
    r.lockedUntil.Some? && r.lockedUntil.value > now
  }

  /** `a` sorts before `b` under `ORDER BY "createdAt" DESC`. The database leaves ties
      unordered; the model breaks them toward the larger (later-assigned) id. */
  predicate IsLater(a: Record, b: Record) {
    a.createdAt > b.createdAt || (a.createdAt == b.createdAt && a.id > b.id)
  }

  /** The two `WHERE` clauses that are followed by `ORDER BY "createdAt" DESC LIMIT 1`. */
  datatype Query =
    | Unexpired(email: string, now: Time)   // email = $1 AND "expiresAt" > NOW()
    | Locked(email: string, now: Time)      // email = $1 AND "lockedUntil" > NOW()

  predicate Selects(q: Query, r: Record) {
    match q
    case Unexpired(email, now) => r.email == email && r.expiresAt > now
    case Locked(email, now) => r.email == email && LockActive(r, now)
  }

  /** The first row of `WHERE q ORDER BY "createdAt" DESC LIMIT 1`, if any. */
  function Latest(rs: seq<Record>, q: Query): (best: Option<Record>)
    ensures best.None? <==> forall r | r in rs :: !Selects(q, r)
    ensures best.Some? ==> best.value in rs && Selects(q, best.value)
    ensures best.Some? ==> forall r | r in rs && Selects(q, r) :: !IsLater(r, best.value)
    decreases |rs|
  {
    if rs == [] then None
    else
      var rest := Latest(rs[1..], q);
      if !Selects(q, rs[0]) then rest
      else if rest.Some? && IsLater(rest.value, rs[0]) then rest
      else Some(rs[0])
  }

  /** `DELETE ... WHERE "expiresAt" < NOW()`: the rows kept, in their order. */
  function Sweep(rs: seq<Record>, now: Time): (kept: seq<Record>)
    ensures forall r :: r in kept <==> r in rs && r.expiresAt >= now
    ensures |kept| <= |rs|
  {
    if rs == [] then []
    else if rs[0].expiresAt < now then Sweep(rs[1..], now)
    else [rs[0]] + Sweep(rs[1..], now)
  }

  /** `SELECT COUNT(*) ... WHERE email = $1 AND "createdAt" > $2`. */
  function CountCreatedAfter(rs: seq<Record>, email: string, since: Time): (n: nat)
    ensures n <= |rs|
    ensures n == 0 <==> forall r | r in rs :: !(r.email == email && r.createdAt > since)
  {
    if rs == [] then 0
    else (if rs[0].email == email && rs[0].createdAt > since then 1 else 0) + CountCreatedAfter(rs[1..], email, since)
  }

  /** `UPDATE ... SET attempts = $1, "lockedUntil" = $2 WHERE id = $3`. */
  function SetAttempts(rs: seq<Record>, id: nat, attempts: nat, lockedUntil: Option<Time>): (rs': seq<Record>)
    ensures |rs'| == |rs|
    ensures forall i | 0 <= i < |rs| :: rs[i].id != id ==> rs'[i] == rs[i]
    ensures forall i | 0 <= i < |rs| :: rs[i].id == id ==>
      rs'[i] == rs[i].(attempts := attempts, lockedUntil := lockedUntil)
  {
    if rs == [] then []
    else
      var head := if rs[0].id == id then rs[0].(attempts := attempts, lockedUntil := lockedUntil) else rs[0];
      [head] + SetAttempts(rs[1..], id, attempts, lockedUntil)
  }

  /** `DELETE ... WHERE id = $1`. */
  function DeleteById(rs: seq<Record>, id: nat): (rs': seq<Record>)
    ensures forall r :: r in rs' <==> r in rs && r.id != id
    ensures |rs'| <= |rs|
  {
    if rs == [] then []
    else if rs[0].id == id then DeleteById(rs[1..], id)
    else [rs[0]] + DeleteById(rs[1..], id)
  }

  /** `id` is the table's primary key: two rows with one id are the same row. */
  predicate UniqueIds(rs: seq<Record>) {
    forall r1, r2 | r1 in rs && r2 in rs && r1.id == r2.id :: r1 == r2
  }

  /** On a table keyed by id, updating one row's attempts and lock changes that row and
      nothing else: every other row stays, the row itself is replaced by its update, and
      ids stay unique. */
  lemma SetAttemptsOnlyTarget(rs: seq<Record>, target: Record, attempts: nat, lockedUntil: Option<Time>)
    requires UniqueIds(rs) && target in rs
    ensures var rs' := SetAttempts(rs, target.id, attempts, lockedUntil);
      && UniqueIds(rs')
      && target.(attempts := attempts, lockedUntil := lockedUntil) in rs'
      && (forall r | r in rs && r.id != target.id :: r in rs')
      && (forall r | r in rs' :: r == target.(attempts := attempts, lockedUntil := lockedUntil) || (r in rs && r.id != target.id))
  {
    var rs' := SetAttempts(rs, target.id, attempts, lockedUntil);
    var updated := target.(attempts := attempts, lockedUntil := lockedUntil);
    forall r | r in rs'
      ensures r == updated || (r in rs && r.id != target.id)
    {
      var i :| 0 <= i < |rs'| && rs'[i] == r;
      var w := rs[i];
      assert w in rs;
      if w.id == target.id {
        assert w == target;
        assert r == updated;
      } else {
        assert r == w;
      }
    }
    forall r | r in rs && r.id != target.id
      ensures r in rs'
    {
      var i :| 0 <= i < |rs| && rs[i] == r;
      assert rs'[i] == r;
    }
    var k :| 0 <= k < |rs| && rs[k] == target;
    assert rs'[k] == updated;
    forall r1, r2 | r1 in rs' && r2 in rs' && r1.id == r2.id
      ensures r1 == r2
    {
      if r1 != updated && r2 != updated {
        assert r1 in rs && r2 in rs;
      }
    }
  }

  /** The half of `SetAttemptsOnlyTarget` that bounds what the updated table holds. */
  lemma SetAttemptsRows(rs: seq<Record>, target: Record, attempts: nat, lockedUntil: Option<Time>)
    requires UniqueIds(rs) && target in rs
    ensures UniqueIds(SetAttempts(rs, target.id, attempts, lockedUntil))
    ensures forall r | r in SetAttempts(rs, target.id, attempts, lockedUntil) ::
      r == target.(attempts := attempts, lockedUntil := lockedUntil) || r in rs
  {
    SetAttemptsOnlyTarget(rs, target, attempts, lockedUntil);
  }

  /** Deleting an id no row carries leaves the table as it was. */
  lemma {:induction false} DeleteAbsent(rs: seq<Record>, id: nat)
    requires forall r | r in rs :: r.id != id
    ensures DeleteById(rs, id) == rs
    decreases |rs|
  {
    if rs != [] {
      DeleteAbsent(rs[1..], id);
    }
  }

  /** Deleting by id distributes over concatenation. */
  lemma {:induction false} DeleteConcat(a: seq<Record>, b: seq<Record>, id: nat)
    ensures DeleteById(a + b, id) == DeleteById(a, id) + DeleteById(b, id)
    decreases |a|
  {
    if a != [] {
      assert (a + b)[0] == a[0];
      assert (a + b)[1..] == a[1..] + b;
      DeleteConcat(a[1..], b, id);
      if a[0].id != id {
        assert DeleteById(a + b, id) == [a[0]] + DeleteById(a[1..] + b, id);
        assert DeleteById(a, id) == [a[0]] + DeleteById(a[1..], id);
      }
    } else {
      assert a + b == b;
    }
  }
}

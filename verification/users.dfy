/** The `users` table and its queries (platform/lib/repositories/users.ts). */
module Users {
  import opened Base

  datatype User = User(id: nat, email: string, name: Option<string>, emailVerified: Option<Time>)

  /** The table, with the next value of its serial `id` column. */
  datatype Table = Table(rows: seq<User>, nextId: nat)

  /** `id` is the primary key, and every id in use was handed out before `nextId`. */
  predicate WellFormed(t: Table) {
    && (forall u1, u2 | u1 in t.rows && u2 in t.rows && u1.id == u2.id :: u1 == u2)
    && (forall u | u in t.rows :: u.id < t.nextId)
  }

  /** `getUserByEmail`: a row with that email (the first one the scan meets), or None
      exactly when no row has it. */
  function GetUserByEmail(t: Table, email: string): (u: Option<User>)
    ensures u.None? <==> forall v | v in t.rows :: v.email != email
    ensures u.Some? ==> u.value in t.rows && u.value.email == email
    decreases |t.rows|
  {
    if t.rows == [] then None
    else if t.rows[0].email == email then Some(t.rows[0])
    else GetUserByEmail(t.(rows := t.rows[1..]), email)
  }

  /** `getUserById`: the row with that id, or None exactly when there is none. */
  function GetUserById(t: Table, userId: nat): (u: Option<User>)
    ensures u.None? <==> forall v | v in t.rows :: v.id != userId
    ensures u.Some? ==> u.value in t.rows && u.value.id == userId
    decreases |t.rows|
  {
    if t.rows == [] then None
    else if t.rows[0].id == userId then Some(t.rows[0])
    else GetUserById(t.(rows := t.rows[1..]), userId)
  }

  datatype Created = Created(id: nat, table: Table)

  /** `createUser`: inserts one row with the email and name, verified now, under a fresh id. */
  function CreateUser(t: Table, email: string, name: Option<string>, now: Time): (out: Created)
    ensures WellFormed(t) ==> forall u | u in t.rows :: u.id != out.id
    ensures WellFormed(t) ==> WellFormed(out.table)
    ensures WellFormed(t) ==> GetUserById(out.table, out.id) == Some(User(out.id, email, name, Some(now)))
    ensures forall u | u in t.rows :: u in out.table.rows
    ensures |out.table.rows| == |t.rows| + 1
  {
    var u := User(t.nextId, email, name, Some(now));
    Created(t.nextId, Table(t.rows + [u], t.nextId + 1))
  }

  /** `updateUserEmailVerified`: only the `emailVerified` field of row `userId` changes. */
  function UpdateUserEmailVerified(t: Table, userId: nat, now: Time): (t': Table)
    ensures t'.nextId == t.nextId && |t'.rows| == |t.rows|
    ensures forall i | 0 <= i < |t.rows| ::
      && t'.rows[i].id == t.rows[i].id
      && t'.rows[i].email == t.rows[i].email
      && t'.rows[i].name == t.rows[i].name
      && t'.rows[i].emailVerified == (if t.rows[i].id == userId then Some(now) else t.rows[i].emailVerified)
    decreases |t.rows|
  {
    if t.rows == [] then t
    else
      var head := if t.rows[0].id == userId then t.rows[0].(emailVerified := Some(now)) else t.rows[0];
      var rest := UpdateUserEmailVerified(t.(rows := t.rows[1..]), userId, now);
      rest.(rows := [head] + rest.rows)
  }

  /** `updateUserEmail`: only the `email` and `emailVerified` fields of row `userId` change. */
  function UpdateUserEmail(t: Table, userId: int, email: string, now: Time): (t': Table)
    ensures t'.nextId == t.nextId && |t'.rows| == |t.rows|
    ensures forall i | 0 <= i < |t.rows| ::
      && t'.rows[i].id == t.rows[i].id
      && t'.rows[i].name == t.rows[i].name
      && t'.rows[i].email == (if t.rows[i].id == userId then email else t.rows[i].email)
      && t'.rows[i].emailVerified == (if t.rows[i].id == userId then Some(now) else t.rows[i].emailVerified)
    decreases |t.rows|
  {
    if t.rows == [] then t
    else
      var head := if t.rows[0].id == userId then t.rows[0].(email := email, emailVerified := Some(now)) else t.rows[0];
      var rest := UpdateUserEmail(t.(rows := t.rows[1..]), userId, email, now);
      rest.(rows := [head] + rest.rows)
  }

  /** `isEmailUsedByOtherUser`: some row has the email under an id other than `excludeUserId`. */
  function IsEmailUsedByOtherUser(t: Table, email: string, excludeUserId: int): (used: bool)
    ensures used <==> exists u | u in t.rows :: u.email == email && u.id != excludeUserId
    decreases |t.rows|
  {
    if t.rows == [] then false
    else (t.rows[0].email == email && t.rows[0].id != excludeUserId)
         || IsEmailUsedByOtherUser(t.(rows := t.rows[1..]), email, excludeUserId)
  }

  /** After `createUser`, looking the email up finds a row (not necessarily the new one
      when an older row already had the email). */
  lemma CreateThenFindByEmail(t: Table, email: string, name: Option<string>, now: Time)
    ensures GetUserByEmail(CreateUser(t, email, name, now).table, email).Some?
  {
    var out := CreateUser(t, email, name, now);
    assert out.table.rows[|t.rows|].email == email;
  }

  /** Row i after `updateUserEmailVerified`, as a whole record. */
  lemma UpdateVerifiedRow(t: Table, userId: nat, now: Time, i: nat)
    requires i < |t.rows|
    ensures var t' := UpdateUserEmailVerified(t, userId, now);
      i < |t'.rows| &&
      t'.rows[i] == (if t.rows[i].id == userId then t.rows[i].(emailVerified := Some(now)) else t.rows[i])
  {
  }

  /** Row i after `updateUserEmail`, as a whole record. */
  lemma UpdateEmailRow(t: Table, userId: int, email: string, now: Time, i: nat)
    requires i < |t.rows|
    ensures var t' := UpdateUserEmail(t, userId, email, now);
      i < |t'.rows| &&
      t'.rows[i] == (if t.rows[i].id == userId then t.rows[i].(email := email, emailVerified := Some(now)) else t.rows[i])
  {
  }

  /** The rows after `updateUserEmail` on a well-formed table: the updated row, and the
      untouched rows of every other id. */
  lemma UpdateEmailRows(t: Table, userId: int, email: string, now: Time, before: User)
    requires WellFormed(t) && before in t.rows && before.id == userId
    ensures var t' := UpdateUserEmail(t, userId, email, now);
      && before.(email := email, emailVerified := Some(now)) in t'.rows
      && forall u | u in t'.rows :: u == before.(email := email, emailVerified := Some(now)) || (u in t.rows && u.id != userId)
  {
    var t' := UpdateUserEmail(t, userId, email, now);
    forall u | u in t'.rows
      ensures u == before.(email := email, emailVerified := Some(now)) || (u in t.rows && u.id != userId)
    {
      var i :| 0 <= i < |t'.rows| && t'.rows[i] == u;
      UpdateEmailRow(t, userId, email, now, i);
      assert t.rows[i] in t.rows;
    }
    var k :| 0 <= k < |t.rows| && t.rows[k] == before;
    UpdateEmailRow(t, userId, email, now, k);
  }

  /** After `updateUserEmail` on an existing row of a well-formed table, that row carries
      the new email, verified now, and keeps its id and name; the table stays well formed. */
  lemma UpdateEmailThenGet(t: Table, userId: nat, email: string, now: Time)
    requires WellFormed(t)
    requires GetUserById(t, userId).Some?
    ensures var t' := UpdateUserEmail(t, userId, email, now);
      && WellFormed(t')
      && GetUserById(t', userId) == Some(GetUserById(t, userId).value.(email := email, emailVerified := Some(now)))
  {
    var before := GetUserById(t, userId).value;
    var after := before.(email := email, emailVerified := Some(now));
    var t' := UpdateUserEmail(t, userId, email, now);
    UpdateEmailRows(t, userId, email, now, before);
    assert GetUserById(t', userId).value == after;
    forall u1, u2 | u1 in t'.rows && u2 in t'.rows && u1.id == u2.id
      ensures u1 == u2
    {
      if u1 != after && u2 != after {
        assert u1 in t.rows && u2 in t.rows;
      }
    }
  }
}

/** The database invariants the service maintains: primary key, unique
    case-insensitive emails, one `server_acl` row per user, stream grants
    that point at existing streams and users, and at least one administrator
    whenever a user exists. Every successful operation preserves them. */
module Invariants {
  import opened Results
  import opened Roles
  import opened Db
  import opened AdminGuard
  import opened Users
  import Text

  ghost predicate Valid(s: State)
  {
    && DistinctIds(s.users)
    && DistinctEmails(s.users)
    && s.acl.Keys == UserIds(s.users)
    && (forall g :: g in s.streamAcl ==> g.resourceId in s.streams && g.userId in UserIds(s.users))
    && (|s.users| > 0 ==> AdminIds(s.acl) != {})
  }

  lemma EmptyStateIsValid()
    ensures Valid(EmptyState)
  {
  }

  /** Appending a row with a fresh id and an unused email keeps the keys. */
  lemma AppendKeepsDistinct(users: seq<UserRecord>, rec: UserRecord)
    requires DistinctIds(users) && DistinctEmails(users)
    requires rec.id !in UserIds(users)
    requires forall u :: u in users ==> Text.Lower(u.email) != Text.Lower(rec.email)
    ensures DistinctIds(users + [rec]) && DistinctEmails(users + [rec])
    ensures UserIds(users + [rec]) == UserIds(users) + {rec.id}
  {
  }

  lemma {:induction false} CreateUserPreservesValid(s: State, user: NewUser, guestModeEnabled: bool, newId: UserId,
                                                    now: int, hash: string -> string)
    requires Valid(s) && newId !in UserIds(s.users)
    requires CreateUser(s, user, guestModeEnabled, newId, now, hash).Ok?
    ensures Valid(CreateUser(s, user, guestModeEnabled, newId, now, hash).value.0)
  {
    var t := CreateUser(s, user, guestModeEnabled, newId, now, hash).value.0;
    var rec := t.users[|s.users|];
    assert t.users == s.users + [rec];
    Text.LowerIdempotent(user.email);
    assert !EmailInUse(s.users, user.email);
    forall u | u in s.users ensures Text.Lower(u.email) != Text.Lower(rec.email) {
      assert !Selects(ByEmail(user.email), u);
    }
    AppendKeepsDistinct(s.users, rec);
    if AdminIds(s.acl) == {} {
      assert newId in AdminIds(t.acl);
    } else {
      var a :| a in AdminIds(s.acl);
      assert a in AdminIds(t.acl);
    }
  }

  lemma FindOrCreateUserPreservesValid(s: State, user: NewUser, guestModeEnabled: bool, newId: UserId, now: int,
                                       generatedPassword: string, hash: string -> string)
    requires Valid(s) && newId !in UserIds(s.users)
    requires |generatedPassword| == GeneratedPasswordLength
    ensures Valid(FindOrCreateUser(s, user, guestModeEnabled, newId, now, generatedPassword, hash).value.0)
  {
    if !EmailInUse(s.users, user.email) {
      CreateUserPreservesValid(s, user.(password := Some(generatedPassword), verified := true),
                               guestModeEnabled, newId, now, hash);
    }
  }

  lemma ChangeUserRolePreservesValid(s: State, userId: UserId, role: string, guestModeEnabled: bool)
    requires Valid(s)
    requires ChangeUserRole(s, userId, role, guestModeEnabled).Ok?
    ensures Valid(ChangeUserRole(s, userId, role, guestModeEnabled).value)
  {
  }

  lemma DeleteUserPreservesValid(s: State, userId: UserId)
    requires Valid(s)
    requires DeleteUser(s, userId).Ok?
    ensures Valid(DeleteUser(s, userId).value.0)
  {
    var t := DeleteUser(s, userId).value.0;
    WithoutUserKeepsDistinct(s.users, userId);
    assert UserIds(t.users) == UserIds(s.users) - {userId};
    if |t.users| > 0 {
      assert |s.users| > 0;
    }
  }

  lemma UpdateUserPasswordPreservesValid(s: State, userId: UserId, newPassword: string, hash: string -> string)
    requires Valid(s)
    requires UpdateUserPassword(s, userId, newPassword, hash).Ok?
    ensures Valid(UpdateUserPassword(s, userId, newPassword, hash).value)
  {
  }

  /** With the primary key in place, `deleteUser` reports 1 when the user
      existed and 0 otherwise. */
  lemma DeleteUserRowCount(s: State, userId: UserId)
    requires DistinctIds(s.users)
    requires DeleteUser(s, userId).Ok?
    ensures DeleteUser(s, userId).value.1 == (if userId in UserIds(s.users) then 1 else 0)
  {
    WithoutUserRemovesAtMostOne(s.users, userId);
  }

  /** The mutating operations of the service, with the values the model takes
      as parameters (random ids and passwords, clock, guest-mode setting). */
  datatype Op =
    | Create(user: NewUser, guestModeEnabled: bool, newId: UserId, now: int)
    | FindOrCreate(user: NewUser, guestModeEnabled: bool, newId: UserId, now: int, generatedPassword: string)
    | ChangeRole(userId: UserId, role: string, guestModeEnabled: bool)
    | Delete(userId: UserId)
    | SetPassword(userId: UserId, newPassword: string)

  /** An operation can be issued: its random id is fresh and its generated
      password has the generated length. */
  predicate Issuable(s: State, op: Op)
  {
    match op
    case Create(_, _, newId, _) => newId !in UserIds(s.users)
    case FindOrCreate(_, _, newId, _, pw) => newId !in UserIds(s.users) && |pw| == GeneratedPasswordLength
    case _ => true
  }

  /** The state after `op`; an operation that throws leaves the database as
      it was. */
  function Apply(s: State, op: Op, hash: string -> string): State
    requires Issuable(s, op)
  {
    match op
    case Create(user, g, newId, now) =>
      (match CreateUser(s, user, g, newId, now, hash) case Ok(v) => v.0 case Err(_) => s)
    case FindOrCreate(user, g, newId, now, pw) =>
      (match FindOrCreateUser(s, user, g, newId, now, pw, hash) case Ok(v) => v.0 case Err(_) => s)
    case ChangeRole(userId, role, g) =>
      (match ChangeUserRole(s, userId, role, g) case Ok(t) => t case Err(_) => s)
    case Delete(userId) =>
      (match DeleteUser(s, userId) case Ok(v) => v.0 case Err(_) => s)
    case SetPassword(userId, pw) =>
      (match UpdateUserPassword(s, userId, pw, hash) case Ok(t) => t case Err(_) => s)
  }

  /** Runs a sequence of operations from `s`, skipping any that cannot be
      issued. */
  function Run(s: State, ops: seq<Op>, hash: string -> string): State
    decreases |ops|
  {
    if |ops| == 0 then s
    else
      var next := if Issuable(s, ops[0]) then Apply(s, ops[0], hash) else s;
      Run(next, ops[1..], hash)
  }

  /** Every operation preserves the invariants. */
  lemma ApplyPreservesValid(s: State, op: Op, hash: string -> string)
    requires Valid(s) && Issuable(s, op)
    ensures Valid(Apply(s, op, hash))
  {
    match op
    case Create(user, g, newId, now) =>
      if CreateUser(s, user, g, newId, now, hash).Ok? {
        CreateUserPreservesValid(s, user, g, newId, now, hash);
      }
    case FindOrCreate(user, g, newId, now, pw) =>
      FindOrCreateUserPreservesValid(s, user, g, newId, now, pw, hash);
    case ChangeRole(userId, role, g) =>
      if ChangeUserRole(s, userId, role, g).Ok? {
        ChangeUserRolePreservesValid(s, userId, role, g);
      }
    case Delete(userId) =>
      if DeleteUser(s, userId).Ok? {
        DeleteUserPreservesValid(s, userId);
      }
    case SetPassword(userId, pw) =>
      if UpdateUserPassword(s, userId, pw, hash).Ok? {
        UpdateUserPasswordPreservesValid(s, userId, pw, hash);
      }
  }

  /** From any valid database, any sequence of operations leaves unique
      emails and at least one administrator whenever a user exists. */
  lemma {:induction false} RunPreservesValid(s: State, ops: seq<Op>, hash: string -> string)
    requires Valid(s)
    ensures Valid(Run(s, ops, hash))
    decreases |ops|
  {
    if |ops| > 0 {
      var next := if Issuable(s, ops[0]) then Apply(s, ops[0], hash) else s;
      if Issuable(s, ops[0]) {
        ApplyPreservesValid(s, ops[0], hash);
      }
      RunPreservesValid(next, ops[1..], hash);
    }
  }

  /** The bootstrap rule: the first user ever created is an administrator,
      whatever role it asked for. */
  lemma FirstUserIsAdmin(user: NewUser, guestModeEnabled: bool, newId: UserId, now: int, hash: string -> string)
    requires CreateUser(EmptyState, user, guestModeEnabled, newId, now, hash).Ok?
    ensures GetUserRole(CreateUser(EmptyState, user, guestModeEnabled, newId, now, hash).value.0, newId) == Some(Admin)
  {
  }
}

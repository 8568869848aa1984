/** The user service: account creation with its role bootstrap, lookups,
    the password gate, role changes guarded by the administrator quorum,
    and deletion with its cascade over solely owned streams. */
module Users {
  import opened Results
  import opened Roles
  import opened Db
  import opened AdminGuard
  import Text
  import SetFacts

  /** `MINIMUM_PASSWORD_LENGTH` of the password-management module. */
  const MinimumPasswordLength: nat := 8

  /** Length of the random password given to externally authenticated users. */
  const GeneratedPasswordLength: nat := 20

  /** The `where` clauses used to find a single user. */
  datatype Lookup = ById(id: UserId) | ByEmail(email: string)

  /** Whether row `u` satisfies the lookup; `ByEmail` is `userByEmailQuery`,
      `lower(email) = lower(?)`. */
  predicate Selects(key: Lookup, u: UserRecord)
  {
    match key
    case ById(id) => u.id == id
    case ByEmail(email) => Text.Lower(u.email) == Text.Lower(email)
  }

  /** Some row of the table has this email, compared case-insensitively. */
  predicate EmailInUse(users: seq<UserRecord>, email: string)
  {
    exists u :: u in users && Selects(ByEmail(email), u)
  }

  /** `.first()`: the position, in storage order, of the first row the lookup
      selects. */
  function FirstIndex(users: seq<UserRecord>, key: Lookup): (r: Option<nat>)
    ensures r.Some? ==> r.value < |users| && Selects(key, users[r.value])
    ensures forall j :: 0 <= j < |users| && (r.None? || j < r.value) ==> !Selects(key, users[j])
  {
    if |users| == 0 then None
    else if Selects(key, users[0]) then Some(0)
    else
      match FirstIndex(users[1..], key)
      case None => None
      case Some(k) => Some(k + 1)
  }

  /** The first-match specification pins the position down: a selected row
      with no selected row before it is the one `.first()` returns. */
  lemma FirstIndexIsFirstMatch(users: seq<UserRecord>, key: Lookup, i: nat)
    requires i < |users| && Selects(key, users[i])
    requires forall j :: 0 <= j < i ==> !Selects(key, users[j])
    ensures FirstIndex(users, key) == Some(i)
  {
  }

  /** The first row the lookup selects, if any. */
  function First(users: seq<UserRecord>, key: Lookup): Option<UserRecord>
  {
    match FirstIndex(users, key)
    case None => None
    case Some(i) => Some(users[i])
  }

  /** `userByEmailQuery(email).first()`: the first row whose email equals
      `email` once both are lower-cased. */
  function UserByEmailQuery(users: seq<UserRecord>, email: string): (r: Option<UserRecord>)
    ensures r.None? <==> !EmailInUse(users, email)
    ensures r.Some? ==> r.value in users && Text.Lower(r.value.email) == Text.Lower(email)
  {
    First(users, ByEmail(email))
  }

  /** The fields a caller may supply when creating a user (the allow-list
      `id, bio, email, password, name, company, verified`, plus the requested
      `role`; a supplied `id` is always overwritten). */
  datatype NewUser = NewUser(
    email: string,
    name: Option<string>,
    company: Option<string>,
    bio: Option<string>,
    password: Option<string>,
    role: Option<string>,
    verified: bool)

  /** `if (user.password)`: a password counts as supplied when it is present
      and not the empty string. */
  predicate PasswordSupplied(password: Option<string>)
  {
    password.Some? && password.value != ""
  }

  /** The requested role is kept when it is a server role and is not Guest
      while guest mode is off; otherwise it is dropped without an error. */
  function ResolveRequestedRole(requested: Option<string>, guestModeEnabled: bool): Option<ServerRole>
  {
    match requested
    case None => None
    case Some(name) =>
      match ParseServerRole(name)
      case None => None
      case Some(role) => if role != Guest || guestModeEnabled then Some(role) else None
  }

  /** `createUser`. `newId` stands for the random id, `now` for the row's
      creation time and `hash` for bcrypt. Both failures leave the database
      as it was. */
  function CreateUser(s: State, user: NewUser, guestModeEnabled: bool, newId: UserId, now: int,
                      hash: string -> string): (r: Result<(State, UserId), ServiceError>)
    requires newId !in UserIds(s.users)
    // the password gate runs before the email check
    ensures PasswordSupplied(user.password) && |user.password.value| < MinimumPasswordLength
      ==> r == Err(PasswordTooShort(MinimumPasswordLength))
    ensures !(PasswordSupplied(user.password) && |user.password.value| < MinimumPasswordLength)
      ==> (r.Err? <==> EmailInUse(s.users, user.email))
    // past the password gate, a taken email (ignoring case) is refused as such
    ensures (!(PasswordSupplied(user.password) && |user.password.value| < MinimumPasswordLength)
             && EmailInUse(s.users, user.email)) ==> r == Err(EmailTaken)
    ensures r.Err? ==> r.error == PasswordTooShort(MinimumPasswordLength) || r.error == EmailTaken
    // exactly one row is appended, with the email lower-cased and only a digest of the password
    ensures r.Ok? ==> r.value.1 == newId
    ensures r.Ok? ==> r.value.0.users == s.users + [UserRecord(newId, Text.Lower(user.email),
      user.name, user.company, user.bio,
      if PasswordSupplied(user.password) then Some(hash(user.password.value)) else None,
      user.verified, now)]
    // exactly one grant is added and no other grant changes
    ensures r.Ok? ==> r.value.0.acl.Keys == s.acl.Keys + {newId}
    ensures r.Ok? ==> forall u :: u in s.acl && u != newId ==> r.value.0.acl[u] == s.acl[u]
    // bootstrap: with no administrator, the new user is one whatever it asked for
    ensures r.Ok? && AdminIds(s.acl) == {} ==> r.value.0.acl[newId] == Admin
    // otherwise the requested role when it names a grantable role, else User
    ensures r.Ok? && AdminIds(s.acl) != {} ==>
      if user.role.Some? && exists role :: ServerRoleName(role) == user.role.value && (role != Guest || guestModeEnabled)
      then ServerRoleName(r.value.0.acl[newId]) == user.role.value
      else r.value.0.acl[newId] == User
    ensures r.Ok? ==> (r.value.0.streams == s.streams && r.value.0.streamAcl == s.streamAcl
                       && r.value.0.invites == s.invites)
  {
    var expectedRole := ResolveRequestedRole(user.role, guestModeEnabled);
    var email := Text.Lower(user.email);
    if PasswordSupplied(user.password) && |user.password.value| < MinimumPasswordLength then
      Err(PasswordTooShort(MinimumPasswordLength))
    else
      var digest := if PasswordSupplied(user.password) then Some(hash(user.password.value)) else None;
      Text.LowerIdempotent(user.email);
      if UserByEmailQuery(s.users, email).Some? then
        Err(EmailTaken)
      else
        var record := UserRecord(newId, email, user.name, user.company, user.bio, digest, user.verified, now);
        var role := if CountAdminUsers(s.acl) == 0 then Admin else expectedRole.GetOr(User);
        NoAdminIds(s.acl);
        Ok((s.(users := s.users + [record], acl := s.acl[newId := role]), newId))
  }

  /** What `findOrCreateUser` returns; `isNewUser` is false (absent in the
      source) when the user already existed. */
  datatype FoundUser = FoundUser(id: UserId, email: string, isNewUser: bool)

  /** `findOrCreateUser`, for identities vouched for by an external provider.
      `generatedPassword` stands for the random 20-character password. */
  function FindOrCreateUser(s: State, user: NewUser, guestModeEnabled: bool, newId: UserId, now: int,
                            generatedPassword: string, hash: string -> string): (r: Result<(State, FoundUser), ServiceError>)
    requires newId !in UserIds(s.users)
    requires |generatedPassword| == GeneratedPasswordLength
    ensures r.Ok?
    // an existing user (case-insensitive email) is returned and nothing changes
    ensures EmailInUse(s.users, user.email) ==>
      exists i :: 0 <= i < |s.users| && FirstIndex(s.users, ByEmail(user.email)) == Some(i)
        && r.value == (s, FoundUser(s.users[i].id, s.users[i].email, false))
    // otherwise exactly one verified user with a digest is created; the
    // returned email is the caller's, not the lower-cased one
    ensures !EmailInUse(s.users, user.email) ==>
      && r.value.1 == FoundUser(newId, user.email, true)
      && r.value.0.users == s.users + [UserRecord(newId, Text.Lower(user.email),
           user.name, user.company, user.bio, Some(hash(generatedPassword)), true, now)]
      && r.value.0.acl.Keys == s.acl.Keys + {newId}
      && (forall u :: u in s.acl && u != newId ==> r.value.0.acl[u] == s.acl[u])
      && r.value.0.streams == s.streams && r.value.0.streamAcl == s.streamAcl
      && r.value.0.invites == s.invites
    // the new user's role follows the rule of `createUser`
    ensures !EmailInUse(s.users, user.email) && AdminIds(s.acl) == {} ==> r.value.0.acl[newId] == Admin
    ensures !EmailInUse(s.users, user.email) && AdminIds(s.acl) != {} ==>
      if user.role.Some? && exists role :: ServerRoleName(role) == user.role.value && (role != Guest || guestModeEnabled)
      then ServerRoleName(r.value.0.acl[newId]) == user.role.value
      else r.value.0.acl[newId] == User
  {
    match UserByEmailQuery(s.users, user.email)
    case Some(existing) => Ok((s, FoundUser(existing.id, existing.email, false)))
    case None =>
      match CreateUser(s, user.(password := Some(generatedPassword), verified := true),
                       guestModeEnabled, newId, now, hash)
      case Err(e) => Err(e)
      case Ok(created) => Ok((created.0, FoundUser(created.1, user.email, true)))
  }

  /** Two lookups whose emails agree once lower-cased find the same row. */
  lemma FirstIndexByEmailIgnoresCase(users: seq<UserRecord>, a: string, b: string)
    requires Text.Lower(a) == Text.Lower(b)
    ensures FirstIndex(users, ByEmail(a)) == FirstIndex(users, ByEmail(b))
  {
  }

  /** Calling `findOrCreateUser` again with the same email (in any case)
      returns the same id and changes nothing. */
  lemma FindOrCreateUserIdempotent(s: State, user: NewUser, guestModeEnabled: bool, newId: UserId, now: int,
                                   generatedPassword: string, hash: string -> string,
                                   again: NewUser, newId': UserId, now': int, generatedPassword': string)
    requires newId !in UserIds(s.users)
    requires |generatedPassword| == GeneratedPasswordLength && |generatedPassword'| == GeneratedPasswordLength
    requires Text.Lower(again.email) == Text.Lower(user.email)
    requires newId' !in UserIds(FindOrCreateUser(s, user, guestModeEnabled, newId, now, generatedPassword, hash).value.0.users)
    ensures var first := FindOrCreateUser(s, user, guestModeEnabled, newId, now, generatedPassword, hash).value;
            var second := FindOrCreateUser(first.0, again, guestModeEnabled, newId', now', generatedPassword', hash).value;
            second.0 == first.0 && second.1.id == first.1.id && !second.1.isNewUser
  {
    var first := FindOrCreateUser(s, user, guestModeEnabled, newId, now, generatedPassword, hash).value;
    var s1 := first.0;
    FirstIndexByEmailIgnoresCase(s1.users, again.email, user.email);
    if !EmailInUse(s.users, user.email) {
      var n := |s.users|;
      Text.LowerIdempotent(user.email);
      assert Selects(ByEmail(user.email), s1.users[n]);
      forall j | 0 <= j < n ensures !Selects(ByEmail(user.email), s1.users[j]) {
        assert s1.users[j] == s.users[j];
        assert s.users[j] in s.users;
      }
      FirstIndexIsFirstMatch(s1.users, ByEmail(user.email), n);
      assert s1.users[n] in s1.users;
    }
  }

  /** `getUserById`: the row with this id without its password digest, or
      nothing. */
  function GetUserById(s: State, userId: UserId): (r: Option<UserRecord>)
    ensures r.Some? <==> userId in UserIds(s.users)
    ensures r.Some? ==> (r.value.id == userId && r.value.passwordDigest.None?
                         && exists u :: u in s.users && u.id == userId && r.value == Sanitize(u))
  {
    match First(s.users, ById(userId))
    case None => None
    case Some(u) => Some(Sanitize(u))
  }

  /** `getUserByEmail`: the row whose email matches case-insensitively,
      without its password digest, or nothing. */
  function GetUserByEmail(s: State, email: string): (r: Option<UserRecord>)
    ensures r.Some? <==> EmailInUse(s.users, email)
    ensures r.Some? ==> (r.value.passwordDigest.None? && Text.Lower(r.value.email) == Text.Lower(email)
                         && exists u :: u in s.users && r.value == Sanitize(u))
  {
    match UserByEmailQuery(s.users, email)
    case None => None
    case Some(u) => Some(Sanitize(u))
  }

  /** `getUserRole`: the role in the user's `server_acl` row, or nothing. */
  function GetUserRole(s: State, userId: UserId): (r: Option<ServerRole>)
    ensures r.Some? <==> userId in s.acl
    ensures r.Some? ==> r.value == s.acl[userId]
  {
    if userId in s.acl then Some(s.acl[userId]) else None
  }

  /** `updateUserPassword`: the length gate, then the digest of every row
      with this id is replaced. Unlike creation, an empty password is
      rejected rather than skipped. */
  function UpdateUserPassword(s: State, userId: UserId, newPassword: string, hash: string -> string): (r: Result<State, ServiceError>)
    ensures r.Err? <==> |newPassword| < MinimumPasswordLength
    ensures r.Err? ==> r.error == PasswordTooShort(MinimumPasswordLength)
    ensures r.Ok? ==> |r.value.users| == |s.users|
    ensures r.Ok? ==> forall i :: 0 <= i < |s.users| ==>
      && Sanitize(r.value.users[i]) == Sanitize(s.users[i])
      && (s.users[i].id == userId ==> r.value.users[i].passwordDigest == Some(hash(newPassword)))
      && (s.users[i].id != userId ==> r.value.users[i] == s.users[i])
    ensures r.Ok? ==> (r.value.acl == s.acl && r.value.streams == s.streams
                       && r.value.streamAcl == s.streamAcl && r.value.invites == s.invites)
  {
    if |newPassword| < MinimumPasswordLength then
      Err(PasswordTooShort(MinimumPasswordLength))
    else
      var digest := hash(newPassword);
      Ok(s.(users := seq(|s.users|, i requires 0 <= i < |s.users| =>
        if s.users[i].id == userId then s.users[i].(passwordDigest := Some(digest)) else s.users[i])))
  }

  /** `changeUserRole`. Setting Admin skips the quorum guard; a user without
      a `server_acl` row is left as it is. */
  function ChangeUserRole(s: State, userId: UserId, role: string, guestModeEnabled: bool): (r: Result<State, ServiceError>)
    ensures (forall sr :: ServerRoleName(sr) != role) ==> r == Err(InvalidRole(role))
    ensures role == ServerRoleName(Guest) && !guestModeEnabled ==> r == Err(GuestRoleDisabled)
    ensures r.Ok? <==> exists sr :: ServerRoleName(sr) == role && (sr != Guest || guestModeEnabled)
                                    && (sr == Admin || AdminIds(s.acl) != {userId})
    ensures r.Err? ==> r.error in {InvalidRole(role), GuestRoleDisabled, LastAdmin}
    // a valid, allowed demotion of the sole administrator is refused by the guard
    ensures ((exists sr :: ServerRoleName(sr) == role && sr != Admin && (sr != Guest || guestModeEnabled))
             && AdminIds(s.acl) == {userId}) ==> r == Err(LastAdmin)
    // only the target's grant changes
    ensures r.Ok? ==> (r.value.users == s.users && r.value.streams == s.streams
                       && r.value.streamAcl == s.streamAcl && r.value.invites == s.invites)
    ensures r.Ok? ==> (r.value.acl.Keys == s.acl.Keys
                       && (userId in s.acl ==> ServerRoleName(r.value.acl[userId]) == role)
                       && forall u :: u in s.acl && u != userId ==> r.value.acl[u] == s.acl[u])
    // the quorum survives
    ensures r.Ok? && AdminIds(s.acl) != {} ==> AdminIds(r.value.acl) != {}
  {
    match ParseServerRole(role)
    case None => Err(InvalidRole(role))
    case Some(newRole) =>
      if !guestModeEnabled && newRole == Guest then
        Err(GuestRoleDisabled)
      else if newRole != Admin && EnsureAtLeastOneAdminRemains(s.acl, userId).Err? then
        Err(LastAdmin)
      else
        RoleChangeKeepsAnAdmin(s.acl, userId, newRole);
        Ok(s.(acl := SetUserRole(s.acl, userId, newRole)))
  }

  /** The users holding an Owner grant on stream `streamId`. */
  function OwnersOf(streamAcl: set<StreamGrant>, streamId: StreamId): set<UserId>
  {
    set g | g in streamAcl && g.resourceId == streamId && g.role == Owner :: g.userId
  }

  /** The streams whose only owner is `userId`. */
  function SoleOwnedStreams(streamAcl: set<StreamGrant>, userId: UserId): (r: set<StreamId>)
    ensures forall sid :: sid in r <==> OwnersOf(streamAcl, sid) == {userId}
  {
    var r := set g | g in streamAcl && g.userId == userId && g.role == Owner
                     && OwnersOf(streamAcl, g.resourceId) == {userId} :: g.resourceId;
    assert forall sid :: OwnersOf(streamAcl, sid) == {userId} ==> sid in r by {
      forall sid | OwnersOf(streamAcl, sid) == {userId} ensures sid in r {
        assert userId in OwnersOf(streamAcl, sid);
        var g :| g in streamAcl && g.resourceId == sid && g.role == Owner && g.userId == userId;
      }
    }
    r
  }

  /** The Owner rows of `stream_acl` for one stream. */
  function OwnerGrants(streamAcl: set<StreamGrant>, streamId: StreamId): set<StreamGrant>
  {
    set g | g in streamAcl && g.resourceId == streamId && g.role == Owner
  }

  /** The set form agrees with the SQL aggregate of `deleteUser`: among the
      streams on which the user holds Owner, those whose Owner row count is 1. */
  lemma SoleOwnedStreamsIsOwnerCountOne(streamAcl: set<StreamGrant>, userId: UserId, streamId: StreamId)
    ensures streamId in SoleOwnedStreams(streamAcl, userId)
      <==> StreamGrant(streamId, userId, Owner) in streamAcl && |OwnerGrants(streamAcl, streamId)| == 1
  {
    var mine := StreamGrant(streamId, userId, Owner);
    var grants := OwnerGrants(streamAcl, streamId);
    var owners := OwnersOf(streamAcl, streamId);
    if owners == {userId} {
      assert userId in owners;
      var g :| g in streamAcl && g.resourceId == streamId && g.role == Owner && g.userId == userId;
      assert g == mine;
      forall h | h in grants ensures h == mine {
        assert h.userId in owners;
      }
      assert grants == {mine};
    }
    if mine in streamAcl && |grants| == 1 {
      assert mine in grants;
      SetFacts.SingletonByCardinality(grants, mine);
      forall u | u in owners ensures u == userId {
        var h :| h in streamAcl && h.resourceId == streamId && h.role == Owner && h.userId == u;
        assert h in grants;
      }
      assert userId in owners;
      assert owners == {userId};
    }
  }

  /** `deleteUser`: the quorum guard, then the streams the user solely owns
      are deleted (with their grants), the user's invites are purged, and the
      user's row goes, taking its `server_acl` row and remaining stream
      grants with it. Returns the number of `users` rows deleted. */
  function DeleteUser(s: State, userId: UserId): (r: Result<(State, nat), ServiceError>)
    ensures r.Err? <==> AdminIds(s.acl) == {userId}
    ensures r.Err? ==> r.error == LastAdmin
    ensures r.Ok? ==> userId !in UserIds(r.value.0.users) && userId !in r.value.0.acl
    ensures r.Ok? ==> (forall u :: u in r.value.0.users <==> u in s.users && u.id != userId)
    ensures r.Ok? ==> r.value.1 == |s.users| - |r.value.0.users|
    ensures r.Ok? ==> r.value.0.acl == s.acl - {userId}
    // exactly the solely owned streams disappear
    ensures r.Ok? ==> forall sid ::
      sid in r.value.0.streams <==> sid in s.streams && OwnersOf(s.streamAcl, sid) != {userId}
    ensures r.Ok? ==> forall g ::
      g in r.value.0.streamAcl <==> g in s.streamAcl && g.userId != userId && OwnersOf(s.streamAcl, g.resourceId) != {userId}
    ensures r.Ok? ==> forall i :: i in r.value.0.invites <==> i in s.invites && i.userId != userId
    // the quorum survives
    ensures r.Ok? && AdminIds(s.acl) != {} ==> AdminIds(r.value.0.acl) != {}
  {
    if EnsureAtLeastOneAdminRemains(s.acl, userId).Err? then
      Err(LastAdmin)
    else
      var doomed := SoleOwnedStreams(s.streamAcl, userId);
      var remaining := WithoutUser(s.users, userId);
      GuardKeepsAnAdmin(s.acl, userId);
      Ok((State(remaining, s.acl - {userId}, s.streams - doomed,
                set g | g in s.streamAcl && g.resourceId !in doomed && g.userId != userId,
                set i | i in s.invites && i.userId != userId),
          |s.users| - |remaining|))
  }
}

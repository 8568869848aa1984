/** The administrator quorum: counting `server_acl` rows with the Admin role,
    the guard that refuses to remove the last one, and the raw role update. */
module AdminGuard {
  import opened Results
  import opened Roles
  import opened Db
  import SetFacts

  /** The users whose `server_acl` row holds the Admin role. */
  function AdminIds(acl: map<UserId, ServerRole>): set<UserId>
  {
    set u | u in acl && acl[u] == Admin
  }

  /** `countAdminUsers`: `SELECT count(*) FROM server_acl WHERE role = Admin`. */
  function CountAdminUsers(acl: map<UserId, ServerRole>): (n: nat)
    ensures n == 0 <==> forall u :: u in acl ==> acl[u] != Admin
  {
    NoAdminIds(acl);
    |AdminIds(acl)|
  }

  /** The set of administrators is empty exactly when no row holds Admin. */
  lemma NoAdminIds(acl: map<UserId, ServerRole>)
    ensures AdminIds(acl) == {} <==> forall u :: u in acl ==> acl[u] != Admin
  {
    if exists u :: u in acl && acl[u] == Admin {
      var u :| u in acl && acl[u] == Admin;
      assert u in AdminIds(acl);
    }
  }

  /** `_ensureAtleastOneAdminRemains`: when the count is one, the first (and
      only) Admin row is compared with `userId`. It fails exactly when
      `userId` is the sole administrator. */
  function EnsureAtLeastOneAdminRemains(acl: map<UserId, ServerRole>, userId: UserId): (r: Result<(), ServiceError>)
    ensures r.Err? <==> AdminIds(acl) == {userId}
    ensures r.Err? ==> r.error == LastAdmin
  {
    if CountAdminUsers(acl) == 1 && userId in acl && acl[userId] == Admin then
      SetFacts.SingletonByCardinality(AdminIds(acl), userId);
      Err(LastAdmin)
    else
      Ok(())
  }

  /** Whenever the guard passes, deleting the `server_acl` row of `userId`
      leaves an administrator behind, if there was one. */
  lemma GuardKeepsAnAdmin(acl: map<UserId, ServerRole>, userId: UserId)
    requires EnsureAtLeastOneAdminRemains(acl, userId).Ok?
    ensures AdminIds(acl) != {} ==> AdminIds(acl - {userId}) != {}
  {
  }

  /** A role change that either grants Admin or has passed the guard leaves
      an administrator behind, if there was one. */
  lemma RoleChangeKeepsAnAdmin(acl: map<UserId, ServerRole>, userId: UserId, role: ServerRole)
    requires role == Admin || EnsureAtLeastOneAdminRemains(acl, userId).Ok?
    ensures AdminIds(acl) != {} ==> AdminIds(SetUserRole(acl, userId, role)) != {}
  {
  }

  /** `_changeUserRole`: `UPDATE server_acl SET role WHERE userId`. The row
      of `userId`, if there is one, takes the new role; no other row changes
      and no row is added. */
  function SetUserRole(acl: map<UserId, ServerRole>, userId: UserId, role: ServerRole): (r: map<UserId, ServerRole>)
    ensures r.Keys == acl.Keys
    ensures userId in acl ==> r[userId] == role
    ensures forall u :: u in acl && u != userId ==> r[u] == acl[u]
  {
    if userId in acl then acl[userId := role] else acl
  }
}

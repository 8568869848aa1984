/** The role vocabularies: the server role held in `server_acl` and the
    stream role held in `stream_acl`. */
module Roles {
  import opened Results

  /** `Roles.Server`: the four values a `server_acl` row can hold. */
  datatype ServerRole = Admin | User | Guest | ArchivedUser

  /** `Roles.Stream`: the roles a `stream_acl` grant can hold. */
  datatype StreamRole = Owner | Contributor | Reviewer

  /** The wire name of a server role, as callers pass it in. */
  function ServerRoleName(role: ServerRole): string
  {
    match role
    case Admin => "server:admin"
    case User => "server:user"
    case Guest => "server:guest"
    case ArchivedUser => "server:archived-user"
  }

  /** `Object.values(Roles.Server).includes(name)`, returning the role
      that was named. */
  function ParseServerRole(name: string): (r: Option<ServerRole>)
    ensures r.Some? ==> ServerRoleName(r.value) == name
    ensures r.None? <==> forall role :: ServerRoleName(role) != name
  {
    if name == ServerRoleName(Admin) then Some(Admin)
    else if name == ServerRoleName(User) then Some(User)
    else if name == ServerRoleName(Guest) then Some(Guest)
    else if name == ServerRoleName(ArchivedUser) then Some(ArchivedUser)
    else None
  }

  /** Every role is recognised under its own name. */
  lemma ParseServerRoleName(role: ServerRole)
    ensures ParseServerRole(ServerRoleName(role)) == Some(role)
  {
  }
}

/** Concrete runs of the service on small databases. */
module Scenarios {
  import opened Results
  import opened Roles
  import opened Db
  import opened AdminGuard
  import opened Users
  import Text

  function Plain(email: string): NewUser
  {
    NewUser(email, None, None, None, None, None, false)
  }

  /** The database after users A and B signed up, in that order. */
  function TwoUsers(): State
  {
    State([UserRecord("A", Text.Lower("a@x.com"), None, None, None, None, false, 1),
           UserRecord("B", Text.Lower("b@x.com"), None, None, None, None, false, 2)],
          map["A" := Admin, "B" := User], {}, {}, {})
  }

  /** The first user to sign up becomes administrator; the second, asking
      for no role, becomes a standard user. */
  lemma SignUpTwoUsers(hash: string -> string)
    ensures var r1 := CreateUser(EmptyState, Plain("a@x.com"), false, "A", 1, hash);
      && r1.Ok?
      && var r2 := CreateUser(r1.value.0, Plain("b@x.com"), false, "B", 2, hash);
      && r2.Ok? && r2.value.0 == TwoUsers()
  {
    var r1 := CreateUser(EmptyState, Plain("a@x.com"), false, "A", 1, hash);
    assert AdminIds(EmptyState.acl) == {};
    assert !EmailInUse(EmptyState.users, "a@x.com");
    var s1 := r1.value.0;
    assert s1.acl == map["A" := Admin];
    assert "A" in AdminIds(s1.acl);
    assert !EmailInUse(s1.users, "b@x.com") by {
      assert |s1.users| == 1;
      assert Text.Lower(s1.users[0].email)[0] != Text.Lower("b@x.com")[0];
    }
    assert "B" !in UserIds(s1.users);
    var s2 := CreateUser(s1, Plain("b@x.com"), false, "B", 2, hash).value.0;
    assert s2.acl == map["A" := Admin, "B" := User];
  }

  /** With A the only administrator, A cannot step down; once B is promoted,
      A can, leaving B as the administrator. */
  lemma HandOverAdministration(hash: string -> string)
    ensures ChangeUserRole(TwoUsers(), "A", "server:user", false) == Err(LastAdmin)
    ensures var r3 := ChangeUserRole(TwoUsers(), "B", "server:admin", false);
      && r3.Ok?
      && var r4 := ChangeUserRole(r3.value, "A", "server:user", false);
      && r4.Ok? && r4.value.acl == map["A" := User, "B" := Admin]
  {
    var s2 := TwoUsers();
    assert AdminIds(s2.acl) == {"A"};
    assert ServerRoleName(User) == "server:user";
    var s3 := ChangeUserRole(s2, "B", "server:admin", false).value;
    assert ServerRoleName(Admin) == "server:admin";
    assert s3.acl == map["A" := Admin, "B" := Admin];
    assert "B" in AdminIds(s3.acl);
    var s4 := ChangeUserRole(s3, "A", "server:user", false).value;
    assert s4.acl == map["A" := User, "B" := Admin];
  }

  /** Emails compare without regard to case: a second sign-up with the same
      address in capitals is refused. */
  lemma EmailComparedIgnoringCase(hash: string -> string)
    ensures var r1 := CreateUser(EmptyState, Plain("a@x.com"), false, "A", 1, hash);
      && r1.Ok?
      && CreateUser(r1.value.0, Plain("A@x.com"), false, "B", 2, hash) == Err(EmailTaken)
  {
  }

  /** C solely owns stream s1 and co-owns s2 with A. */
  function SharedStreams(): State
  {
    State([UserRecord("A", "a@x.com", None, None, None, None, false, 1),
           UserRecord("C", "c@x.com", None, None, None, None, false, 3)],
          map["A" := Admin, "C" := User],
          {"s1", "s2"},
          {StreamGrant("s1", "C", Owner), StreamGrant("s2", "C", Owner), StreamGrant("s2", "A", Owner)},
          {Invite("i1", "C"), Invite("i2", "A")})
  }

  /** Deleting C deletes the stream C solely owns, keeps the co-owned one
      with A's grant, purges C's invite and reports one removed row. */
  lemma DeleteSoleOwner()
    ensures var r := DeleteUser(SharedStreams(), "C");
      && r.Ok? && r.value.1 == 1
      && r.value.0.streams == {"s2"}
      && r.value.0.streamAcl == {StreamGrant("s2", "A", Owner)}
      && r.value.0.invites == {Invite("i2", "A")}
      && r.value.0.acl == map["A" := Admin]
  {
    var s := SharedStreams();
    assert AdminIds(s.acl) == {"A"};
    assert OwnersOf(s.streamAcl, "s1") == {"C"};
    assert "A" in OwnersOf(s.streamAcl, "s2");
    var t := DeleteUser(s, "C").value.0;
    assert WithoutUser(s.users, "C") == [s.users[0]];
    assert t.streamAcl == {StreamGrant("s2", "A", Owner)};
    assert t.streams == {"s2"};
    assert t.invites == {Invite("i2", "A")};
  }
}

/** The abstract database the user service works on: the `users` table, the
    `server_acl` table, streams with their `stream_acl` grants, and pending
    server invites. */
module Db {
  import opened Results
  import opened Roles
  import Text

  type UserId = string
  type StreamId = string

  /** A row of the `users` table. The plaintext password is not a column:
      only its digest is ever stored. */
  datatype UserRecord = UserRecord(
    id: UserId,
    email: string,
    name: Option<string>,
    company: Option<string>,
    bio: Option<string>,
    passwordDigest: Option<string>,
    verified: bool,
    createdAt: int)

  /** A row of `stream_acl`: `userId` holds `role` on stream `resourceId`. */
  datatype StreamGrant = StreamGrant(resourceId: StreamId, userId: UserId, role: StreamRole)

  /** A pending server invite tied to a user. */
  datatype Invite = Invite(inviteId: string, userId: UserId)

  /** The whole database. `users` lists the table in storage order, the
      order in which an unordered query returns rows. */
  datatype State = State(
    users: seq<UserRecord>,
    acl: map<UserId, ServerRole>,
    streams: set<StreamId>,
    streamAcl: set<StreamGrant>,
    invites: set<Invite>)

  /** The errors the service throws. */
  datatype ServiceError =
    | PasswordTooShort(minimum: nat)
    | EmailTaken
    | LastAdmin
    | InvalidRole(requested: string)
    | GuestRoleDisabled

  /** The database before any user exists. */
  const EmptyState := State([], map[], {}, {}, {})

  /** The ids present in the `users` table. */
  function UserIds(users: seq<UserRecord>): set<UserId>
  {
    set u | u in users :: u.id
  }

  /** The `id` primary key: no two rows share an id. */
  ghost predicate DistinctIds(users: seq<UserRecord>)
  {
    forall i, j :: 0 <= i < j < |users| ==> users[i].id != users[j].id
  }

  /** No two rows have emails that are equal once lower-cased. */
  ghost predicate DistinctEmails(users: seq<UserRecord>)
  {
    forall i, j :: 0 <= i < j < |users| ==> Text.Lower(users[i].email) != Text.Lower(users[j].email)
  }

  /** A record as the read paths hand it out: `delete user.passwordDigest`. */
  function Sanitize(u: UserRecord): UserRecord
  {
    u.(passwordDigest := None)
  }

  /** The table after `DELETE FROM users WHERE id = userId`: the rows whose
      id differs. */
  function WithoutUser(users: seq<UserRecord>, userId: UserId): (r: seq<UserRecord>)
    ensures forall u :: u in r <==> u in users && u.id != userId
    ensures |r| <= |users|
  {
    if |users| == 0 then []
    else if users[0].id == userId then WithoutUser(users[1..], userId)
    else [users[0]] + WithoutUser(users[1..], userId)
  }

  /** The rows after the first keep the primary key and email uniqueness,
      and none of them clashes with the first. */
  lemma SplitDistinct(users: seq<UserRecord>)
    requires |users| > 0
    ensures DistinctIds(users) ==> DistinctIds(users[1..])
    ensures DistinctEmails(users) ==> DistinctEmails(users[1..])
    ensures DistinctIds(users) ==> forall u :: u in users[1..] ==> u.id != users[0].id
    ensures DistinctEmails(users) ==> forall u :: u in users[1..] ==> Text.Lower(u.email) != Text.Lower(users[0].email)
  {
  }

  /** A row that clashes with none of a sequence's rows can be put in front
      of it without breaking the primary key or email uniqueness. */
  lemma PrependKeepsDistinct(x: UserRecord, rows: seq<UserRecord>)
    requires DistinctIds(rows) && DistinctEmails(rows)
    requires forall u :: u in rows ==> u.id != x.id && Text.Lower(u.email) != Text.Lower(x.email)
    ensures DistinctIds([x] + rows) && DistinctEmails([x] + rows)
  {
  }

  /** Under the primary key no row occurs twice. */
  lemma {:induction false} DistinctIdsOccurOnce(users: seq<UserRecord>, x: UserRecord)
    requires DistinctIds(users)
    ensures multiset(users)[x] <= 1
  {
    if |users| > 0 {
      SplitDistinct(users);
      DistinctIdsOccurOnce(users[1..], x);
      assert users == [users[0]] + users[1..];
    }
  }

  /** A row found at two positions is counted at least twice. */
  lemma TwoPositionsCountTwice(rows: seq<UserRecord>, i: nat, j: nat)
    requires i < j < |rows| && rows[i] == rows[j]
    ensures multiset(rows)[rows[i]] >= 2
  {
    assert rows == rows[..j] + rows[j..];
    assert rows[i] in rows[..j];
    assert rows[j..] == [rows[j]] + rows[j + 1..];
  }

  /** Rows drawn, as a multiset, from a table with a primary key also have
      pairwise distinct ids. */
  lemma SubMultisetKeepsDistinctIds(rows: seq<UserRecord>, users: seq<UserRecord>)
    requires DistinctIds(users) && multiset(rows) <= multiset(users)
    ensures DistinctIds(rows)
  {
    forall i, j | 0 <= i < j < |rows| ensures rows[i].id != rows[j].id {
      DistinctIdsOccurOnce(users, rows[i]);
      if rows[i] == rows[j] {
        TwoPositionsCountTwice(rows, i, j);
      }
      assert rows[i] in multiset(users) && rows[j] in multiset(users);
      var a :| 0 <= a < |users| && users[a] == rows[i];
      var b :| 0 <= b < |users| && users[b] == rows[j];
    }
  }

  /** With the primary key in place, the delete removes exactly one row when
      the id is present and none otherwise. */
  lemma {:induction false} WithoutUserRemovesAtMostOne(users: seq<UserRecord>, userId: UserId)
    requires DistinctIds(users)
    ensures |WithoutUser(users, userId)| == |users| - (if userId in UserIds(users) then 1 else 0)
  {
    if |users| > 0 {
      var tail := users[1..];
      SplitDistinct(users);
      WithoutUserRemovesAtMostOne(tail, userId);
      UserIdsOfCons(users);
      if users[0].id == userId {
        assert userId !in UserIds(tail);
      }
    }
  }

  /** The ids of a non-empty table are the first row's id and the ids of
      the rest. */
  lemma UserIdsOfCons(users: seq<UserRecord>)
    requires |users| > 0
    ensures UserIds(users) == {users[0].id} + UserIds(users[1..])
  {
  }

  /** Removing rows keeps the primary key and email uniqueness. */
  lemma {:induction false} WithoutUserKeepsDistinct(users: seq<UserRecord>, userId: UserId)
    requires DistinctIds(users) && DistinctEmails(users)
    ensures DistinctIds(WithoutUser(users, userId)) && DistinctEmails(WithoutUser(users, userId))
  {
    if |users| > 0 {
      var tail := users[1..];
      SplitDistinct(users);
      WithoutUserKeepsDistinct(tail, userId);
      if users[0].id != userId {
        PrependKeepsDistinct(users[0], WithoutUser(tail, userId));
      }
    }
  }
}

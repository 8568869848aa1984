/** The two read paths over the users table: the restricted, cursor-paginated
    `searchUsers` for ordinary users, and the administrative `getUsers` /
    `countUsers` listing with offset pagination. */
module Search {
  import opened Results
  import opened Roles
  import opened Db
  import Text

  /** Page size of `searchUsers` when no (or a zero) limit is given. */
  const DefaultSearchLimit: nat := 25
  /** Default and maximum page sizes of `getUsers`. */
  const DefaultListLimit: nat := 10
  const MaxListLimit: nat := 200

  /** The columns of a user the restricted search exposes: neither the email
      nor the password digest. */
  datatype LimitedUser = LimitedUser(
    id: UserId,
    name: Option<string>,
    bio: Option<string>,
    company: Option<string>,
    verified: bool,
    createdAt: int)

  function Limited(u: UserRecord): LimitedUser
  {
    LimitedUser(u.id, u.name, u.bio, u.company, u.verified, u.createdAt)
  }

  /** `column ILIKE '%q%'`; a NULL column never matches. */
  predicate ColumnContains(column: Option<string>, q: string)
  {
    column.Some? && Text.ContainsIgnoringCase(column.value, q)
  }

  /** The restricted search filter: exact email, or (unless `emailOnly`)
      partial case-insensitive name; archived users only when `archived`. */
  predicate SearchMatches(u: UserRecord, role: ServerRole, q: string, archived: bool, emailOnly: bool)
  {
    && (u.email == q || (!emailOnly && ColumnContains(u.name, q)))
    && (archived || role != ArchivedUser)
  }

  /** The filter the knex chain `where(email).orWhere(name).andWhere(role)`
      actually produces: SQL binds AND tighter than OR, so without
      `emailOnly` the role test only guards the name branch. */
  predicate SearchMatchesAsWritten(u: UserRecord, role: ServerRole, q: string, archived: bool, emailOnly: bool)
  {
    if emailOnly then u.email == q && (archived || role != ArchivedUser)
    else u.email == q || (ColumnContains(u.name, q) && (archived || role != ArchivedUser))
  }

  /** A row the search may return: it joins a `server_acl` row, passes the
      filter and is strictly older than the cursor. */
  predicate SearchEligible(s: State, u: UserRecord, q: string, cursor: Option<int>, archived: bool, emailOnly: bool)
  {
    && u.id in s.acl
    && SearchMatches(u, s.acl[u.id], q, archived, emailOnly)
    && (cursor.None? || u.createdAt < cursor.value)
  }

  /** `row` is the projection of some eligible user. */
  ghost predicate IsSearchRow(s: State, row: LimitedUser, q: string, cursor: Option<int>, archived: bool, emailOnly: bool)
  {
    exists u :: u in s.users && SearchEligible(s, u, q, cursor, archived, emailOnly) && row == Limited(u)
  }

  /** The eligible rows, in storage order. */
  function SearchCandidates(s: State, users: seq<UserRecord>, q: string, cursor: Option<int>,
                            archived: bool, emailOnly: bool): (r: seq<UserRecord>)
    ensures forall u :: u in r <==> u in users && SearchEligible(s, u, q, cursor, archived, emailOnly)
  {
    if |users| == 0 then []
    else
      (if SearchEligible(s, users[0], q, cursor, archived, emailOnly) then [users[0]] else [])
      + SearchCandidates(s, users[1..], q, cursor, archived, emailOnly)
  }

  /** The candidates are drawn from `users`, each at most as often. */
  lemma {:induction false} SearchCandidatesSubMultiset(s: State, users: seq<UserRecord>, q: string,
                                                       cursor: Option<int>, archived: bool, emailOnly: bool)
    ensures multiset(SearchCandidates(s, users, q, cursor, archived, emailOnly)) <= multiset(users)
  {
    if |users| > 0 {
      SearchCandidatesSubMultiset(s, users[1..], q, cursor, archived, emailOnly);
      assert users == [users[0]] + users[1..];
    }
  }

  /** `ORDER BY createdAt DESC`. */
  ghost predicate NewestFirst(rows: seq<UserRecord>)
  {
    forall i, j :: 0 <= i < j < |rows| ==> rows[i].createdAt >= rows[j].createdAt
  }

  /** Prepending a row no older than the head keeps a sequence newest first. */
  lemma PrependNewestFirst(x: UserRecord, rows: seq<UserRecord>)
    requires NewestFirst(rows)
    requires |rows| > 0 ==> x.createdAt >= rows[0].createdAt
    ensures NewestFirst([x] + rows)
  {
  }

  /** Dropping the first row keeps a sequence newest first, and the first
      row is no older than the second. */
  lemma TailNewestFirst(rows: seq<UserRecord>)
    requires NewestFirst(rows) && |rows| > 0
    ensures NewestFirst(rows[1..])
    ensures |rows| > 1 ==> rows[0].createdAt >= rows[1].createdAt
  {
    forall i, j | 0 <= i < j < |rows| - 1 ensures rows[1..][i].createdAt >= rows[1..][j].createdAt {
      assert rows[1..][i] == rows[i + 1] && rows[1..][j] == rows[j + 1];
    }
  }

  /** Inserts `u` into a newest-first sequence, before the rows it is not
      older than. */
  function InsertByCreatedAt(u: UserRecord, rows: seq<UserRecord>): (r: seq<UserRecord>)
    requires NewestFirst(rows)
    ensures NewestFirst(r)
    ensures multiset(r) == multiset(rows) + multiset{u}
    ensures |r| > 0 && (r[0] == u || (|rows| > 0 && r[0] == rows[0]))
  {
    if |rows| == 0 || u.createdAt >= rows[0].createdAt then
      PrependNewestFirst(u, rows);
      [u] + rows
    else
      assert rows == [rows[0]] + rows[1..];
      TailNewestFirst(rows);
      var rest := InsertByCreatedAt(u, rows[1..]);
      PrependNewestFirst(rows[0], rest);
      [rows[0]] + rest
  }

  /** Orders rows newest first, keeping every row. */
  function SortNewestFirst(rows: seq<UserRecord>): (r: seq<UserRecord>)
    ensures NewestFirst(r)
    ensures multiset(r) == multiset(rows)
  {
    if |rows| == 0 then []
    else
      assert rows == [rows[0]] + rows[1..];
      InsertByCreatedAt(rows[0], SortNewestFirst(rows[1..]))
  }

  /** `limit || defaultLimit`. */
  function SearchLimit(limit: Option<nat>): (n: nat)
    ensures n > 0
  {
    match limit
    case None => DefaultSearchLimit
    case Some(l) => if l == 0 then DefaultSearchLimit else l
  }

  /** One page of the restricted search and the cursor for the next one. */
  datatype SearchPage = SearchPage(users: seq<LimitedUser>, cursor: Option<int>)

  /** The first `lim` rows of a newest-first sequence, projected, with the
      cursor for the next page. */
  function PageOf(sorted: seq<UserRecord>, lim: nat): SearchPage
  {
    var page := if |sorted| <= lim then sorted else sorted[..lim];
    var rows := seq(|page|, i requires 0 <= i < |page| => Limited(page[i]));
    SearchPage(rows, if |rows| > 0 then Some(rows[|rows| - 1].createdAt) else None)
  }

  /** A page of eligible rows is a page of projected eligible users, newest
      first, no larger than the limit, with the last row's time as cursor. */
  lemma PageIsSound(s: State, q: string, cursor: Option<int>, archived: bool, emailOnly: bool,
                    sorted: seq<UserRecord>, lim: nat)
    requires NewestFirst(sorted)
    requires forall k :: 0 <= k < |sorted| ==>
      sorted[k] in s.users && SearchEligible(s, sorted[k], q, cursor, archived, emailOnly)
    ensures var r := PageOf(sorted, lim);
      && |r.users| <= lim
      && (forall i, j :: 0 <= i < j < |r.users| ==> r.users[i].createdAt >= r.users[j].createdAt)
      && (cursor.Some? ==> forall i :: 0 <= i < |r.users| ==> r.users[i].createdAt < cursor.value)
      && (forall i :: 0 <= i < |r.users| ==> IsSearchRow(s, r.users[i], q, cursor, archived, emailOnly))
      && (!archived ==> forall i :: 0 <= i < |r.users| ==>
            r.users[i].id in s.acl && s.acl[r.users[i].id] != ArchivedUser)
      && (|r.users| == 0 <==> r.cursor.None?)
      && (|r.users| > 0 ==> r.cursor == Some(r.users[|r.users| - 1].createdAt))
  {
    var rows := PageOf(sorted, lim).users;
    forall i | 0 <= i < |rows|
      ensures rows[i] == Limited(sorted[i])
      ensures IsSearchRow(s, rows[i], q, cursor, archived, emailOnly)
    {
      assert sorted[i] in s.users && SearchEligible(s, sorted[i], q, cursor, archived, emailOnly);
    }
  }

  /** A row of a newest-first sequence that its page leaves out is no newer
      than the page's last row, and is only left out when the page is full. */
  lemma PageIsComplete(sorted: seq<UserRecord>, lim: nat)
    requires NewestFirst(sorted) && lim > 0
    ensures var r := PageOf(sorted, lim);
      forall u :: u in sorted ==>
        Limited(u) in r.users || (|r.users| == lim && u.createdAt <= r.users[|r.users| - 1].createdAt)
  {
    var rows := PageOf(sorted, lim).users;
    forall u | u in sorted
      ensures Limited(u) in rows || (|rows| == lim && u.createdAt <= rows[|rows| - 1].createdAt)
    {
      var k :| 0 <= k < |sorted| && sorted[k] == u;
      if k < |rows| {
        assert rows[k] == Limited(u);
      } else {
        assert rows[lim - 1] == Limited(sorted[lim - 1]);
      }
    }
  }

  /** `searchUsers`. `q` is matched exactly against the email and as a
      case-insensitive substring of the name; `cursor` is a creation time. */
  method SearchUsers(s: State, q: string, limit: Option<nat>, cursor: Option<int>,
                     archived: bool, emailOnly: bool) returns (r: SearchPage)
    // page size
    ensures limit.Some? && limit.value > 0 ==> |r.users| <= limit.value
    ensures limit.None? || limit == Some(0) ==> |r.users| <= DefaultSearchLimit
    // newest first, strictly older than the cursor
    ensures forall i, j :: 0 <= i < j < |r.users| ==> r.users[i].createdAt >= r.users[j].createdAt
    ensures cursor.Some? ==> forall i :: 0 <= i < |r.users| ==> r.users[i].createdAt < cursor.value
    // every row is an eligible user, projected; archived users only on request
    ensures forall i :: 0 <= i < |r.users| ==> IsSearchRow(s, r.users[i], q, cursor, archived, emailOnly)
    ensures !archived ==> forall i :: 0 <= i < |r.users| ==>
      r.users[i].id in s.acl && s.acl[r.users[i].id] != ArchivedUser
    // no eligible user is skipped: it is on the page, or the page is full
    // and the user is no newer than the last row
    ensures forall u :: u in s.users && SearchEligible(s, u, q, cursor, archived, emailOnly) ==>
      Limited(u) in r.users
      || (|r.users| == SearchLimit(limit) && u.createdAt <= r.users[|r.users| - 1].createdAt)
    // the next cursor is the last row's creation time
    ensures |r.users| == 0 <==> r.cursor.None?
    ensures |r.users| > 0 ==> r.cursor == Some(r.users[|r.users| - 1].createdAt)
    // the join is on the primary key, so each user appears at most once
    ensures DistinctIds(s.users) ==> forall i, j :: 0 <= i < j < |r.users| ==> r.users[i].id != r.users[j].id
  {
    r := SearchResult(s, q, limit, cursor, archived, emailOnly);
    SearchResultIsSound(s, q, limit, cursor, archived, emailOnly, r);
    SearchResultIsComplete(s, q, limit, cursor, archived, emailOnly, r);
    SearchResultIsDistinct(s, q, limit, cursor, archived, emailOnly, r);
  }

  /** The page `searchUsers` returns: the eligible rows, newest first, cut
      to the page size. */
  function SearchResult(s: State, q: string, limit: Option<nat>, cursor: Option<int>,
                        archived: bool, emailOnly: bool): SearchPage
  {
    PageOf(SortNewestFirst(SearchCandidates(s, s.users, q, cursor, archived, emailOnly)), SearchLimit(limit))
  }

  /** Soundness of `searchUsers`: size, order, eligibility and cursor. */
  lemma SearchResultIsSound(s: State, q: string, limit: Option<nat>, cursor: Option<int>,
                            archived: bool, emailOnly: bool, r: SearchPage)
    requires r == SearchResult(s, q, limit, cursor, archived, emailOnly)
    ensures |r.users| <= SearchLimit(limit)
    ensures forall i, j :: 0 <= i < j < |r.users| ==> r.users[i].createdAt >= r.users[j].createdAt
    ensures cursor.Some? ==> forall i :: 0 <= i < |r.users| ==> r.users[i].createdAt < cursor.value
    ensures forall i :: 0 <= i < |r.users| ==> IsSearchRow(s, r.users[i], q, cursor, archived, emailOnly)
    ensures !archived ==> forall i :: 0 <= i < |r.users| ==>
      r.users[i].id in s.acl && s.acl[r.users[i].id] != ArchivedUser
    ensures |r.users| == 0 <==> r.cursor.None?
    ensures |r.users| > 0 ==> r.cursor == Some(r.users[|r.users| - 1].createdAt)
  {
    var candidates := SearchCandidates(s, s.users, q, cursor, archived, emailOnly);
    var sorted := SortNewestFirst(candidates);
    forall k | 0 <= k < |sorted|
      ensures sorted[k] in s.users && SearchEligible(s, sorted[k], q, cursor, archived, emailOnly)
    {
      assert sorted[k] in multiset(candidates);
    }
    PageIsSound(s, q, cursor, archived, emailOnly, sorted, SearchLimit(limit));
  }

  /** Completeness of `searchUsers`: an eligible user is on the page, or the
      page is full and the user is no newer than its last row. */
  lemma SearchResultIsComplete(s: State, q: string, limit: Option<nat>, cursor: Option<int>,
                               archived: bool, emailOnly: bool, r: SearchPage)
    requires r == SearchResult(s, q, limit, cursor, archived, emailOnly)
    ensures forall u :: u in s.users && SearchEligible(s, u, q, cursor, archived, emailOnly) ==>
      Limited(u) in r.users
      || (|r.users| == SearchLimit(limit) && u.createdAt <= r.users[|r.users| - 1].createdAt)
  {
    var candidates := SearchCandidates(s, s.users, q, cursor, archived, emailOnly);
    var sorted := SortNewestFirst(candidates);
    forall u | u in s.users && SearchEligible(s, u, q, cursor, archived, emailOnly)
      ensures u in sorted
    {
      assert u in multiset(sorted);
    }
    PageIsComplete(sorted, SearchLimit(limit));
  }

  /** Under the primary key, no user appears twice on a page of `searchUsers`. */
  lemma SearchResultIsDistinct(s: State, q: string, limit: Option<nat>, cursor: Option<int>,
                               archived: bool, emailOnly: bool, r: SearchPage)
    requires r == SearchResult(s, q, limit, cursor, archived, emailOnly)
    ensures DistinctIds(s.users) ==> forall i, j :: 0 <= i < j < |r.users| ==> r.users[i].id != r.users[j].id
  {
    if DistinctIds(s.users) {
      var candidates := SearchCandidates(s, s.users, q, cursor, archived, emailOnly);
      var sorted := SortNewestFirst(candidates);
      SearchCandidatesSubMultiset(s, s.users, q, cursor, archived, emailOnly);
      SubMultisetKeepsDistinctIds(sorted, s.users);
      PageKeepsDistinctIds(sorted, SearchLimit(limit));
    }
  }

  /** A page cut from rows with distinct ids repeats no id. */
  lemma PageKeepsDistinctIds(sorted: seq<UserRecord>, lim: nat)
    requires DistinctIds(sorted)
    ensures var r := PageOf(sorted, lim);
      forall i, j :: 0 <= i < j < |r.users| ==> r.users[i].id != r.users[j].id
  {
    var rows := PageOf(sorted, lim).users;
    forall i | 0 <= i < |rows| ensures rows[i] == Limited(sorted[i]) {
    }
  }

  /** `getUsersBaseQuery`: without a (non-empty) query every user; with one,
      users whose email, name or company contains it, ignoring case. */
  predicate BaseQueryMatches(u: UserRecord, searchQuery: Option<string>)
  {
    match searchQuery
    case None => true
    case Some(q) =>
      q == "" || Text.ContainsIgnoringCase(u.email, q) || ColumnContains(u.name, q) || ColumnContains(u.company, q)
  }

  /** `row` is some user matching the query, with its digest removed. */
  ghost predicate IsListedRow(s: State, row: UserRecord, searchQuery: Option<string>)
  {
    exists u :: u in s.users && BaseQueryMatches(u, searchQuery) && row == Sanitize(u)
  }

  /** The rows `getUsersBaseQuery` selects, in storage order. */
  function GetUsersBaseQuery(users: seq<UserRecord>, searchQuery: Option<string>): (r: seq<UserRecord>)
    ensures forall u :: u in r <==> u in users && BaseQueryMatches(u, searchQuery)
    ensures |r| <= |users|
  {
    if |users| == 0 then []
    else
      (if BaseQueryMatches(users[0], searchQuery) then [users[0]] else [])
      + GetUsersBaseQuery(users[1..], searchQuery)
  }

  /** The base query only drops rows: each occurs no more often than in
      the users table. */
  lemma {:induction false} BaseQuerySubMultiset(users: seq<UserRecord>, searchQuery: Option<string>)
    ensures multiset(GetUsersBaseQuery(users, searchQuery)) <= multiset(users)
  {
    if |users| > 0 {
      BaseQuerySubMultiset(users[1..], searchQuery);
      assert users == [users[0]] + users[1..];
    }
  }

  /** `SELECT count(*)` over the rows of the users table matching the query. */
  function CountMatching(users: seq<UserRecord>, searchQuery: Option<string>): nat
  {
    if |users| == 0 then 0
    else (if BaseQueryMatches(users[0], searchQuery) then 1 else 0) + CountMatching(users[1..], searchQuery)
  }

  /** The count and the listing use the same filter, row for row. */
  lemma {:induction false} CountMatchingIsBaseQuerySize(users: seq<UserRecord>, searchQuery: Option<string>)
    ensures CountMatching(users, searchQuery) == |GetUsersBaseQuery(users, searchQuery)|
  {
    if |users| > 0 {
      CountMatchingIsBaseQuerySize(users[1..], searchQuery);
    }
  }

  /** `countUsers`. */
  function CountUsers(s: State, searchQuery: Option<string>): (n: nat)
    ensures n <= |s.users|
    ensures n == |GetUsersBaseQuery(s.users, searchQuery)|
  {
    CountMatchingIsBaseQuerySize(s.users, searchQuery);
    CountMatching(s.users, searchQuery)
  }

  /** The page size `getUsers` applies: 10 by default, never more than 200. */
  function ListLimit(limit: Option<nat>): (n: nat)
    ensures n <= MaxListLimit
    ensures n == limit.GetOr(DefaultListLimit) || (n == MaxListLimit && limit.GetOr(DefaultListLimit) > MaxListLimit)
  {
    var l := limit.GetOr(DefaultListLimit);
    if l > MaxListLimit then MaxListLimit else l
  }

  /** `OFFSET off LIMIT lim`: at most `lim` rows, starting at row `off`. */
  function Window(rows: seq<UserRecord>, off: nat, lim: nat): (w: seq<UserRecord>)
    ensures |w| == if off >= |rows| then 0 else if |rows| - off <= lim then |rows| - off else lim
    ensures forall i :: 0 <= i < |w| ==> off + i < |rows| && w[i] == rows[off + i]
  {
    if off >= |rows| then [] else if |rows| - off <= lim then rows[off..] else rows[off..off + lim]
  }

  /** Every row in a window of the base query is a user matching the query. */
  lemma WindowRowsMatch(s: State, searchQuery: Option<string>, off: nat, lim: nat)
    ensures var w := Window(GetUsersBaseQuery(s.users, searchQuery), off, lim);
      forall i :: 0 <= i < |w| ==> IsListedRow(s, Sanitize(w[i]), searchQuery)
  {
  }

  /** Under the primary key, a window of the base query lists each user at
      most once. */
  lemma ListedWindowIsDistinct(s: State, searchQuery: Option<string>, off: nat, lim: nat)
    ensures DistinctIds(s.users) ==> DistinctIds(Window(GetUsersBaseQuery(s.users, searchQuery), off, lim))
  {
    if DistinctIds(s.users) {
      var rows := GetUsersBaseQuery(s.users, searchQuery);
      BaseQuerySubMultiset(s.users, searchQuery);
      SubMultisetKeepsDistinctIds(rows, s.users);
      var w := Window(rows, off, lim);
      forall i, j | 0 <= i < j < |w| ensures w[i].id != w[j].id {
        assert w[i] == rows[off + i] && w[j] == rows[off + j];
      }
    }
  }

  /** `getUsers`: a page of the base query, skipping `offset` rows, with
      password digests removed. */
  function GetUsers(s: State, limit: Option<nat>, offset: Option<nat>, searchQuery: Option<string>): (r: seq<UserRecord>)
    ensures |r| <= MaxListLimit && |r| <= limit.GetOr(DefaultListLimit)
    ensures forall i :: 0 <= i < |r| ==> r[i].passwordDigest.None?
    ensures forall i :: 0 <= i < |r| ==> IsListedRow(s, r[i], searchQuery)
    // the page holds as many rows as the count leaves after the offset, up to the limit
    ensures var rest := CountUsers(s, searchQuery) - offset.GetOr(0);
      |r| == if rest <= 0 then 0 else if rest <= ListLimit(limit) then rest else ListLimit(limit)
    // under the primary key, no user is listed twice
    ensures DistinctIds(s.users) ==> forall i, j :: 0 <= i < j < |r| ==> r[i].id != r[j].id
  {
    var page := Window(GetUsersBaseQuery(s.users, searchQuery), offset.GetOr(0), ListLimit(limit));
    WindowRowsMatch(s, searchQuery, offset.GetOr(0), ListLimit(limit));
    ListedWindowIsDistinct(s, searchQuery, offset.GetOr(0), ListLimit(limit));
    seq(|page|, i requires 0 <= i < |page| => Sanitize(page[i]))
  }
}

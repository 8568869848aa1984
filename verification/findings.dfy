/** The grouping slip in the restricted search filter. The knex chain
    `where(email = q).orWhere(name ILIKE q).andWhere(role != archived)`
    renders as `email = q OR (name ILIKE q AND role != archived)`, so the
    archived-user exclusion only guards the name branch. */
module Findings {
  import opened Results
  import opened Roles
  import opened Db
  import opened Search

  /** An archived user, looked up by exact email. */
  const ArchivedBob := UserRecord("u1", "bob@x.com", Some("Bob"), None, None, None, true, 5)

  /** As written, a search that asks to leave archived users out still
      matches an archived user whose email equals the query; the corrected
      filter does not. */
  lemma ArchivedUserMatchedByExactEmail()
    ensures SearchMatchesAsWritten(ArchivedBob, ArchivedUser, "bob@x.com", false, false)
    ensures !SearchMatches(ArchivedBob, ArchivedUser, "bob@x.com", false, false)
  {
  }

  /** The as-written filter and the corrected one disagree exactly on
      archived users found by exact email when neither `archived` nor
      `emailOnly` is set. */
  lemma AsWrittenDiffersOnlyOnArchivedExactEmail(u: UserRecord, role: ServerRole, q: string, archived: bool, emailOnly: bool)
    ensures SearchMatchesAsWritten(u, role, q, archived, emailOnly) != SearchMatches(u, role, q, archived, emailOnly)
      <==> !archived && !emailOnly && role == ArchivedUser && u.email == q
  {
  }

  /** The corrected filter never admits an archived user unless asked to. */
  lemma CorrectedFilterExcludesArchived(u: UserRecord, role: ServerRole, q: string, emailOnly: bool)
    requires SearchMatches(u, role, q, false, emailOnly)
    ensures role != ArchivedUser
  {
  }
}

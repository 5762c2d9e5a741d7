/**
 * The `users` table as the credential flow sees it: rows of username,
 * optional email and stored password hash, and the two `SELECT` queries the
 * flow issues. A query yields the first row it selects, in table order.
 */
module Users {
  import opened Wrappers

  /** One row of the `users` table; `email` is a nullable column. */
  datatype UserRecord = UserRecord(username: string, email: Option<string>, passwordHash: string)

  /** The `WHERE` clause of a lookup. */
  datatype Query =
    | ByUsername(username: string)
    | ByUsernameOrEmail(username: string, email: string)

  /** Whether the query selects the row; a NULL email equals nothing. */
  predicate Selects(q: Query, row: UserRecord) {
    match q
    case ByUsername(u) => row.username == u
    case ByUsernameOrEmail(u, e) => row.username == u || row.email == Some(e)
  }

  /**
   * The row a single-row fetch returns: the first selected row, or `None`
   * exactly when no row is selected.
   */
  function FirstSelected(rows: seq<UserRecord>, q: Query): (r: Option<UserRecord>)
    ensures r.None? <==> forall i | 0 <= i < |rows| :: !Selects(q, rows[i])
    ensures r.Some? ==> r.value in rows && Selects(q, r.value)
    ensures r.Some? ==> exists i | 0 <= i < |rows| :: rows[i] == r.value && forall j | 0 <= j < i :: !Selects(q, rows[j])
    decreases |rows|
  {
    if rows == [] then None
    else if Selects(q, rows[0]) then Some(rows[0])
    else
      var r := FirstSelected(rows[1..], q);
      assert forall i | 1 <= i < |rows| :: rows[i] == rows[1..][i - 1];
      r
  }

  /** At most one row per username, and at most one row per present email. */
  ghost predicate UniqueIdentities(rows: seq<UserRecord>) {
    forall i, j | 0 <= i < j < |rows| ::
      rows[i].username != rows[j].username &&
      (rows[i].email.Some? ==> rows[i].email != rows[j].email)
  }

  /** Appending a row that no existing row collides with keeps identities unique. */
  lemma AppendKeepsUnique(rows: seq<UserRecord>, row: UserRecord, email: string)
    requires UniqueIdentities(rows)
    requires row.email == Some(email)
    requires forall i | 0 <= i < |rows| :: !Selects(ByUsernameOrEmail(row.username, email), rows[i])
    ensures UniqueIdentities(rows + [row])
  {
  }

  /** A row whose username nobody else has is what a username lookup finds once appended. */
  lemma {:induction false} FirstSelectedAppend(rows: seq<UserRecord>, row: UserRecord)
    requires forall i | 0 <= i < |rows| :: rows[i].username != row.username
    ensures FirstSelected(rows + [row], ByUsername(row.username)) == Some(row)
    decreases |rows|
  {
    if rows == [] {
      assert [] + [row] == [row];
    } else {
      assert (rows + [row])[1..] == rows[1..] + [row];
      FirstSelectedAppend(rows[1..], row);
    }
  }
}

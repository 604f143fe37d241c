/**
 * The users table and the repository over it. The store is an abstract table keyed by the
 * primary key; SQL text and the storage engine are not modelled, only what each statement
 * does to the rows.
 */
module UserRepository {
  import opened Text
  import opened Outcomes
  import opened UserIds
  import opened Emails
  import opened Users

  /** A row of `users`; the timestamps are instants rather than ISO-8601 text. */
  datatype Row = Row(id: string, email: string, name: string, createdAt: Time, updatedAt: Time)

  /** The `users` table, keyed by its primary key `id`. */
  type Table = map<string, Row>

  /** The row that an INSERT of `u` writes. */
  function ToRow(u: User): Row {
    Row(u.id.ToString(), u.email.ToString(), u.name, u.createdAt, u.updatedAt)
  }

  /** What a user value satisfies by construction: the invariants of its parts and its own. */
  predicate Storable(rules: EmailRules, u: User) {
    u.id.Valid() && u.email.ValidUnder(rules) && u.Valid()
  }

  /** A row that only ever came from saving a Storable user. */
  predicate RowWellFormed(rules: EmailRules, row: Row) {
    !IsBlank(row.id) && rules.IsNormalForm(row.email) && IsValidName(row.name)
  }

  /** Each row sits under its own id, as under a primary key. */
  ghost predicate KeyedById(t: Table) {
    forall k | k in t :: t[k].id == k
  }

  /**
   * The table as the repository keeps it: each row sits under its own id, every row is
   * well formed, and no two rows share an email (the UNIQUE constraint).
   */
  ghost predicate TableInvariant(rules: EmailRules, t: Table) {
    && KeyedById(t)
    && (forall k | k in t :: RowWellFormed(rules, t[k]))
    && (forall k1, k2 | k1 in t && k2 in t && t[k1].email == t[k2].email :: k1 == k2)
  }

  /** Some row holds the email text `e`. */
  predicate EmailOwned(t: Table, e: string) {
    exists k | k in t :: t[k].email == e
  }

  /** A row other than `u`'s own holds `u`'s email: writing `u` breaks the UNIQUE constraint. */
  predicate EmailClash(t: Table, u: User) {
    exists k | k in t :: k != u.id.ToString() && t[k].email == u.email.ToString()
  }

  /**
   * Rebuilds a user from a row through the validating factories, failing as the first of
   * them fails. Every well-formed row converts, and back to the same row.
   */
  function ToDomain(rules: EmailRules, row: Row): (r: Result<User>)
    ensures r.Ok? <==> !IsBlank(row.id) && rules.Accepts(row.email) && !IsBlank(row.name)
    ensures r.Err? ==> r.error == (if IsBlank(row.id) then EmptyUserId
                                   else if !rules.Accepts(row.email) then InvalidEmail
                                   else EmptyName)
    ensures r.Ok? ==> r.value == User(UserId(row.id), Email(rules.Normalize(row.email)), Trim(row.name),
                                      row.createdAt, row.updatedAt)
    ensures RowWellFormed(rules, row) ==> r.Ok? && ToRow(r.value) == row && Storable(rules, r.value)
  {
    match FromString(row.id)
    case Err(e) => Err(e)
    case Ok(id) =>
      match Emails.Create(rules, row.email)
      case Err(e) => Err(e)
      case Ok(email) => Users.Create(id, email, row.name, row.createdAt, row.updatedAt)
  }

  /** Writing a user and reading it back gives the same user. */
  lemma ToDomainOfToRow(rules: EmailRules, u: User)
    requires Storable(rules, u)
    ensures ToDomain(rules, ToRow(u)) == Ok(u)
  {
    assert RowWellFormed(rules, ToRow(u));
  }

  /** Every stored row converts back to a user, whose id is the row's key. */
  lemma StoredRowConverts(rules: EmailRules, t: Table, k: string)
    requires TableInvariant(rules, t) && k in t
    ensures var r := ToDomain(rules, t[k]);
            r.Ok? && ToRow(r.value) == t[k] && r.value.id.ToString() == k && Storable(rules, r.value)
  {
    assert t[k].id == k && RowWellFormed(rules, t[k]);
  }

  /** The user stored under `k`, as the repository's conversion rebuilds it. */
  function StoredUser(rules: EmailRules, t: Table, k: string): (u: User)
    requires TableInvariant(rules, t) && k in t
    ensures ToRow(u) == t[k] && u.id.ToString() == k && Storable(rules, u)
  {
    StoredRowConverts(rules, t, k);
    ToDomain(rules, t[k]).value
  }

  /**
   * The table after a successful save of `u`: when its id is present, only email, name and
   * updated_at of that row are rewritten (created_at is kept); otherwise a row holding all
   * five fields of `u` is inserted. Every other row is unchanged.
   */
  function Upsert(t: Table, u: User): (t': Table)
    ensures t'.Keys == t.Keys + {u.id.ToString()}
    ensures forall k | k in t && k != u.id.ToString() :: t'[k] == t[k]
    ensures var row := t'[u.id.ToString()];
            row.email == u.email.ToString() && row.name == u.name && row.updatedAt == u.updatedAt
    ensures u.id.ToString() in t ==> var row := t'[u.id.ToString()];
            row.id == t[u.id.ToString()].id && row.createdAt == t[u.id.ToString()].createdAt
    ensures u.id.ToString() !in t ==> t'[u.id.ToString()] == ToRow(u)
  {
    var k := u.id.ToString();
    if k in t then t[k := t[k].(email := u.email.ToString(), name := u.name, updatedAt := u.updatedAt)]
    else t[k := ToRow(u)]
  }

  /** A save that passes the UNIQUE check keeps the table invariant. */
  lemma UpsertKeepsInvariant(rules: EmailRules, t: Table, u: User)
    requires TableInvariant(rules, t) && Storable(rules, u) && !EmailClash(t, u)
    ensures TableInvariant(rules, Upsert(t, u))
  {
  }

  /** A result paired with the table it leaves. */
  datatype Transition<+T> = Transition(result: Result<T>, table: Table)

  /**
   * The effect of `save(u)` on table `t`: the UNIQUE(email) constraint refuses a write that
   * would give another row `u`'s email, and then the table is untouched.
   */
  function SaveOutcome(t: Table, u: User): (o: Transition<()>)
    ensures o.result.Err? <==> EmailClash(t, u)
    ensures o.result.Err? ==> o.result.error == StorageError && o.table == t
    ensures o.result.Ok? ==> o.table == Upsert(t, u)
  {
    if EmailClash(t, u) then Transition(Err(StorageError), t) else Transition(Ok(()), Upsert(t, u))
  }

  /** The table after deleting `id`: that row is gone, every other row is unchanged. */
  function Removed(t: Table, id: string): (t': Table)
    ensures t'.Keys == t.Keys - {id}
    ensures forall k | k in t' :: t'[k] == t[k]
    ensures id !in t ==> t' == t
  {
    t - {id}
  }

  /** Deleting twice is the same as deleting once. */
  lemma RemovedIdempotent(t: Table, id: string)
    ensures Removed(Removed(t, id), id) == Removed(t, id)
  {
  }

  /** `rs` holds every row of `t`, each exactly once. */
  ghost predicate Enumerates(t: Table, rs: seq<Row>) {
    RowsOf(t, t.Keys, rs)
  }

  /** `rs` holds exactly the rows of `t` whose ids are in `ids`, each once. */
  ghost predicate RowsOf(t: Table, ids: set<string>, rs: seq<Row>) {
    && ids <= t.Keys
    && |rs| == |ids|
    && (forall i | 0 <= i < |rs| :: rs[i].id in ids && rs[i] == t[rs[i].id])
    && (forall i, j | 0 <= i < j < |rs| :: rs[i].id != rs[j].id)
    && (forall k | k in ids :: exists i | 0 <= i < |rs| :: rs[i].id == k)
  }

  /** The rows `users` would be written as, in the same order. */
  function ToRows(users: seq<User>): (rs: seq<Row>)
    ensures |rs| == |users|
    ensures forall i | 0 <= i < |users| :: rs[i] == ToRow(users[i])
  {
    if users == [] then [] else [ToRow(users[0])] + ToRows(users[1..])
  }

  /** `users` lists the table: one user per row, each written back as that row. */
  ghost predicate Lists(t: Table, users: seq<User>) {
    Enumerates(t, ToRows(users))
  }

  /** `s` with `x` put at position `p`. */
  function InsertAt<T>(s: seq<T>, x: T, p: nat): (r: seq<T>)
    requires p <= |s|
    ensures |r| == |s| + 1
    ensures forall i | 0 <= i < |r| :: r[i] == if i < p then s[i] else if i == p then x else s[i - 1]
  {
    s[..p] + [x] + s[p..]
  }

  /** Putting one more row of the table anywhere in the list extends the listing. */
  lemma RowsOfOneMore(t: Table, ids: set<string>, rs: seq<Row>, row: Row, p: nat)
    requires RowsOf(t, ids, rs)
    requires row.id in t && row.id !in ids && t[row.id] == row
    requires p <= |rs|
    ensures RowsOf(t, ids + {row.id}, InsertAt(rs, row, p))
  {
    InsertedRowsMatch(t, ids, rs, row, p);
    InsertedIdsDistinct(ids, rs, row, p);
    InsertedIdsCover(ids, rs, row, p);
  }

  lemma InsertedRowsMatch(t: Table, ids: set<string>, rs: seq<Row>, row: Row, p: nat)
    requires ids <= t.Keys && |rs| == |ids|
    requires forall i | 0 <= i < |rs| :: rs[i].id in ids && rs[i] == t[rs[i].id]
    requires row.id in t && row.id !in ids && t[row.id] == row
    requires p <= |rs|
    ensures var rs' := InsertAt(rs, row, p);
            && |rs'| == |ids + {row.id}|
            && forall i | 0 <= i < |rs'| :: rs'[i].id in ids + {row.id} && rs'[i] == t[rs'[i].id]
  {
  }

  lemma InsertedIdsDistinct(ids: set<string>, rs: seq<Row>, row: Row, p: nat)
    requires forall i | 0 <= i < |rs| :: rs[i].id in ids
    requires forall i, j | 0 <= i < j < |rs| :: rs[i].id != rs[j].id
    requires row.id !in ids && p <= |rs|
    ensures var rs' := InsertAt(rs, row, p);
            forall i, j | 0 <= i < j < |rs'| :: rs'[i].id != rs'[j].id
  {
  }

  lemma InsertedIdsCover(ids: set<string>, rs: seq<Row>, row: Row, p: nat)
    requires forall k | k in ids :: exists i | 0 <= i < |rs| :: rs[i].id == k
    requires p <= |rs|
    ensures var rs' := InsertAt(rs, row, p);
            forall k | k in ids + {row.id} :: exists i | 0 <= i < |rs'| :: rs'[i].id == k
  {
    var rs' := InsertAt(rs, row, p);
    forall k | k in ids + {row.id} ensures exists i | 0 <= i < |rs'| :: rs'[i].id == k {
      if k == row.id {
        assert rs'[p].id == k;
      } else {
        var i :| 0 <= i < |rs| && rs[i].id == k;
        if i < p {
          assert rs'[i].id == k;
        } else {
          assert rs'[i + 1].id == k;
        }
      }
    }
  }

  /** Ordered by created_at, newest first. */
  predicate RowsNewestFirst(rs: seq<Row>) {
    forall i, j | 0 <= i < j < |rs| :: rs[i].createdAt >= rs[j].createdAt
  }

  /** Users ordered by createdAt, newest first: the rows they are written as are. */
  predicate NewestFirst(users: seq<User>) {
    RowsNewestFirst(ToRows(users))
  }

  /** Rebuilds every row in order; fails, as the first row that does not convert fails. */
  function ToDomainAll(rules: EmailRules, rs: seq<Row>): (r: Result<seq<User>>)
    ensures r.Ok? ==> |r.value| == |rs|
  {
    if rs == [] then Ok([])
    else
      match ToDomain(rules, rs[0])
      case Err(e) => Err(e)
      case Ok(u) =>
        match ToDomainAll(rules, rs[1..])
        case Err(e) => Err(e)
        case Ok(us) => Ok([u] + us)
  }

  /** The user a row stands for, field by field, without re-validating it. */
  function UserOf(row: Row): User {
    User(UserId(row.id), Email(row.email), row.name, row.createdAt, row.updatedAt)
  }

  /** The users `rs` stand for, in the same order. */
  function UsersOf(rs: seq<Row>): (users: seq<User>)
    ensures |users| == |rs|
    ensures forall i | 0 <= i < |rs| :: users[i] == UserOf(rs[i])
  {
    if rs == [] then [] else [UserOf(rs[0])] + UsersOf(rs[1..])
  }

  /** A well-formed row converts to exactly the user it stands for. */
  lemma ToDomainOfWellFormed(rules: EmailRules, row: Row)
    requires RowWellFormed(rules, row)
    ensures ToDomain(rules, row) == Ok(UserOf(row)) && Storable(rules, UserOf(row))
  {
    TrimOfTrimmed(row.name);
  }

  /** Rows that are all well formed convert one by one, in order, and none fails. */
  lemma {:induction false} ToDomainAllOfWellFormed(rules: EmailRules, rs: seq<Row>)
    requires forall row | row in rs :: RowWellFormed(rules, row)
    ensures ToDomainAll(rules, rs) == Ok(UsersOf(rs))
  {
    if rs != [] {
      ToDomainOfWellFormed(rules, rs[0]);
      ToDomainAllOfWellFormed(rules, rs[1..]);
    }
  }

  /** Every row of an enumeration of a kept table is well formed. */
  lemma EnumeratedRowsWellFormed(rules: EmailRules, t: Table, rs: seq<Row>)
    requires TableInvariant(rules, t) && Enumerates(t, rs)
    ensures forall i | 0 <= i < |rs| :: RowWellFormed(rules, rs[i])
  {
    forall i | 0 <= i < |rs|
      ensures RowWellFormed(rules, rs[i])
    {
      assert rs[i] == t[rs[i].id];
    }
  }

  /** Writing back the users some rows stand for gives those rows. */
  lemma ToRowsOfUsersOf(rs: seq<Row>)
    ensures ToRows(UsersOf(rs)) == rs
  {
    assert forall i | 0 <= i < |rs| :: ToRows(UsersOf(rs))[i] == rs[i];
  }

  /** The users well-formed rows stand for are storable. */
  lemma UsersOfStorable(rules: EmailRules, rs: seq<Row>)
    requires forall i | 0 <= i < |rs| :: RowWellFormed(rules, rs[i])
    ensures forall i | 0 <= i < |rs| :: Storable(rules, UsersOf(rs)[i])
  {
  }

  /** The users rows newest first stand for are newest first. */
  lemma UsersOfNewestFirst(rs: seq<Row>)
    requires RowsNewestFirst(rs)
    ensures NewestFirst(UsersOf(rs))
  {
    ToRowsOfUsersOf(rs);
  }

  /** Rebuilding an enumeration of a kept table succeeds and lists the table. */
  lemma EnumerationConverts(rules: EmailRules, t: Table, rs: seq<Row>)
    requires TableInvariant(rules, t) && Enumerates(t, rs)
    ensures ToDomainAll(rules, rs) == Ok(UsersOf(rs))
    ensures Lists(t, UsersOf(rs))
    ensures forall i | 0 <= i < |rs| :: Storable(rules, UsersOf(rs)[i])
    ensures RowsNewestFirst(rs) ==> NewestFirst(UsersOf(rs))
  {
    EnumeratedRowsWellFormed(rules, t, rs);
    assert forall row | row in rs :: RowWellFormed(rules, row);
    ToDomainAllOfWellFormed(rules, rs);
    ToRowsOfUsersOf(rs);
    UsersOfStorable(rules, rs);
    if RowsNewestFirst(rs) {
      UsersOfNewestFirst(rs);
    }
  }

  /** The single adapter of the repository contract, over one `users` table. */
  class SqliteUserRepository {
    const rules: EmailRules
    var rows: Table

    ghost predicate Valid()
      reads this
    {
      rules.Lawful() && TableInvariant(rules, rows)
    }

    /** Opens a store whose table already holds `stored` (empty when just created). */
    constructor (rules: EmailRules, stored: Table)
      requires rules.Lawful() && TableInvariant(rules, stored)
      ensures Valid() && rows == stored
    {
      this.rules := rules;
      rows := stored;
    }

    /** SELECT by primary key; absence is `None`, never an error. */
    method FindById(id: UserId) returns (found: Option<User>)
      requires Valid()
      ensures found.Some? <==> id.ToString() in rows
      ensures found.Some? ==> ToRow(found.value) == rows[id.ToString()] && Storable(rules, found.value)
      ensures found.Some? ==> ToDomain(rules, rows[id.ToString()]) == Ok(found.value)
    {
      if id.ToString() in rows {
        var user := ToDomain(rules, rows[id.ToString()]);
        found := Some(user.value);
      } else {
        found := None;
      }
    }

    /** SELECT by email text; absence is `None`, never an error. */
    method FindByEmail(email: Email) returns (found: Option<User>)
      requires Valid()
      ensures found.Some? <==> EmailOwned(rows, email.ToString())
      ensures found.Some? ==> && found.value.email == email
                              && found.value.id.ToString() in rows
                              && ToRow(found.value) == rows[found.value.id.ToString()]
    {
      if exists k | k in rows :: rows[k].email == email.ToString() {
        var k :| k in rows && rows[k].email == email.ToString();
        var user := ToDomain(rules, rows[k]);
        found := Some(user.value);
      } else {
        found := None;
      }
    }

    /** SELECT COUNT(*) by primary key, compared with zero. */
    method Exists(id: UserId) returns (present: bool)
      ensures present <==> id.ToString() in rows
    {
      present := id.ToString() in rows;
    }

    /**
     * SELECT * ORDER BY created_at DESC, each row rebuilt as a user: every stored user once,
     * newest first.
     */
    method FindAll() returns (users: seq<User>)
      requires Valid()
      ensures Lists(rows, users)
      ensures NewestFirst(users)
      ensures forall i | 0 <= i < |users| :: Storable(rules, users[i])
    {
      var rs := SelectNewestFirst(rows);
      EnumerationConverts(rules, rows, rs);
      var all := ToDomainAll(rules, rs);
      users := all.value;
    }

    /**
     * save: an UPDATE of email, name and updated_at when the id exists, an INSERT of the whole
     * row otherwise. A write that would give two rows one email violates the UNIQUE
     * constraint and fails with the table untouched.
     */
    method Save(user: User) returns (r: Result<()>)
      requires Valid() && Storable(rules, user)
      modifies this
      ensures Valid()
      ensures Transition(r, rows) == SaveOutcome(old(rows), user)
    {
      var present := Exists(user.id);
      if EmailClash(rows, user) {
        return Err(StorageError);
      }
      var k := user.id.ToString();
      if present {
        rows := rows[k := rows[k].(email := user.email.ToString(), name := user.name, updatedAt := user.updatedAt)];
      } else {
        rows := rows[k := ToRow(user)];
      }
      UpsertKeepsInvariant(rules, old(rows), user);
      r := Ok(());
    }

    /** DELETE by primary key; a missing id deletes nothing. */
    method Delete(id: UserId)
      requires Valid()
      modifies this
      ensures Valid()
      ensures rows == Removed(old(rows), id.ToString())
    {
      rows := rows - {id.ToString()};
    }
  }

  /**
   * The storage engine's answer to SELECT * ORDER BY created_at DESC: every row once, newest
   * first. Rows with equal created_at come in an order the engine chooses; this is one.
   */
  method SelectNewestFirst(t: Table) returns (rs: seq<Row>)
    requires KeyedById(t)
    ensures Enumerates(t, rs)
    ensures RowsNewestFirst(rs)
  {
    var remaining := t.Keys;
    ghost var done: set<string> := {};
    rs := [];
    while remaining != {}
      invariant remaining <= t.Keys && done == t.Keys - remaining
      invariant RowsOf(t, done, rs)
      invariant RowsNewestFirst(rs)
      decreases remaining
    {
      var k :| k in remaining;
      var p;
      ghost var listed := rs;
      rs, p := InsertNewestFirst(rs, t[k]);
      RowsOfOneMore(t, done, listed, t[k], p);
      remaining := remaining - {k};
      done := done + {k};
    }
    assert done == t.Keys;
  }

  /**
   * Inserts `row` into a list ordered newest first, after every row at least as new: the
   * result is `rs` with `row` at position `p`, still newest first.
   */
  method InsertNewestFirst(rs: seq<Row>, row: Row) returns (r: seq<Row>, p: nat)
    requires RowsNewestFirst(rs)
    ensures p <= |rs| && r == InsertAt(rs, row, p)
    ensures RowsNewestFirst(r)
  {
    p := 0;
    while p < |rs| && rs[p].createdAt >= row.createdAt
      invariant p <= |rs|
      invariant forall j | 0 <= j < p :: rs[j].createdAt >= row.createdAt
    {
      p := p + 1;
    }
    r := InsertAt(rs, row, p);
  }
}

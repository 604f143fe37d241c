/** Deleting a user by id: an unknown id is an error here, though the repository's delete is not. */
module DeleteUserUseCase {
  import opened Text
  import opened Outcomes
  import opened UserIds
  import opened Emails
  import opened UserRepository

  /**
   * The result of deleting `id` from `t` and the table afterwards: a blank id is refused,
   * then an id with no row is not found; either way nothing changes. Otherwise that one row
   * is removed.
   */
  function Outcome(t: Table, id: string): (o: Transition<()>)
    ensures o.result.Err? <==> IsBlank(id) || id !in t
    ensures o.result.Err? ==> o.table == t
    ensures o.result.Err? ==> o.result.error == if IsBlank(id) then EmptyUserId else UserNotFound
    ensures o.result.Ok? ==> o.table == Removed(t, id) && |o.table| == |t| - 1
  {
    match FromString(id)
    case Err(e) => Transition(Err(e), t)
    case Ok(userId) =>
      if userId.ToString() !in t then Transition(Err(UserNotFound), t)
      else Transition(Ok(()), Removed(t, userId.ToString()))
  }

  /** DeleteUserUseCase.execute against the repository. */
  method Execute(repo: SqliteUserRepository, id: string) returns (r: Result<()>)
    requires repo.Valid()
    modifies repo
    ensures repo.Valid()
    ensures Transition(r, repo.rows) == Outcome(old(repo.rows), id)
  {
    var userId :- FromString(id);
    var present := repo.Exists(userId);
    if !present {
      return Err(UserNotFound);
    }
    repo.Delete(userId);
    r := Ok(());
  }

  /** Deleting keeps the table invariant. */
  lemma DeleteKeepsInvariant(rules: EmailRules, t: Table, id: string)
    requires TableInvariant(rules, t)
    ensures TableInvariant(rules, Outcome(t, id).table)
  {
  }

  /** Deleting the same id a second time fails as not found and changes nothing. */
  lemma DeleteTwiceFails(t: Table, id: string)
    requires Outcome(t, id).result.Ok?
    ensures var t1 := Outcome(t, id).table;
            Outcome(t1, id) == Transition(Err(UserNotFound), t1)
  {
  }
}

/** Reading one user by id: `None` when no user has that id, never a not-found error. */
module GetUserByIdUseCase {
  import opened Text
  import opened Outcomes
  import opened UserIds
  import opened Emails
  import opened UserRepository
  import opened UserDtos

  /**
   * The answer for `id` on table `t`: a blank id is refused; otherwise the record of the
   * row stored under that id, or `None` when there is none. A row that does not convert
   * fails as its conversion fails; on a kept table that never happens.
   */
  function Outcome(rules: EmailRules, t: Table, id: string): (r: Result<Option<UserDto>>)
    ensures IsBlank(id) ==> r == Err(EmptyUserId)
    ensures !IsBlank(id) && id !in t ==> r == Ok(None)
    ensures TableInvariant(rules, t) ==> (r.Err? <==> IsBlank(id))
    ensures TableInvariant(rules, t) && !IsBlank(id) && id in t ==> r == Ok(Some(RowDto(t[id])))
  {
    match FromString(id)
    case Err(e) => Err(e)
    case Ok(userId) =>
      if userId.ToString() !in t then Ok(None)
      else
        match ToDomain(rules, t[userId.ToString()])
        case Err(e) => Err(e)
        case Ok(user) => Ok(Some(ToDto(user)))
  }

  /** GetUserByIdUseCase.execute against the repository; the table is only read. */
  method Execute(repo: SqliteUserRepository, id: string) returns (r: Result<Option<UserDto>>)
    requires repo.Valid()
    ensures r == Outcome(repo.rules, repo.rows, id)
  {
    var userId :- FromString(id);
    var user := repo.FindById(userId);
    if user.None? {
      return Ok(None);
    }
    r := Ok(Some(ToDto(user.value)));
  }
}

/**
 * Creating a user: validate the email, refuse an email some user already has, build the user
 * under a freshly generated id with both timestamps at `now`, save it and return its record.
 * The generated id (`uuid`) and the clock reading (`now`) are inputs.
 */
module CreateUserUseCase {
  import opened Text
  import opened Outcomes
  import opened UserIds
  import opened Emails
  import opened Users
  import opened UserRepository
  import opened UserDtos

  datatype CreateUserInput = CreateUserInput(email: string, name: string)

  /** The row a successful creation stores. */
  function CreatedRow(rules: EmailRules, input: CreateUserInput, uuid: string, now: Time): Row {
    Row(uuid, rules.Normalize(input.email), Trim(input.name), now, now)
  }

  /**
   * The result of creating `input` on table `t`, and the table afterwards. Errors come in
   * the order the steps run: a bad email, then an email already taken (even when the name
   * is blank as well), then a blank name; none of them writes anything. A success adds
   * exactly one row, under the new id, and the uniqueness check ahead of it means the
   * storage constraint never refuses that write.
   */
  function Outcome(rules: EmailRules, t: Table, input: CreateUserInput, uuid: string, now: Time)
    : (o: Transition<UserDto>)
    requires rules.Lawful() && TableInvariant(rules, t)
    requires IsUuidText(uuid) && uuid !in t
    ensures TableInvariant(rules, o.table)
    ensures o.result.Err? <==>
              || !rules.Accepts(input.email)
              || EmailOwned(t, rules.Normalize(input.email))
              || IsBlank(input.name)
    ensures o.result.Err? ==> o.table == t
    ensures o.result.Err? ==>
              o.result.error == (if !rules.Accepts(input.email) then InvalidEmail
                                 else if EmailOwned(t, rules.Normalize(input.email)) then EmailTaken
                                 else EmptyName)
    ensures o.result.Ok? ==>
              && o.result.value == RowDto(CreatedRow(rules, input, uuid, now))
              && o.table == t[uuid := CreatedRow(rules, input, uuid, now)]
  {
    match Emails.Create(rules, input.email)
    case Err(e) => Transition(Err(e), t)
    case Ok(email) =>
      if EmailOwned(t, email.ToString()) then Transition(Err(EmailTaken), t)
      else
        match Users.Create(Generate(uuid), email, input.name, now, now)
        case Err(e) => Transition(Err(e), t)
        case Ok(user) =>
          var saved := SaveOutcome(t, user);
          assert saved.result.Ok?;
          UpsertKeepsInvariant(rules, t, user);
          Transition(Ok(ToDto(user)), saved.table)
  }

  /** CreateUserUseCase.execute against the repository. */
  method Execute(repo: SqliteUserRepository, input: CreateUserInput, uuid: string, now: Time)
    returns (r: Result<UserDto>)
    requires repo.Valid() && IsUuidText(uuid) && uuid !in repo.rows
    modifies repo
    ensures repo.Valid()
    ensures Transition(r, repo.rows) == Outcome(repo.rules, old(repo.rows), input, uuid, now)
  {
    var email :- Emails.Create(repo.rules, input.email);
    var existing := repo.FindByEmail(email);
    if existing.Some? {
      return Err(EmailTaken);
    }
    var user :- Users.Create(Generate(uuid), email, input.name, now, now);
    var saved := repo.Save(user);
    assert saved.Ok?;
    r := Ok(ToDto(user));
  }

  /** A created user carries equal creation and update times, both `now`. */
  lemma CreatedTimestampsAgree(rules: EmailRules, t: Table, input: CreateUserInput, uuid: string, now: Time)
    requires rules.Lawful() && TableInvariant(rules, t)
    requires IsUuidText(uuid) && uuid !in t
    requires Outcome(rules, t, input, uuid, now).result.Ok?
    ensures var d := Outcome(rules, t, input, uuid, now).result.value;
            d.createdAt == d.updatedAt == now && d.id == uuid && |d.id| == 36
  {
  }

  /**
   * Creating a second user whose email normalises to the first one's fails as taken, and
   * leaves the table as the first creation left it.
   */
  lemma SecondCreateWithSameEmailFails(rules: EmailRules, t: Table, first: CreateUserInput,
                                       second: CreateUserInput, uuid1: string, uuid2: string,
                                       now1: Time, now2: Time)
    requires rules.Lawful() && TableInvariant(rules, t)
    requires IsUuidText(uuid1) && uuid1 !in t
    requires Outcome(rules, t, first, uuid1, now1).result.Ok?
    requires rules.Accepts(second.email) && rules.Normalize(second.email) == rules.Normalize(first.email)
    requires var t1 := Outcome(rules, t, first, uuid1, now1).table; IsUuidText(uuid2) && uuid2 !in t1
    ensures var t1 := Outcome(rules, t, first, uuid1, now1).table;
            Outcome(rules, t1, second, uuid2, now2) == Transition(Err(EmailTaken), t1)
  {
    var t1 := Outcome(rules, t, first, uuid1, now1).table;
    assert t1[uuid1].email == rules.Normalize(second.email);
  }
}

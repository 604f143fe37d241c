/**
 * Updating a user: find it by id, validate a new email and refuse one another user holds,
 * apply the rename and the email change, save and return the record. The two clock readings
 * of User.update are inputs.
 */
module UpdateUserUseCase {
  import opened Text
  import opened Outcomes
  import opened UserIds
  import opened Emails
  import opened Users
  import opened UserRepository
  import opened UserDtos

  /** An absent field is not changed. */
  datatype UpdateUserInput = UpdateUserInput(id: string, email: Option<string>, name: Option<string>)

  /** A row other than `id`'s holds the email text `e`. */
  predicate OwnedByOther(t: Table, e: string, id: string) {
    exists k | k in t :: t[k].email == e && k != id
  }

  /**
   * The new email, if one was given: it must validate, and no other user may hold its
   * normal form; the user's own current email is accepted again.
   */
  function NewEmail(rules: EmailRules, t: Table, id: string, email: Option<string>): (r: Result<Option<Email>>)
    ensures email.None? ==> r == Ok(None)
    ensures email.Some? ==> (r.Err? <==> !rules.Accepts(email.value) || OwnedByOther(t, rules.Normalize(email.value), id))
    ensures email.Some? && r.Err? ==>
              r.error == if !rules.Accepts(email.value) then InvalidEmail else EmailInUse
    ensures email.Some? && r.Ok? ==> r.value == Some(Email(rules.Normalize(email.value)))
  {
    if email.None? then Ok(None)
    else
      match Emails.Create(rules, email.value)
      case Err(e) => Err(e)
      case Ok(e) => if OwnedByOther(t, e.ToString(), id) then Err(EmailInUse) else Ok(Some(e))
  }

  /** The row a successful update stores over `stored`. */
  function UpdatedRow(rules: EmailRules, stored: Row, input: UpdateUserInput, renameNow: Time, changeEmailNow: Time): Row {
    Row(stored.id,
        if input.email.Some? then rules.Normalize(input.email.value) else stored.email,
        if input.name.Some? then Trim(input.name.value) else stored.name,
        stored.createdAt,
        if input.email.Some? then changeEmailNow else if input.name.Some? then renameNow else stored.updatedAt)
  }

  /** The checks after the lookup, on the stored user `k`, as the first failing one reports. */
  function StoredFailure(rules: EmailRules, t: Table, k: string, input: UpdateUserInput): Option<Error> {
    if input.email.Some? && !rules.Accepts(input.email.value) then Some(InvalidEmail)
    else if input.email.Some? && OwnedByOther(t, rules.Normalize(input.email.value), k) then Some(EmailInUse)
    else if input.name.Some? && IsBlank(input.name.value) then Some(EmptyName)
    else None
  }

  /** Every check of an update, in the order they run, as the first failing one reports. */
  function Failure(rules: EmailRules, t: Table, input: UpdateUserInput): Option<Error> {
    if IsBlank(input.id) then Some(EmptyUserId)
    else if input.id !in t then Some(UserNotFound)
    else StoredFailure(rules, t, input.id, input)
  }

  /**
   * The result of applying `input` to `t` and the table afterwards. The checks run in the
   * order of Failure, and a failing one writes nothing. A success rewrites only the user's
   * own row: the supplied fields change, id and created_at are kept, and the check on the
   * email means the storage constraint never refuses the write.
   */
  function Outcome(rules: EmailRules, t: Table, input: UpdateUserInput, renameNow: Time, changeEmailNow: Time)
    : (o: Transition<UserDto>)
    requires rules.Lawful() && TableInvariant(rules, t)
    ensures TableInvariant(rules, o.table)
    ensures o.result.Err? <==> Failure(rules, t, input).Some?
    ensures o.result.Err? ==> o.result.error == Failure(rules, t, input).value && o.table == t
    ensures o.result.Ok? ==>
              var row := UpdatedRow(rules, t[input.id], input, renameNow, changeEmailNow);
              o.result.value == RowDto(row) && o.table == t[input.id := row]
  {
    match FromString(input.id)
    case Err(e) => Transition(Err(e), t)
    case Ok(userId) =>
      if userId.ToString() !in t then Transition(Err(UserNotFound), t)
      else UpdateStored(rules, t, userId.ToString(), input, renameNow, changeEmailNow)
  }

  /** Outcome once the user `k` has been found. */
  function UpdateStored(rules: EmailRules, t: Table, k: string, input: UpdateUserInput, renameNow: Time,
                        changeEmailNow: Time): (o: Transition<UserDto>)
    requires rules.Lawful() && TableInvariant(rules, t) && k in t
    ensures TableInvariant(rules, o.table)
    ensures o.result.Err? <==> StoredFailure(rules, t, k, input).Some?
    ensures o.result.Err? ==> o.result.error == StoredFailure(rules, t, k, input).value && o.table == t
    ensures o.result.Ok? ==>
              var row := UpdatedRow(rules, t[k], input, renameNow, changeEmailNow);
              o.result.value == RowDto(row) && o.table == t[k := row]
  {
    var user := StoredUser(rules, t, k);
    StoredFailureIsFirstError(rules, t, k, input, user, renameNow, changeEmailNow);
    match NewEmail(rules, t, k, input.email)
    case Err(e) => Transition(Err(e), t)
    case Ok(newEmail) =>
      match user.Update(input.name, newEmail, renameNow, changeEmailNow)
      case Err(e) => Transition(Err(e), t)
      case Ok(updated) =>
        UpdateIsStorable(rules, t, k, user, newEmail, updated);
        var saved := SaveOutcome(t, updated);
        assert saved.result.Ok?;
        UpsertKeepsInvariant(rules, t, updated);
        UpdatedUserIsUpdatedRow(rules, t, k, input, user, newEmail, updated, renameNow, changeEmailNow);
        Transition(Ok(ToDto(updated)), saved.table)
  }

  /**
   * StoredFailure names the first step of the update that fails: the email check, then the
   * user's own update; when neither fails there is no failure.
   */
  lemma StoredFailureIsFirstError(rules: EmailRules, t: Table, k: string, input: UpdateUserInput, user: User,
                                  renameNow: Time, changeEmailNow: Time)
    ensures var e := NewEmail(rules, t, k, input.email);
            && (e.Err? ==> StoredFailure(rules, t, k, input) == Some(e.error))
            && (e.Ok? ==> var u := user.Update(input.name, e.value, renameNow, changeEmailNow);
                          && (u.Err? ==> StoredFailure(rules, t, k, input) == Some(u.error))
                          && (u.Ok? ==> StoredFailure(rules, t, k, input) == None))
  {
  }

  /** Saving the updated user writes UpdatedRow over the user's row, and returns its record. */
  lemma UpdatedUserIsUpdatedRow(rules: EmailRules, t: Table, k: string, input: UpdateUserInput, user: User,
                                newEmail: Option<Email>, updated: User, renameNow: Time, changeEmailNow: Time)
    requires k in t && ToRow(user) == t[k] && user.id.ToString() == k
    requires NewEmail(rules, t, k, input.email) == Ok(newEmail)
    requires user.Update(input.name, newEmail, renameNow, changeEmailNow) == Ok(updated)
    ensures var row := UpdatedRow(rules, t[k], input, renameNow, changeEmailNow);
            Upsert(t, updated) == t[k := row] && ToDto(updated) == RowDto(row)
  {
    assert ToRow(updated) == UpdatedRow(rules, t[k], input, renameNow, changeEmailNow);
  }

  /** The updated user can be stored, and storing it breaks no uniqueness. */
  lemma UpdateIsStorable(rules: EmailRules, t: Table, k: string, user: User, newEmail: Option<Email>, updated: User)
    requires rules.Lawful() && TableInvariant(rules, t) && k in t
    requires ToRow(user) == t[k] && Storable(rules, user) && user.id.ToString() == k
    requires newEmail.Some? ==> newEmail.value.ValidUnder(rules) && !OwnedByOther(t, newEmail.value.ToString(), k)
    requires updated.Valid() && updated.id == user.id
    requires updated.email == if newEmail.Some? then newEmail.value else user.email
    ensures Storable(rules, updated) && !EmailClash(t, updated)
  {
    if newEmail.None? {
      assert t[k].email == updated.email.ToString();
    }
  }

  /** The email steps of UpdateUserUseCase.execute: validate, then look the email up. */
  method CheckNewEmail(repo: SqliteUserRepository, userId: UserId, email: Option<string>)
    returns (r: Result<Option<Email>>)
    requires repo.Valid()
    ensures r == NewEmail(repo.rules, repo.rows, userId.ToString(), email)
  {
    if email.None? {
      return Ok(None);
    }
    var e :- Emails.Create(repo.rules, email.value);
    var existing := repo.FindByEmail(e);
    if existing.Some? && !existing.value.id.Equals(userId) {
      return Err(EmailInUse);
    }
    r := Ok(Some(e));
  }

  /** UpdateUserUseCase.execute against the repository. */
  method Execute(repo: SqliteUserRepository, input: UpdateUserInput, renameNow: Time, changeEmailNow: Time)
    returns (r: Result<UserDto>)
    requires repo.Valid()
    modifies repo
    ensures repo.Valid()
    ensures Transition(r, repo.rows) == Outcome(repo.rules, old(repo.rows), input, renameNow, changeEmailNow)
  {
    var userId :- FromString(input.id);
    var found := repo.FindById(userId);
    if found.None? {
      return Err(UserNotFound);
    }
    var user := found.value;
    var newEmail :- CheckNewEmail(repo, userId, input.email);
    var updated :- user.Update(input.name, newEmail, renameNow, changeEmailNow);
    UpdateIsStorable(repo.rules, repo.rows, userId.ToString(), user, newEmail, updated);
    var saved := repo.Save(updated);
    assert saved.Ok?;
    r := Ok(ToDto(updated));
  }

  /** With neither field supplied, an update of a stored user rewrites its row unchanged. */
  lemma EmptyUpdateKeepsTable(rules: EmailRules, t: Table, id: string, renameNow: Time, changeEmailNow: Time)
    requires rules.Lawful() && TableInvariant(rules, t) && id in t
    ensures var o := Outcome(rules, t, UpdateUserInput(id, None, None), renameNow, changeEmailNow);
            o.table == t && o.result == Ok(RowDto(t[id]))
  {
    var input := UpdateUserInput(id, None, None);
    assert !IsBlank(id) by {
      assert t[id].id == id && RowWellFormed(rules, t[id]);
    }
    assert Failure(rules, t, input) == None;
    assert UpdatedRow(rules, t[id], input, renameNow, changeEmailNow) == t[id];
    assert t[id := t[id]] == t;
  }

  /** Setting a user's email to the one it already has is not a conflict. */
  lemma OwnEmailIsAccepted(rules: EmailRules, t: Table, id: string, renameNow: Time, changeEmailNow: Time)
    requires rules.Lawful() && TableInvariant(rules, t) && id in t
    ensures var o := Outcome(rules, t, UpdateUserInput(id, Some(t[id].email), None), renameNow, changeEmailNow);
            o.result.Ok? && o.table[id].email == t[id].email && o.table[id].updatedAt == changeEmailNow
  {
    StoredRowConverts(rules, t, id);
  }
}

/**
 * The User entity: an immutable aggregate of id, email, name and timestamps. Every
 * operation returns a new value; the name is kept trimmed and non-empty.
 */
module Users {
  import opened Text
  import opened Outcomes
  import opened UserIds
  import opened Emails

  /** An instant, as milliseconds since the epoch; the clock is read by the caller. */
  type Time = int

  /** The name invariant: non-empty and already trimmed (so equal to its own trim). */
  predicate IsValidName(name: string) {
    name != [] && IsTrimmed(name)
  }

  datatype User = User(id: UserId, email: Email, name: string, createdAt: Time, updatedAt: Time) {

    /** The entity's own invariant. */
    predicate Valid() {
      IsValidName(name)
    }

    /** A copy with the trimmed new name, stamped `now`; a blank name is rejected. */
    function Rename(newName: string, now: Time): (r: Result<User>)
      ensures r.Err? <==> IsBlank(newName)
      ensures r.Err? ==> r.error == EmptyName
      ensures r.Ok? ==> r.value.name == Trim(newName) && r.value.Valid() && r.value.updatedAt == now
      ensures r.Ok? ==> r.value.id == id && r.value.email == email && r.value.createdAt == createdAt
    {
      if |Trim(newName)| == 0 then Err(EmptyName)
      else Ok(this.(name := Trim(newName), updatedAt := now))
    }

    /** A copy with the new email, stamped `now`; id, name and createdAt are kept. */
    function ChangeEmail(newEmail: Email, now: Time): (u: User)
      ensures u.email == newEmail && u.updatedAt == now
      ensures u.id == id && u.name == name && u.createdAt == createdAt
      ensures Valid() ==> u.Valid()
    {
      this.(email := newEmail, updatedAt := now)
    }

    /**
     * Applies Rename, then ChangeEmail, for the fields supplied. Each step reads the clock
     * itself, so the two instants are separate parameters. A blank supplied name fails even
     * when an email is supplied too; with nothing supplied the same user comes back.
     */
    function Update(newName: Option<string>, newEmail: Option<Email>, renameNow: Time, changeEmailNow: Time)
      : (r: Result<User>)
      ensures r.Err? <==> newName.Some? && IsBlank(newName.value)
      ensures r.Err? ==> r.error == EmptyName
      ensures newName.None? && newEmail.None? ==> r == Ok(this)
      ensures r.Ok? ==> r.value.id == id && r.value.createdAt == createdAt
      ensures r.Ok? ==> r.value.name == (if newName.Some? then Trim(newName.value) else name)
      ensures r.Ok? ==> r.value.email == (if newEmail.Some? then newEmail.value else email)
      ensures r.Ok? ==> r.value.updatedAt ==
                        (if newEmail.Some? then changeEmailNow
                         else if newName.Some? then renameNow
                         else updatedAt)
      ensures r.Ok? && Valid() ==> r.value.Valid()
    {
      var renamed := if newName.Some? then Rename(newName.value, renameNow) else Ok(this);
      match renamed
      case Err(e) => Err(e)
      case Ok(u) => Ok(if newEmail.Some? then u.ChangeEmail(newEmail.value, changeEmailNow) else u)
    }
  }

  /**
   * The validating factory: rejects a blank name, stores it trimmed, and passes id, email
   * and both timestamps through unchanged.
   */
  function Create(id: UserId, email: Email, name: string, createdAt: Time, updatedAt: Time): (r: Result<User>)
    ensures r.Err? <==> IsBlank(name)
    ensures r.Err? ==> r.error == EmptyName
    ensures r.Ok? ==> r.value.Valid() && r.value.name == Trim(name)
    ensures r.Ok? ==> && r.value.id == id && r.value.email == email
                      && r.value.createdAt == createdAt && r.value.updatedAt == updatedAt
  {
    if |Trim(name)| == 0 then Err(EmptyName)
    else Ok(User(id, email, Trim(name), createdAt, updatedAt))
  }
}

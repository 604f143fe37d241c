/** Listing all users as records, newest first. */
module GetAllUsersUseCase {
  import opened Users
  import opened UserRepository
  import opened UserDtos

  /** The records of `users`, in the same order. */
  function ToDtos(users: seq<User>): (ds: seq<UserDto>)
    ensures |ds| == |users|
    ensures forall i | 0 <= i < |users| :: ds[i] == ToDto(users[i])
  {
    if users == [] then [] else [ToDto(users[0])] + ToDtos(users[1..])
  }

  /** The records describe every row of `t`, each exactly once. */
  ghost predicate DescribesTable(t: Table, ds: seq<UserDto>) {
    Enumerates(t, DtoRows(ds))
  }

  /** Records ordered by createdAt, newest first: the rows they describe are. */
  predicate DtosNewestFirst(ds: seq<UserDto>) {
    RowsNewestFirst(DtoRows(ds))
  }

  /** Records of a listing of the table describe the table, in the listing's order. */
  lemma DtosOfListing(t: Table, users: seq<User>)
    requires Lists(t, users)
    ensures DescribesTable(t, ToDtos(users))
    ensures NewestFirst(users) ==> DtosNewestFirst(ToDtos(users))
  {
    assert DtoRows(ToDtos(users)) == ToRows(users);
  }

  /** A listing has one record per stored row. */
  lemma DescribedCount(t: Table, ds: seq<UserDto>)
    requires DescribesTable(t, ds)
    ensures |ds| == |t|
  {
    assert |DtoRows(ds)| == |t.Keys|;
  }

  /** GetAllUsersUseCase.execute against the repository; the table is only read. */
  method Execute(repo: SqliteUserRepository) returns (ds: seq<UserDto>)
    requires repo.Valid()
    ensures DescribesTable(repo.rows, ds)
    ensures DtosNewestFirst(ds)
  {
    var users := repo.FindAll();
    ds := ToDtos(users);
    DtosOfListing(repo.rows, users);
  }
}

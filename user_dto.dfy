/** What the use cases hand back to their callers for a user. */
module UserDtos {
  import opened Outcomes
  import opened Users
  import opened UserRepository

  /** The plain record every use case returns for a user: five fields, no behaviour. */
  datatype UserDto = UserDto(id: string, email: string, name: string, createdAt: Time, updatedAt: Time)

  /** The record for a stored row, field by field. */
  function RowDto(row: Row): UserDto {
    UserDto(row.id, row.email, row.name, row.createdAt, row.updatedAt)
  }

  /** The record for a user: exactly what saving that user stores. */
  function ToDto(u: User): (d: UserDto)
    ensures d == RowDto(ToRow(u))
    ensures d.id == u.id.ToString() && d.email == u.email.ToString() && d.name == u.name
  {
    UserDto(u.id.ToString(), u.email.ToString(), u.name, u.createdAt, u.updatedAt)
  }

  /** The row a record describes. */
  function DtoRow(d: UserDto): (row: Row)
    ensures RowDto(row) == d
  {
    Row(d.id, d.email, d.name, d.createdAt, d.updatedAt)
  }

  /** The rows a list of records describes, in the same order. */
  function DtoRows(ds: seq<UserDto>): (rs: seq<Row>)
    ensures |rs| == |ds|
    ensures forall i | 0 <= i < |ds| :: RowDto(rs[i]) == ds[i]
  {
    if ds == [] then [] else [DtoRow(ds[0])] + DtoRows(ds[1..])
  }
}

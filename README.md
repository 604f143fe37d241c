# User management core of barebones-sveltekit-demo, in Dafny

This project models the user-management core of the SvelteKit demo application
`barebones-sveltekit-demo`, which is written in TypeScript. It covers:

- the domain layer: the `UserId` and `User` value objects, with `Email` kept abstract;
- the SQLite repository adapter that stores users in a single `users` table;
- the five application use cases: create, update, delete, get by id and get all.

Each source file has its own Dafny module:

| Dafny module | file | models |
|---|---|---|
| `Outcomes` | `outcomes.dfy` | The errors the core throws, as values of `Error`. `Result` and `Option` stand in for `throw` and `null`. |
| `Text` | `text.dfy` | JavaScript's `String.prototype.trim`, and the ECMAScript whitespace set it uses. |
| `UserIds` | `user_id.dfy` | `UserId` |
| `Emails` | `email.dfy` | `Email`, over abstract validation and normalisation rules (`EmailRules`). |
| `Users` | `user.dfy` | `User`: `create`, `rename`, `changeEmail` and `update`. |
| `UserRepository` | `user_repository.dfy` | `SQLiteUserRepository`. |
| `UserDtos` | `user_dto.dfy` | The plain output record for a user, which create, update, get by id and get all return (delete returns nothing). |
| `CreateUserUseCase`, `UpdateUserUseCase`, `DeleteUserUseCase`, `GetUserByIdUseCase`, `GetAllUsersUseCase` | one file each | The use cases. |

How the model represents the repository:

- The repository is a class, `SqliteUserRepository`.
- Its `rows` field holds the `users` table as a map from primary key to row.
- Its methods rewrite `rows` as the SQL statements would.
- `TableInvariant` states the table's constraints:
  - every row sits under its own id;
  - every row is well formed;
  - `email` is UNIQUE.
- Every method keeps that invariant.

How the model represents the use cases:

- Create, update and delete change the table. Each has an `Outcome` function that gives the result (the record or the error; nothing for delete) together with the table afterwards. Its `Execute` method runs the same steps against the repository object, and its contract ties the result and the new table to `Outcome`.
- Get by id only reads. Its `Outcome` function gives the result alone, and its `Execute` returns exactly that result.
- Get all only reads and has no `Outcome` function. Its `Execute` promises that the records describe every stored row exactly once (`DescribesTable`) and are newest first.
- Lemmas then state what the use cases promise across calls. For example:
  - a second create with the same email fails;
  - deleting twice fails the second time;
  - an empty update changes nothing.

How timestamps and ids are handled:

- Timestamps are integer instants. Each reading of the clock is a parameter. `User.update` reads the clock twice, once in `rename` and once in `changeEmail`, so it takes two instants.
- The random UUID is a parameter too. It must have the canonical lower-case v4 textual form and must not already be a key.

## Model

| member | source | states |
|---|---|---|
| Text.Trim | src/core/domain/user/User.ts:21 | The trimmed name is empty exactly when the input is all whitespace, and it has no whitespace at either end. |
| Text.TrimIsInfix | src/core/domain/user/User.ts:21 | Trimming removes a whitespace prefix and a whitespace suffix and nothing else. |
| Text.TrimOfTrimmed | src/core/domain/user/User.ts:21 | A string with no whitespace at its ends is its own trim, so trimming is idempotent. |
| UserIds.Generate | src/core/domain/user/UserId.ts:6-8 | A generated id is a valid id whose text is the 36-character UUID it was built from. |
| UserIds.FromString | src/core/domain/user/UserId.ts:10-15 | It fails with the empty-id error exactly when the text is empty or whitespace only. Otherwise it keeps the text unchanged, without trimming it. |
| UserIds.FromStringOfToString | src/core/domain/user/UserId.ts:10-19 | Rebuilding a valid id from its text gives back the same id. |
| UserIds.UserId.Equals | src/core/domain/user/UserId.ts:21-23 | Two ids are equal exactly when their values are equal. |
| UserIds.EqualsIsEquivalence | src/core/domain/user/UserId.ts:21-23 | Id equality is reflexive, symmetric and transitive. |
| Emails.Create | src/core/application/user/CreateUserUseCase.ts:93 | It succeeds exactly when the rules accept the text, and otherwise fails with the invalid-email error. The stored value is the normalised text. Under lawful rules that value is a normal form. |
| Emails.CreateOfStored | src/core/infrastructure/user/SQLiteUserRepository.ts:104 | Re-creating an email from its stored normal form gives back the same email. |
| Users.Create | src/core/domain/user/User.ts:15-23 | It fails with the empty-name error exactly when the name is blank. Otherwise the user holds the trimmed name, is valid, and carries the other four fields unchanged. |
| Users.User.Rename | src/core/domain/user/User.ts:45-54 | It fails exactly on a blank name. Otherwise it sets the trimmed name and updatedAt to the clock reading, and keeps id, email and createdAt. |
| Users.User.ChangeEmail | src/core/domain/user/User.ts:56-62 | It sets the email and updatedAt, keeps id, name and createdAt, and keeps the user valid. |
| Users.User.Update | src/core/domain/user/User.ts:64-76 | It fails exactly when a blank new name is given. With no fields it returns the same user. Otherwise the rename applies first and the email change second, so updatedAt is the later clock reading. It keeps the user valid. |
| UserRepository.ToDomain | src/core/infrastructure/user/SQLiteUserRepository.ts:101-109 | A row converts exactly when its id is not blank, its email is accepted and its name is not blank. Failures follow the order id, then email, then name. A converted user holds the row's id, the normalised email, the trimmed name and both timestamps. A well-formed row converts to a storable user whose row is that same row. |
| UserRepository.StoredUser | src/core/infrastructure/user/SQLiteUserRepository.ts:35-44 | The user that a lookup rebuilds from the row under a key is storable, carries that key as its id, and is written back as the same row. |
| UserRepository.ToDomainOfToRow | src/core/infrastructure/user/SQLiteUserRepository.ts:101-109 | Writing a storable user to a row and reading it back gives the same user. |
| UserRepository.StoredRowConverts | src/core/infrastructure/user/SQLiteUserRepository.ts:24-32 | Every row of a table that keeps the invariant converts to a storable user. That user's id is the row's key and its row is the stored row. |
| UserRepository.Upsert | src/core/infrastructure/user/SQLiteUserRepository.ts:64-87 | Save keeps the row's id and created_at and rewrites email, name and updated_at when the id exists. Otherwise it inserts all five fields. Every other row is unchanged. |
| UserRepository.SaveOutcome | src/core/infrastructure/user/SQLiteUserRepository.ts:64-87 | A save fails with a storage error exactly when another row holds the same email, the UNIQUE constraint, and then the table is untouched. Otherwise the table is the upsert. |
| UserRepository.UpsertKeepsInvariant | src/core/infrastructure/user/SQLiteUserRepository.ts:24-32 | A save of a storable user that passes the UNIQUE check keeps the primary key, NOT NULL and UNIQUE constraints. |
| UserRepository.Removed | src/core/infrastructure/user/SQLiteUserRepository.ts:89-92 | Delete removes exactly the row under the id and leaves every other row. A missing id changes nothing. |
| UserRepository.RemovedIdempotent | src/core/infrastructure/user/SQLiteUserRepository.ts:89-92 | Deleting twice is the same as deleting once. |
| UserRepository.SelectNewestFirst | src/core/infrastructure/user/SQLiteUserRepository.ts:58-59 | The query returns every row of the table exactly once, ordered by created_at descending. |
| UserRepository.InsertNewestFirst | src/core/infrastructure/user/SQLiteUserRepository.ts:58 | Inserting one row into a newest-first listing at the position found keeps it newest-first. |
| UserRepository.RowsOfOneMore | src/core/infrastructure/user/SQLiteUserRepository.ts:58-59 | A listing of some rows, with one more row inserted anywhere, is a listing of those rows plus that one. |
| UserRepository.ToDomainAll | src/core/infrastructure/user/SQLiteUserRepository.ts:61 | Mapping the conversion over the rows gives one user per row. |
| UserRepository.ToDomainAllOfWellFormed | src/core/infrastructure/user/SQLiteUserRepository.ts:61 | When every row is well formed, the mapping succeeds and gives each row's user in order. |
| UserRepository.EnumerationConverts | src/core/infrastructure/user/SQLiteUserRepository.ts:57-62 | Converting a full listing of a kept table succeeds. The users list the table, are storable, and stay newest-first when the rows were. |
| UserRepository.SqliteUserRepository.constructor | src/core/infrastructure/user/SQLiteUserRepository.ts:18-33 | Opening the store over a table that keeps the invariant yields a valid repository holding that table. |
| UserRepository.SqliteUserRepository.FindById | src/core/infrastructure/user/SQLiteUserRepository.ts:35-44 | It finds a user exactly when the id is a key. That user is the conversion of the row and is storable. |
| UserRepository.SqliteUserRepository.FindByEmail | src/core/infrastructure/user/SQLiteUserRepository.ts:46-55 | It finds a user exactly when some row holds the email text. That user has the email, and its row is stored under its own id. |
| UserRepository.SqliteUserRepository.FindAll | src/core/infrastructure/user/SQLiteUserRepository.ts:57-62 | It returns every stored user exactly once, newest first, each storable. |
| UserRepository.SqliteUserRepository.Save | src/core/infrastructure/user/SQLiteUserRepository.ts:64-87 | Its result and the new table are the save outcome, and the invariant is kept. |
| UserRepository.SqliteUserRepository.Delete | src/core/infrastructure/user/SQLiteUserRepository.ts:89-92 | The new table is the old one without the id, and the invariant is kept. |
| UserRepository.SqliteUserRepository.Exists | src/core/infrastructure/user/SQLiteUserRepository.ts:94-99 | It answers true exactly when a row has that id. |
| UserDtos.ToDto | src/core/application/user/CreateUserUseCase.ts:111-117 | The record of a user holds exactly the fields that saving the user stores. |
| CreateUserUseCase.Outcome | src/core/application/user/CreateUserUseCase.ts:92-118 | It fails exactly on an invalid email, an email some user already holds, or a blank name, checked in that order, and then writes nothing. On success it adds exactly one row under the new id, with the normalised email, the trimmed name and both timestamps at the clock reading, and returns that row's record. The table invariant is kept. |
| CreateUserUseCase.Execute | src/core/application/user/CreateUserUseCase.ts:92-118 | Run against the repository, it gives the outcome's result and leaves the outcome's table. |
| CreateUserUseCase.CreatedTimestampsAgree | src/core/application/user/CreateUserUseCase.spec.ts:82-96 | A created user's createdAt and updatedAt are equal, and its id is the 36-character generated UUID. |
| CreateUserUseCase.SecondCreateWithSameEmailFails | src/core/application/user/CreateUserUseCase.spec.ts:48-67 | After a successful create, creating another user whose email normalises to the same text fails as taken and saves nothing. |
| UpdateUserUseCase.NewEmail | src/core/application/user/UpdateUserUseCase.ts:30-38 | An absent email is no change. A given one fails as invalid when the rules refuse it, or as in use when another user's row holds its normal form. The user's own email is accepted. |
| UpdateUserUseCase.CheckNewEmail | src/core/application/user/UpdateUserUseCase.ts:30-38 | Validating and looking the email up through the repository gives NewEmail's answer. |
| UpdateUserUseCase.Outcome | src/core/application/user/UpdateUserUseCase.ts:22-54 | It fails exactly when a check fails: blank id, unknown id, invalid email, email in use, blank name, in that order. A failure writes nothing. On success only the user's row changes: supplied fields are replaced, id and created_at are kept, and updated_at is the latest clock reading used. It returns that row's record and keeps the table invariant. |
| UpdateUserUseCase.UpdateStored | src/core/application/user/UpdateUserUseCase.ts:30-45 | Once the user is found, the same holds for the checks that follow the lookup. |
| UpdateUserUseCase.StoredFailureIsFirstError | src/core/application/user/UpdateUserUseCase.ts:30-43 | The failure the update reports after the lookup is the email check's error when that check fails, otherwise the rename's error, and there is none when both steps succeed. |
| UpdateUserUseCase.UpdateIsStorable | src/core/application/user/UpdateUserUseCase.ts:34-45 | The updated user can be stored, and the email check means the UNIQUE constraint never refuses its save. |
| UpdateUserUseCase.UpdatedUserIsUpdatedRow | src/core/application/user/UpdateUserUseCase.ts:40-53 | Saving the updated user rewrites the user's row to the updated row and returns that row's record. |
| UpdateUserUseCase.Execute | src/core/application/user/UpdateUserUseCase.ts:22-54 | Run against the repository, it gives the outcome's result and leaves the outcome's table. |
| UpdateUserUseCase.EmptyUpdateKeepsTable | src/core/application/user/UpdateUserUseCase.ts:40-45 | An update of a stored user with neither field leaves the table as it was and returns the stored record. |
| UpdateUserUseCase.OwnEmailIsAccepted | src/core/application/user/UpdateUserUseCase.ts:34-36 | Setting a user's email to the one it already holds succeeds and refreshes updated_at. |
| DeleteUserUseCase.Outcome | src/core/application/user/DeleteUserUseCase.ts:7-16 | It fails with the empty-id error on a blank id, and with not-found when there is no row, and then writes nothing. Otherwise it removes exactly that row, so the table shrinks by one. |
| DeleteUserUseCase.Execute | src/core/application/user/DeleteUserUseCase.ts:7-16 | Run against the repository, it gives the outcome's result and leaves the outcome's table. |
| DeleteUserUseCase.DeleteKeepsInvariant | src/core/application/user/DeleteUserUseCase.ts:15 | Deleting keeps the table invariant. |
| DeleteUserUseCase.DeleteTwiceFails | src/core/application/user/DeleteUserUseCase.ts:7-16 | Deleting the same id a second time fails as not found and changes nothing. |
| GetUserByIdUseCase.Outcome | src/core/application/user/GetUserByIdUseCase.ts:15-30 | A blank id fails with the empty-id error. An unknown id gives no record, not an error. On a kept table a known id gives the record of its row, and a blank id is the only failure. |
| GetUserByIdUseCase.Execute | src/core/application/user/GetUserByIdUseCase.ts:15-30 | Run against the repository, it gives the outcome and changes nothing. |
| GetAllUsersUseCase.ToDtos | src/core/application/user/GetAllUsersUseCase.ts:17-23 | One record per user, in the same order. |
| GetAllUsersUseCase.DtosOfListing | src/core/application/user/GetAllUsersUseCase.ts:14-24 | The records of a listing of the table describe every row exactly once, and they are newest-first when the listing was. |
| GetAllUsersUseCase.DescribedCount | src/core/application/user/GetAllUsersUseCase.ts:14-24 | A listing has exactly one record per stored row. |
| GetAllUsersUseCase.Execute | src/core/application/user/GetAllUsersUseCase.ts:14-24 | It returns one record for every stored row, each row exactly once, ordered by created_at descending. |

## Left out

- The HTTP routes, the dependency-injection container and the barrel files are not modelled. They only wire the core. A request body with missing fields is handled there, so `CreateUserInput` always has both fields.
- `async` and `await` are not modelled; calls run one after another. Two requests interleaving between the email lookup and the save could both pass the lookup. The model cannot express that race, and in the code the UNIQUE constraint would then reject the second save.
- Timestamps are integer instants instead of `Date` objects and ISO-8601 text. The model assumes that converting to and from text loses nothing.
- RowsNewestFirst: `ORDER BY created_at DESC` compares the stored ISO-8601 text, and the model compares instants instead. The two orders agree only for years 0000 to 9999. Outside that range `toISOString` writes a signed six-digit year, and the model does not capture the order of such text.
- `new Date()` is not modelled as a clock; each reading is a parameter. `User.update` reads the clock once in `rename` and once in `changeEmail`, and the model keeps both readings. A single update time would be the simpler reading, but the code reads twice and the model follows the code.
- `randomUUID` is not modelled. Its result is a parameter that must be a canonical v4 UUID not already used as a key. The model does not capture randomness or collisions.
- `Email.ts` is not part of this model. The email pattern and the normalisation (lower-casing) are abstract `EmailRules`. The model assumes `Lawful()`: the normal form of an accepted address is itself accepted and already normal.
- The SQL text, the database file path, the CREATE TABLE statement and `close()` are not modelled. The table is a map from id to row.
- The model assumes the table a repository opens was written only through this repository, so it already satisfies `TableInvariant`. For other tables, `ToDomain` still models how a malformed row fails.
- Storage errors other than the UNIQUE(email) violation are not modelled, such as I/O failures or a locked database.
- SelectNewestFirst: the engine may return rows with equal created_at in any order. The model fixes one such order and proves only that the result is ordered by created_at.
- ToDomainAll: when a row fails to convert, the model reports the first failing row's error and states only the length of a successful result. A table that keeps the invariant never contains a failing row.

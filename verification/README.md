# User service — a Dafny model

This project models the core of a small ASP.NET user-management service: a `Users`
table behind a repository, FluentValidation rule sets, MediatR command and query
handlers that return FluentResults `Result` values, a validation pipeline step, and
the `UsersController` actions that turn results into HTTP responses.

The repository holds two iterations of the service (`MFO.UserService.*` and
`UserService.*`). The model follows the files where each piece lives and runs every
handler against one store.

How the model is laid out:

- **Store** (`Repository.dfy`). The class `UserRepository` holds the table as a
  `map<Guid, User>`.
  - Reads are functions of the map. Writes are methods that replace it.
  - `Valid()` is the store invariant: every row is keyed by its own `Id`, and the
    unique index `IX_User_Email` holds. Because the column is nullable, uniqueness
    applies only among non-null emails.
  - `SaveChanges` failures (duplicate key, duplicate email, missing row) are values
    of `DbResult`.
- **Identifiers** (`Domain.dfy`). A `Guid` is a 128-bit integer. `Guid.Empty` is 0,
  and the model's listing orders ids by that integer.
- **Seeding** (`DbInitializer.dfy`). The seed routine is a method on the store.
- **Domain** (`Domain.dfy`, `Text.dfy`). The `User` entity and `FullName`, with
  .NET's `Trim` written out over `char.IsWhiteSpace`.
- **Validators** (`Validators.dfy`). Every rule in a chain runs, which is
  FluentValidation's default cascade, and chains report in declaration order.
- **Pipeline step** (`ValidationBehavior.dfy`). The step that collects validator
  failures.
- **Handlers** (`Commands.dfy`, `Queries.dfy`). Each one takes the services it
  depends on as parameters:
  - `validation`: the messages the injected validator produced;
  - `hash`: the password hasher;
  - `toUser`, `toDto`, `mapFlag`: the AutoMapper maps;
  - a fresh id and the clock readings.

  A handler ends in `Outcome`: either the `Result` it returns, or an exception that
  escapes it.
- **Controller** (`Controller.dfy`). Maps each outcome to a status and a body. An
  escaped exception becomes 500, because no exception handler is installed.

C# `int` arithmetic is written out in `Int32.dfy`. The model computes the page offset
and the zero-based page number over the integers. The `...AsWritten` members keep the
wrap-around, and "## Findings" shows where that wrap-around matters.

In two places the unit tests disagree with the code, and the model follows the code:

- The paged listing fails on an empty page.
- The MFO email query reports a `NotFoundError` whose message names the email.

## Model

| member | source | states |
|---|---|---|
| `Text.Trim` | src/UserService.Domain/Entities/User.cs:13 | the trimmed text neither starts nor ends with a white-space character |
| `Text.TrimUnique` | src/UserService.Domain/Entities/User.cs:13 | trimming white space around a text whose ends are not white space gives back exactly that text |
| `Text.TrimIgnoresTrailingWhiteSpace` | src/UserService.Domain/Entities/User.cs:13 | appending white space does not change the trimmed text |
| `Domain.User.FullName` | src/UserService.Domain/Entities/User.cs:13 | the full name never begins or ends with white space |
| `Domain.FullNameJoins` | src/UserService.Domain/Entities/User.cs:13 | with both names present and not padded, the full name is first name, one space, last name |
| `Domain.FullNameWithoutFirst` | src/UserService.Domain/Entities/User.cs:13 | with a null or empty first name, the full name is the trimmed last name |
| `Domain.FullNameWithoutLast` | src/UserService.Domain/Entities/User.cs:13 | with a null or empty last name, the full name is the trimmed first name |
| `Domain.NewUser` | src/UserService.Domain/Entities/User.cs:5-11 | a freshly constructed user is active, has the empty id and null text fields |
| `Domain.Hex` | src/MFO.UserService.Application/CommandsQueries/Queries/GetUserByIdQueryHandler.cs:31 | `width` lower-case hex digits, which read back as the number whenever it has at most `width` digits |
| `Domain.GuidText` | src/MFO.UserService.Application/CommandsQueries/Queries/GetUserByIdQueryHandler.cs:31 | an id is interpolated as 36 characters: hyphens at positions 8, 13, 18 and 23, lower-case hex digits elsewhere, and the 32 digits read back as the id |
| `Domain.GuidTextInjective` | src/MFO.UserService.Application/CommandsQueries/Queries/GetUserByIdQueryHandler.cs:31 | different ids give different texts |
| `Messages.IdNotFoundNamesId` | src/MFO.UserService.Application/CommandsQueries/Queries/GetUserByIdQueryHandler.cs:31 | different ids give different "not found" messages, so the message names the one id asked for |
| `Int32.Wrap` | src/MFO.UserService.Infrastructure/Repositories/UserRepository.cs:30 | the result is a 32-bit value congruent to the input modulo 2^32, and equal to it when it already fits |
| `Results.PlainErrors` | src/MFO.UserService.Application/CommandsQueries/Commands/CreateUserCommandHandler.cs:38 | one plain error per message, same message, same order |
| `Repository.Page` | src/MFO.UserService.Infrastructure/Repositories/UserRepository.cs:30-31 | empty exactly when the size is 0 or less or the offset (a negative one counting as 0) is at or past the end; otherwise the consecutive run starting at that offset, at most `size` long and shorter only where it reaches the end |
| `Repository.OrderedRows` | src/MFO.UserService.Infrastructure/Repositories/UserRepository.cs:29 | lists every stored row and only stored rows, as many as the table holds, in strictly ascending id order |
| `Repository.Ordering` | src/MFO.UserService.Infrastructure/Repositories/UserRepository.cs:29 | every table whose rows sit under their own ids has such an ascending listing |
| `Repository.SameOrdering` | src/MFO.UserService.Infrastructure/Repositories/UserRepository.cs:29 | two ascending listings of the same table are equal, so the ordering has one answer |
| `Repository.WindowOfRows` | src/MFO.UserService.Infrastructure/Repositories/UserRepository.cs:30-31 | a run of consecutive entries of the ordered table is itself in ascending id order and holds only stored rows |
| `Repository.UserRepository.constructor` | src/MFO.UserService.Infrastructure/Persistence/AppDbContext.cs:21-24 | a new store is empty and satisfies the key and unique-email invariant |
| `Repository.UserRepository.GetById` | src/MFO.UserService.Infrastructure/Repositories/UserRepository.cs:17-19 | returns the row stored under the id, and nothing exactly when there is none |
| `Repository.UserRepository.Rows` | src/MFO.UserService.Infrastructure/Repositories/UserRepository.cs:27-29 | every row of the table, only stored rows, each once, strictly ascending by id |
| `Repository.UserRepository.GetByEmail` | src/MFO.UserService.Infrastructure/Repositories/UserRepository.cs:21-24 | returns the stored user with exactly that email, who is the only one; nothing exactly when no user has it |
| `Repository.UserRepository.ExistsByEmail` | src/MFO.UserService.Infrastructure/Repositories/UserRepository.cs:63-64 | true exactly when the email lookup finds a user |
| `Repository.UserRepository.GetAll` | src/MFO.UserService.Infrastructure/Repositories/UserRepository.cs:26-32 | empty exactly when the size is 0 or less or `pageNumber * pageSize` is at or past the row count; otherwise the run of the id-ordered table starting at that offset, at most `pageSize` rows, shorter only at the end; its ids ascend and every entry is a stored row |
| `Repository.UserRepository.GetAllAsWritten` | src/MFO.UserService.Infrastructure/Repositories/UserRepository.cs:30 | with `int` wrap-around at the product; equals `GetAll` whenever the product fits in 32 bits |
| `Repository.UserRepository.EveryRowOnItsPage` | src/MFO.UserService.Infrastructure/Repositories/UserRepository.cs:26-32 | row i of the ordered table is entry `i % size` of page `i / size` |
| `Repository.UserRepository.ConsecutivePagesOrdered` | src/MFO.UserService.Infrastructure/Repositories/UserRepository.cs:29-31 | every id on page p is below every id on page p + 1, so consecutive pages never overlap |
| `Repository.UserRepository.PastTheEndIsEmpty` | src/MFO.UserService.Infrastructure/Repositories/UserRepository.cs:30-31 | a page whose offset is at or past the row count is empty |
| `Repository.UserRepository.OffsetOverflowRestartsAtFirstPage` | src/MFO.UserService.Infrastructure/Repositories/UserRepository.cs:30 | page 2^30 of size 4 returns the first page with `int` arithmetic, and nothing with exact arithmetic |
| `Repository.UserRepository.Add` | src/MFO.UserService.Infrastructure/Repositories/UserRepository.cs:34-39 | inserts the user under its id and returns the same record; a taken id or email throws and leaves the table unchanged |
| `Repository.UserRepository.Update` | src/MFO.UserService.Infrastructure/Repositories/UserRepository.cs:41-46 | overwrites the row with the same id and returns the record; a missing row or another user's email throws and changes nothing |
| `Repository.UserRepository.SetUserActiveState` | src/MFO.UserService.Infrastructure/Repositories/UserRepository.cs:48-54 | writes the record with the given active flag and returns true; for the stored record only that row's flag changes and the store cannot refuse |
| `Repository.UserRepository.Delete` | src/MFO.UserService.Infrastructure/Repositories/UserRepository.cs:56-61 | removes exactly that user's row, keeps all others, returns true |
| `DbInitializer.SeedUser` | src/MFO.UserService.Infrastructure/Utilities/DbInitializer.cs:15-27 | the seed user is John Doe, JohnDoe@gmail.com, with no password hash, active, created at the given time |
| `DbInitializer.Seeded` | src/MFO.UserService.Infrastructure/Utilities/DbInitializer.cs:10-30 | a non-empty table is unchanged; an empty one ends holding exactly the seed user |
| `DbInitializer.Initialize` | src/MFO.UserService.Infrastructure/Utilities/DbInitializer.cs:8-31 | the table afterwards is the seeded table of the table before |
| `DbInitializer.SeedingIsIdempotent` | src/MFO.UserService.Infrastructure/Utilities/DbInitializer.cs:10-13 | seeding twice leaves the table of seeding once, whatever id and time the second run draws |
| `DbInitializer.SeededTable` | src/MFO.UserService.Infrastructure/Utilities/DbInitializer.cs:10-30 | a seeded table keeps the store invariant (rows under their own ids, no non-null email twice), is never empty, and a freshly seeded one holds only active users |
| `Validators.NameRules` | src/MFO.UserService.Application/Validators/CreateUserDtoValidator.cs:11-16 | "required" exactly for a blank name, "must not exceed 50" exactly above 50 characters; exactly 50 passes |
| `Validators.EmailShapeRules` | src/MFO.UserService.Application/Validators/CreateUserDtoValidator.cs:17-20 | each of "required", "invalid format", "over 100 characters" is reported exactly when its rule fails |
| `Validators.PasswordRules` | src/MFO.UserService.Application/Validators/CreateUserDtoValidator.cs:22-24 | "required" exactly for a blank password, "at least 6" exactly below 6 characters; 6 passes |
| `Validators.CreateUserRules` | src/MFO.UserService.Application/Validators/CreateUserDtoValidator.cs:11-24 | given the store's answer to the uniqueness lookup, no message exactly when every rule holds and the email is not taken |
| `Validators.CreateUserDtoValidator` | src/MFO.UserService.Application/Validators/CreateUserDtoValidator.cs:11-24 | no message exactly when every rule of the four chains holds, the uniqueness rule included; "Email must be unique." exactly when the store holds the email |
| `Validators.CreateUserDtoShapeValidator` | src/UserService.Application/Validators/CreateUserDtoValidator.cs:8-23 | the explicit iteration's validator: no message exactly when the name, email-shape and password rules hold; never "Email must be unique." |
| `Validators.CreateUserFirstNameMessages` | src/MFO.UserService.Application/Validators/CreateUserDtoValidator.cs:11-13 | in the whole rule set, each first-name message appears exactly when its rule fails |
| `Validators.CreateUserLastNameMessages` | src/MFO.UserService.Application/Validators/CreateUserDtoValidator.cs:14-16 | in the whole rule set, each last-name message appears exactly when its rule fails |
| `Validators.CreateUserEmailMessages` | src/MFO.UserService.Application/Validators/CreateUserDtoValidator.cs:17-21 | in the whole rule set, each email message appears exactly when its rule fails; "Email must be unique." exactly when the lookup says the email is taken |
| `Validators.CreateUserPasswordMessages` | src/MFO.UserService.Application/Validators/CreateUserDtoValidator.cs:22-24 | in the whole rule set, each password message appears exactly when its rule fails |
| `Validators.EmptyPasswordFailsBothRules` | src/MFO.UserService.Application/Validators/CreateUserDtoValidator.cs:22-24 | an empty password yields both password messages, in rule order |
| `Validators.AcceptedEmailIsFree` | src/MFO.UserService.Application/Validators/CreateUserDtoValidator.cs:21 | a request the validator accepts carries an email no stored user has |
| `Validators.GetUserByEmailDtoValidator` | src/MFO.UserService.Application/Validators/GetUserByEmailDtoValidator.cs:8-14 | each email message exactly when its rule fails, at most three messages, no store involved |
| `Validators.EmailRulesShared` | src/MFO.UserService.Application/Validators/GetUserByEmailDtoValidator.cs:10-13 | every message of the search validator is also reported by the create validator for the same email |
| `Validators.GetUserByIdQueryValidator` | src/MFO.UserService.Application/Validators/Queries/GetUserByIdQueryValidator.cs:10-11 | passes exactly for a non-empty id; otherwise exactly one message, "Id is required." |
| `ValidationBehavior.CollectFailures` | src/UserService.API/Middlewares/ValidationBehaviorMiddleware.cs:30-33 | no failure exactly when every entry of every run is null |
| `ValidationBehavior.Present` | src/UserService.API/Middlewares/ValidationBehaviorMiddleware.cs:32 | empty exactly when every entry of the run is null, and never longer than the run |
| `ValidationBehavior.PresentMessages` | src/UserService.API/Middlewares/ValidationBehaviorMiddleware.cs:32 | a message is kept exactly when the run reported it |
| `ValidationBehavior.PresentAppend` | src/UserService.API/Middlewares/ValidationBehaviorMiddleware.cs:32 | dropping nulls distributes over splitting a run, so each run keeps its order |
| `ValidationBehavior.PresentSingle` | src/UserService.API/Middlewares/ValidationBehaviorMiddleware.cs:32 | a single entry yields its message, or nothing when it is null |
| `ValidationBehavior.CollectFailuresAppend` | src/UserService.API/Middlewares/ValidationBehaviorMiddleware.cs:30-33 | collecting is concatenation in validator order |
| `ValidationBehavior.CollectedMessages` | src/UserService.API/Middlewares/ValidationBehaviorMiddleware.cs:30-33 | a message is collected exactly when some validator reported it |
| `ValidationBehavior.Handle` | src/UserService.API/Middlewares/ValidationBehaviorMiddleware.cs:18-45 | no validators, or no failures: `next` runs once and its result is returned; otherwise `next` never runs and the result holds one error per failure, same message, same order |
| `Commands.CreateUserAudited` | src/MFO.UserService.Application/CommandsQueries/Commands/CreateUserCommandHandler.cs:32-63 | validation failure or a taken email returns the failure and leaves the store alone; otherwise exactly one row, with the fresh id, the hash, the active flag and the "system" audit stamps, is inserted and its mapping returned |
| `Commands.Audited` | src/MFO.UserService.Application/CommandsQueries/Commands/CreateUserCommandHandler.cs:48-55 | the inserted record keeps the mapped names and email and sets id, hash, active flag and both audit stamps |
| `Commands.CreateUser` | src/UserService.Application/CommandsQueries/Commands/CreateUserCommandHandler.cs:32-64 | validation failure or a taken email returns the failure and changes nothing; otherwise the store grows by exactly the new user and its mapping is returned |
| `Commands.Created` | src/UserService.Application/CommandsQueries/Commands/CreateUserCommandHandler.cs:48-57 | the new user copies the names and the email verbatim, holds hash(password), is active |
| `Commands.CreateUserValidated` | src/UserService.Application/CommandsQueries/Commands/CreateUserCommandHandler.cs:34-46 | behind this service's validator, which has no uniqueness rule: its messages when a rule fails; otherwise the duplicate-email failure exactly when the email is stored; success exactly for requests that pass every rule with a free email, inserting the created row |
| `Commands.Overwritten` | src/UserService.Application/CommandsQueries/Commands/UpdateUserCommandHandler.cs:46-50 | names, email, hash and active flag come from the request; id, creation and modification stamps stay |
| `Commands.UpdateUser` | src/UserService.Application/CommandsQueries/Commands/UpdateUserCommandHandler.cs:32-57 | validation failure, or an unknown id with its `NotFoundError`, changes nothing; otherwise only the target row is overwritten (reactivation included) and its mapping returned |
| `Commands.DeactivateUser` | src/MFO.UserService.Application/CommandsQueries/Commands/DeactivateUserCommandHandler.cs:23-42 | unknown id: `NotFoundError`, no change; known id: that row stays, now inactive, every other field and row unchanged, and the response maps it |
| `Commands.DeactivateUserAsWritten` | src/MFO.UserService.Application/CommandsQueries/Commands/DeactivateUserCommandHandler.cs:39-41 | the same store change, but the response depends only on the mapping of the boolean `true` |
| `Commands.FlagResponse` | src/MFO.UserService.Application/CommandsQueries/Commands/DeactivateUserCommandHandler.cs:39-41 | the answer is an exception when no map for the boolean exists, otherwise the mapped `true` |
| `Commands.FlagResponseIgnoresUser` | src/MFO.UserService.Application/CommandsQueries/Commands/DeactivateUserCommandHandler.cs:39 | the as-written answer cannot carry the id of both of two different users |
| `Commands.DeleteUser` | src/MFO.UserService.Application/CommandsQueries/Commands/DeleteUserCommandHandler.cs:19-36 | unknown id: `NotFoundError`, no change; known id: exactly that row is removed and `Ok` carries no value |
| `Commands.DeleteTwice` | src/MFO.UserService.Application/CommandsQueries/Commands/DeleteUserCommandHandler.cs:21-35 | a second delete of the same id reports it not found, and a lookup finds nothing |
| `Commands.DeactivateTwice` | src/MFO.UserService.Application/CommandsQueries/Commands/DeactivateUserCommandHandler.cs:25-41 | deactivating twice succeeds twice with the same answer and leaves the user inactive |
| `Queries.GetUserById` | src/MFO.UserService.Application/CommandsQueries/Queries/GetUserByIdQueryHandler.cs:25-36 | a single `NotFoundError` exactly when the id is absent; otherwise the mapped stored row |
| `Queries.GetUserByEmail` | src/MFO.UserService.Application/CommandsQueries/Queries/GetUserByEmailQueryHandler.cs:29-48 | validation failure returns exactly the validator's messages; an absent email returns its `NotFoundError`; success maps the stored user with that email |
| `Queries.GetUserByEmailPlain` | src/UserService.Application/CommandsQueries/Queries/GetUserByEmailQueryHandler.cs:28-47 | as above, but an absent email fails with the plain "User not found", never a `NotFoundError` |
| `Queries.EmailQueriesAgree` | src/UserService.Application/CommandsQueries/Queries/GetUserByEmailQueryHandler.cs:39-42 | the two iterations succeed on the same requests with the same value |
| `Queries.BlankEmailRejected` | src/MFO.UserService.Application/CommandsQueries/Queries/GetUserByEmailQueryHandler.cs:31-36 | behind the search validator, a blank email fails with "Email is required." and no `NotFoundError` |
| `Queries.PageSizeOf` | src/MFO.UserService.Application/CommandsQueries/Queries/GetAllUsersQueryHandler.cs:16-28 | a supplied size is used unchanged, an absent one is 3 |
| `Queries.ZeroBasedPage` | src/MFO.UserService.Application/CommandsQueries/Queries/GetAllUsersQueryHandler.cs:29-31 | never negative; n becomes n - 1 for n at least 1; absent or at most 1 becomes 0 |
| `Queries.ZeroBasedPageAsWritten` | src/MFO.UserService.Application/CommandsQueries/Queries/GetAllUsersQueryHandler.cs:30 | with `int` subtraction; equals `ZeroBasedPage` for every page number above `int.MinValue` |
| `Queries.MinValuePageNumberWraps` | src/MFO.UserService.Application/CommandsQueries/Queries/GetAllUsersQueryHandler.cs:30 | page number `int.MinValue` becomes `int.MaxValue` as written and 0 as intended |
| `Queries.MapAll` | src/MFO.UserService.Application/CommandsQueries/Queries/GetAllUsersQueryHandler.cs:40-42 | the mapped list has the page's length and order |
| `Queries.GetAllUsers` | src/MFO.UserService.Application/CommandsQueries/Queries/GetAllUsersQueryHandler.cs:26-45 | "No users found." exactly for an empty page; otherwise the page, mapped, in order |
| `Queries.GetAllUsersAsWritten` | src/MFO.UserService.Application/CommandsQueries/Queries/GetAllUsersQueryHandler.cs:28-38 | the same over the `int`-arithmetic page number and offset |
| `Queries.LowPageNumbersListFirstPage` | src/MFO.UserService.Application/CommandsQueries/Queries/GetAllUsersQueryHandler.cs:29-31 | every page number at or below 1, including 0 and negatives, lists the same page as none |
| `Queries.DefaultQueryListsFirstUsers` | src/MFO.UserService.Application/CommandsQueries/Queries/GetAllUsersQueryHandler.cs:28-33 | with no parameters a non-empty store lists its first min(3, count) users in id order |
| `Queries.NonPositivePageSizeListsNothing` | src/MFO.UserService.Application/CommandsQueries/Queries/GetAllUsersQueryHandler.cs:28-38 | under LINQ semantics, a supplied size of zero or less is not clamped and yields "No users found." |
| `Queries.MinValuePageNumberFindsNothing` | src/MFO.UserService.Application/CommandsQueries/Queries/GetAllUsersQueryHandler.cs:29-38 | page number `int.MinValue` reports "No users found." as written where the first page is listed as intended |
| `Controller.ReadResponse` | src/MFO.UserService.API/Controllers/UsersController.cs:52-66 | 404 with no body exactly for a `NotFoundError`, 400 with the errors for any other failure, 200 with the value on success |
| `Controller.GetUserById` | src/MFO.UserService.API/Controllers/UsersController.cs:46-67 | 404 exactly when the id is absent, otherwise 200 with the mapped row |
| `Controller.GetUserByEmail` | src/MFO.UserService.API/Controllers/UsersController.cs:87-108 | validation failures give 400 with their messages; after validation, 404 exactly when no user has the email, and 200 exactly when one has, carrying that user's view |
| `Controller.PlainEmailQueryNever404` | src/MFO.UserService.API/Controllers/UsersController.cs:97-102 | over the plain-error handler the action never answers 404; an unknown email is 400 "User not found" |
| `Controller.GetAllUsers` | src/MFO.UserService.API/Controllers/UsersController.cs:132-154 | only 200 or 400; 400 with "No users found." exactly for an empty page; 200 carries the page, mapped, in order |
| `Controller.CreateResponse` | src/MFO.UserService.API/Controllers/UsersController.cs:185-200 | any failure is 400, never 404; success is 201 with the value, pointing at `GetUserById` for its id; an escaped exception is 500 |
| `Controller.CreateUser` | src/MFO.UserService.API/Controllers/UsersController.cs:179-201 | answers only 201, 400 or 500; validation failures are 400 with their messages; an email already in use is 400 with the "already exists" message; 201 exactly for an accepted request whose inserted row clashes with no email, carrying that row's view and adding exactly that row; 500 exactly on a clash; otherwise no change |
| `Controller.UpdateResponse` | src/MFO.UserService.API/Controllers/UsersController.cs:241-257 | the read branching on a returned result; 500 for an escaped exception |
| `Controller.UpdateUser` | src/MFO.UserService.API/Controllers/UsersController.cs:230-258 | a route id unlike the body's id gives 400 "Mismatched user ID." and sends nothing; validation failures give 400 with their messages; an unknown id gives an empty 404; for a stored id, 200 exactly when the overwritten row clashes with no other email, carrying its view with exactly that row replaced, and 500 exactly on a clash; every answer but 200 leaves the store unchanged |
| `Controller.WriteResponse` | src/MFO.UserService.API/Controllers/UsersController.cs:285-301 | 404 carrying the errors for a `NotFoundError`, 400 with the errors otherwise, 200 with the given body on success, 500 for an escaped exception |
| `Controller.DeactivateUser` | src/MFO.UserService.API/Controllers/UsersController.cs:279-302 | over the corrected deactivate handler: unknown id gives 404 with its error and no change; known id gives 200 with the view of the now inactive user, and only that row's `IsActive` changes, to false |
| `Controller.DeactivateUserAsWritten` | src/MFO.UserService.API/Controllers/UsersController.cs:279-302 | over the handler as written: unknown id gives 404 and no change; known id deactivates the row, then answers 500 without a boolean map and otherwise 200 with the mapped `true` |
| `Controller.HardDeleteUser` | src/MFO.UserService.API/Controllers/UsersController.cs:323-344 | unknown id: 404 with its error and no change; known id: 200 with an empty body and the row gone |

## Left out

- Asynchrony, cancellation tokens, logging, the output cache, the rate limiter, OpenAPI and dependency injection are not modelled. Every call is taken to complete.
- The validation pipeline step is modelled as the service defines it. The MFO host leaves its registration commented out, so the MFO handlers are modelled with the validator's messages as a parameter.
- Database failures other than a duplicate key, a duplicate email or a missing row are not modelled. That excludes connectivity, timeouts and concurrency conflicts.
- The password hasher is an uninterpreted function, and its random salt is not modelled.
- AutoMapper maps are uninterpreted functions. How many times a mapper, validator or repository is called is not modelled, except for `next` in `ValidationBehavior.Handle`.
- The email-shape check is an uninterpreted predicate.
- `Guid.NewGuid`, `Guid.CreateVersion7` and the clock are parameters. A new id is required to be fresh, and times are plain integers.
- Request strings cannot be null in the model, because the request records declare them non-nullable. String lengths count Unicode scalar values, not UTF-16 code units.
- `User` is a value. Where the source changes the tracked entity in place (the update handler's field writes, `SetUserActiveStateAsync`'s flag write), the model writes a new record. Aliasing through Entity Framework's change tracker is not modelled.
- `Validators.NameRules`, `Validators.EmailShapeRules`, `Validators.PasswordRules`: a character outside the Basic Multilingual Plane counts once here but twice in .NET, so the length limits differ for such text (26 emoji pass `MaximumLength(50)` here and fail in .NET).
- The listing order is the integer order of ids. SQL Server orders `uniqueidentifier` values starting from their last six bytes. The paging lemmas hold for any strict total order on ids, but the model fixes this one.
- Email equality is exact. The database's default case-insensitive collation, which would make the unique index and the email lookups ignore case, is not modelled.
- `Controller.DeactivateUser` runs over the corrected handler. The action as written is `Controller.DeactivateUserAsWritten`.
- `Skip` and `Take` follow LINQ semantics for counts of zero or less. What SQL Server does with such a count is not modelled: it refuses a `FETCH` count below 1, so there a non-positive page size is an error rather than an empty page.
- `SingleOrDefault` throwing on a second match is not modelled. The unique index makes a second match impossible.
- `Commands.DeactivateUser`: the `!deactivated` branch and its message are not modelled. The model proves that branch unreachable: the repository returns true or throws, and it cannot throw for a row it just returned.
- `Commands.DeleteUser`: the `!deleted` branch ("Failed to delete the user.") is not modelled, for the same reason.
- `Commands.CreateUserAudited`: the request-to-`User` map is not visible. The inserted names and email are therefore whatever `toUser` yields. A mapped email that clashes is the unique-index exception.
- The `UserService` handlers run against the MFO repository class. The `UserService` repository's `AddAsync` does not await its save, and that timing is not modelled.
- The `UserService` copies of the deactivate, delete, get-by-id and unpaged get-all handlers, validators and controllers are not modelled, because they repeat logic already modelled. Neither is the superseded `CreateUserCommand.cs` prototype.
- The 500 for an escaped exception is the host's default behaviour. No source line states it.

## Findings

| source | as written | input that shows it | evidently intended | confidence | as-written member | corrected member |
|---|---|---|---|---|---|---|
| src/MFO.UserService.Application/CommandsQueries/Queries/GetAllUsersQueryHandler.cs:30 | `Math.Max(PageNumber.Value - 1, 0)` in unchecked `int`, so `int.MinValue - 1` wraps to `int.MaxValue` | `PageNumber = int.MinValue`, no `PageSize`: as written the listing reports "No users found." (`Queries.MinValuePageNumberFindsNothing`) | any page number at or below 1 selects the first page | not executed | `Queries.ZeroBasedPageAsWritten` | `Queries.ZeroBasedPage` |
| src/MFO.UserService.Infrastructure/Repositories/UserRepository.cs:30 | `Skip(pageNumber * pageSize)` multiplies in `int`, so a large page wraps back to an earlier offset | `pageNumber = 2^30`, `pageSize = 4`: the offset 2^32 wraps to 0 and the first page comes back (`Repository.UserRepository.OffsetOverflowRestartsAtFirstPage`) | a page past the end is empty | not executed | `Repository.UserRepository.GetAllAsWritten` | `Repository.UserRepository.GetAll` |
| src/MFO.UserService.Application/CommandsQueries/Commands/DeactivateUserCommandHandler.cs:39 | `_mapper.Map<GetUserDto>(deactivated)` maps the boolean result, not the user | any stored id: the answer depends on the mapping of `true` alone (`Commands.FlagResponseIgnoresUser`). With only the `User` map configured, the mapping throws although the row was written | the response is the view of the deactivated user | not executed | `Commands.DeactivateUserAsWritten` | `Commands.DeactivateUser` |

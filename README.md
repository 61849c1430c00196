# User accounts of the SoPra server, modelled in Dafny

This project models the user-account core of a small Spring server:

- **`UserService`** handles registration with its uniqueness check, login,
  lookup by id, the ONLINE/OFFLINE status change and profile edits.
- **The REST endpoints of `UserController`** drive that service and choose
  the status code and body of each answer.

The model uses these pieces:

- **Users are objects.** `Users.User` is a class whose fields the
  service overwrites in place.
- **The table holds users by reference.** `Users.UserRepository` is an
  in-memory map from id to `User` with a `nextId` counter. Changing a
  user that a lookup returned therefore changes the stored record, as a
  managed JPA entity does.
- **Ids are dense.** They are handed out from 1 and never removed, so the
  stored ids are exactly `1 .. nextId - 1` and ascending id order is
  insertion order. An id of 0 stands for Java's `null` id, a user not
  yet saved.
- **The table has an abstract state.** `Rows()` is the stored records
  by id, and every state-changing operation states its new `Rows()` in
  terms of the old one.
- **The dates are pure functions.** Birth dates are parsed as strict ISO
  8601 calendar dates in complete extended form `YYYY-MM-DD` (section
  5.2.1.1 of ISO 8601:2004, proleptic Gregorian, years 0001-9999).
  Creation and birth dates are written in the `dd.MM.yyyy` pattern.
- **Endpoints return their answer as a value.** Each endpoint is a
  method that returns a `Response(status, body)` value.
- **Exceptions are values.** The service's exceptions are values of
  `Service.Thrown`. An exception that escapes an endpoint becomes the
  answer `Controller.Propagated` gives: its own status for a
  `ResponseStatusException`, and INTERNAL_SERVER_ERROR otherwise.
- **The edit's two fields are optional.** Absent fields of the
  profile-edit request body (Java `null`) are modelled as
  `Option<string>`. Calling `length()` on a missing field throws, and
  the endpoint turns that into NOT_FOUND. So an edit request that carries
  a username but no birth date fails with 404 after renaming the user.
- **The duplicate-free table is an invariant.** `UniqueFields` says that
  no two users share a username or a name.
  - Registration preserves it.
  - Login and the status change do not touch the two fields.
  - A profile edit preserves it exactly when the new username is empty or
    free (`Service.ProfileEditUniqueness`), because the edit does not
    check uniqueness.
- **Status changes happen in three places only.**
  - Registration sets ONLINE (`Service.UserService.CreateUser`).
  - Login sets ONLINE (`Controller.UserController.LoginUser`).
  - Logout sets OFFLINE (`Controller.UserController.LogoutUser`).

  `GetAllUsers` and `GetUser` modify nothing. `UpdateUser` changes only
  the username and the birth date (`Service.ProfileEditFrame` together
  with the endpoint's `ensures`).

The files:

- `wrappers.dfy`: `Option`, `Result` and `Outcome`.
- `http_status.dfy`: the status codes used.
- `dates.dfy`: the date parse and format.
- `users.dfy`: the entity and the table.
- `service.dfy`: the service.
- `controller.dfy`: the endpoints.

## Model

| member | source | states |
|---|---|---|
| Dates.DaysInMonth | src/main/java/ch/uzh/ifi/hase/soprafs24/service/UserService.java:122 | A month has 28 to 31 days, and 29 exactly for February of a Gregorian leap year. |
| Dates.ParseIso | src/main/java/ch/uzh/ifi/hase/soprafs24/service/UserService.java:122 | The strict `LocalDate.parse`: what it accepts is a valid date with a four-digit year, written in exactly ten characters. What it accepts exactly is stated by `ParseIsoExact`, `ParseIsoDigits` and the examples. |
| Dates.FormatDotted | src/main/java/ch/uzh/ifi/hase/soprafs24/service/UserService.java:37 | The `dd.MM.yyyy` formatter, used for the creation date (line 51) and the birth date (line 123). It always writes ten characters; `FormatDottedFields`, `FormatDottedInjective` and `IsoToDotted` state what it writes. |
| Dates.ParseFormatIso | src/main/java/ch/uzh/ifi/hase/soprafs24/service/UserService.java:122 | Every valid date written as `YYYY-MM-DD` parses back to itself. |
| Dates.FormatParseIso | src/main/java/ch/uzh/ifi/hase/soprafs24/service/UserService.java:122 | Every string the strict parser accepts is exactly the `YYYY-MM-DD` form of the date it yields: no other spelling is accepted. |
| Dates.ParseIsoExact | src/main/java/ch/uzh/ifi/hase/soprafs24/service/UserService.java:122 | The parser yields `d` from `s` if and only if `d` is a valid date and `s` is its `YYYY-MM-DD` form. |
| Dates.ParseIsoDigits | src/main/java/ch/uzh/ifi/hase/soprafs24/service/UserService.java:122 | For ten characters of the shape `dddd-dd-dd`, the parse is the date the digit groups spell when that day exists in the calendar, and nothing otherwise. |
| Dates.FormatDottedFields | src/main/java/ch/uzh/ifi/hase/soprafs24/service/UserService.java:37 | A `dd.MM.yyyy` rendering has two day digits, a dot, two month digits, a dot and four year digits, and the groups read back as the day, month and year. |
| Dates.FormatDottedInjective | src/main/java/ch/uzh/ifi/hase/soprafs24/service/UserService.java:37 | Distinct valid dates are rendered as distinct `dd.MM.yyyy` strings. |
| Dates.IsoToDotted | src/main/java/ch/uzh/ifi/hase/soprafs24/service/UserService.java:121-124 | Re-emitting an accepted `YYYY-MM-DD` string as `dd.MM.yyyy` only rearranges its digit groups into `DD.MM.YYYY`. |
| Dates.PaddedOfValue | src/main/java/ch/uzh/ifi/hase/soprafs24/service/UserService.java:37 | Padding the number a digit string spells back to the string's width gives the string back. |
| Dates.ValueOfPadded | src/main/java/ch/uzh/ifi/hase/soprafs24/service/UserService.java:37 | A number below 10^width, zero-padded to that width, reads back as itself. |
| Dates.DecimalReadsBack | src/main/java/ch/uzh/ifi/hase/soprafs24/service/UserService.java:106 | The decimal notation of a number reads back as that number, and it has no leading zero unless the number is zero. |
| Dates.SignedDecimalReadsBack | src/main/java/ch/uzh/ifi/hase/soprafs24/service/UserService.java:106 | The `%d` notation of an id is a minus sign exactly for negative ids, followed by the magnitude in digits without leading zeros. |
| Dates.ExampleBirthDate | src/main/java/ch/uzh/ifi/hase/soprafs24/service/UserService.java:122 | "1990-05-01" parses as 1 May 1990. |
| Dates.ExampleDotted | src/main/java/ch/uzh/ifi/hase/soprafs24/service/UserService.java:123 | 1 May 1990 is written as "01.05.1990". |
| Dates.ExampleLeapDay | src/main/java/ch/uzh/ifi/hase/soprafs24/service/UserService.java:122 | "2024-02-29" is accepted. |
| Dates.ExampleCenturyNotLeap | src/main/java/ch/uzh/ifi/hase/soprafs24/service/UserService.java:122 | "1900-02-29" is rejected because 1900 is not a leap year. |
| Dates.ExampleNoSuchDay | src/main/java/ch/uzh/ifi/hase/soprafs24/service/UserService.java:122 | "2023-04-31" is rejected because April has 30 days. |
| Dates.ExampleNoSuchMonth | src/main/java/ch/uzh/ifi/hase/soprafs24/service/UserService.java:122 | "2023-13-01" is rejected because there is no month 13. |
| Dates.ExampleWrongShape | src/main/java/ch/uzh/ifi/hase/soprafs24/service/UserService.java:122 | A one-digit month and trailing text are both rejected. |
| Users.InsertKeepsUnique | src/main/java/ch/uzh/ifi/hase/soprafs24/service/UserService.java:53-56 | Adding a user whose username and name are both free keeps all usernames and all names pairwise distinct. |
| Users.User.constructor | src/main/java/ch/uzh/ifi/hase/soprafs24/controller/UserController.java:54 | The user built from a request body carries its name, username and password, has no id, token, creation or birth date yet, and is not ONLINE. |
| Users.UserRepository.constructor | src/main/java/ch/uzh/ifi/hase/soprafs24/service/UserService.java:35 | A new table is empty and hands out id 1 first. |
| Users.UserRepository.FindAll | src/main/java/ch/uzh/ifi/hase/soprafs24/service/UserService.java:45 | Returns every stored user once, in insertion (id) order. |
| Users.UserRepository.FindById | src/main/java/ch/uzh/ifi/hase/soprafs24/service/UserService.java:104 | Finds a user exactly when the id is stored, and then it is the user stored under that id. |
| Users.UserRepository.FindBy | src/main/java/ch/uzh/ifi/hase/soprafs24/service/UserService.java:74-75 | Finds nothing exactly when no stored user has the key in that column. Otherwise it returns a stored user holding the key, the first one in insertion order. |
| Users.UserRepository.NoMatchMeansFree | src/main/java/ch/uzh/ifi/hase/soprafs24/service/UserService.java:74-75 | The search comes back empty if and only if the key is not taken. |
| Users.UserRepository.UniqueMatch | src/main/java/ch/uzh/ifi/hase/soprafs24/service/UserService.java:90 | In a duplicate-free table, the search returns the one user holding the key. |
| Users.UserRepository.Save | src/main/java/ch/uzh/ifi/hase/soprafs24/service/UserService.java:56 | Saving a new user gives it the next id and adds exactly its record to the table, keeping every other row. Saving a stored user changes nothing. |
| Users.RowsAfterUpdate | src/main/java/ch/uzh/ifi/hase/soprafs24/service/UserService.java:112 | Changing fields of a stored user changes that user's row and no other. |
| Service.UniquenessError | src/main/java/ch/uzh/ifi/hase/soprafs24/service/UserService.java:73-86 | No error when both the username and the name are free. Otherwise the error is a BAD_REQUEST. |
| Service.UniquenessErrorIdentifiesCollision | src/main/java/ch/uzh/ifi/hase/soprafs24/service/UserService.java:77-84 | The three registration errors have three distinct messages: the message tells whether the username, the name or both were taken. |
| Service.NotUniqueMessage | src/main/java/ch/uzh/ifi/hase/soprafs24/service/UserService.java:77-84 | The registration message opens with "The " followed by the field or fields it names. `UniquenessErrorIdentifiesCollision` shows that its three uses are told apart. |
| Service.NotFoundMessage | src/main/java/ch/uzh/ifi/hase/soprafs24/service/UserService.java:105-106 | The reason reads "User with ID ", then the id, then " not found". |
| Service.NotFoundMessageIdentifiesId | src/main/java/ch/uzh/ifi/hase/soprafs24/service/UserService.java:105-106 | The reason names the id: distinct ids give distinct NOT_FOUND reasons. |
| Service.UserService.GetUsers | src/main/java/ch/uzh/ifi/hase/soprafs24/service/UserService.java:44-46 | Returns one entry per stored user, in insertion order. |
| Service.UserService.CheckIfUserExists | src/main/java/ch/uzh/ifi/hase/soprafs24/service/UserService.java:73-86 | Reports an error if and only if the username or the name is taken, and the error names exactly which of them. |
| Service.UserService.CreateUser | src/main/java/ch/uzh/ifi/hase/soprafs24/service/UserService.java:48-61 | The candidate is stamped with the fresh token, today's date in `dd.MM.yyyy` and ONLINE, and its password is kept. It is stored under a new id if and only if its username and name are both free; the table then maps the new id to that very object and keeps every other stored object. Otherwise the matching BAD_REQUEST is returned and the table is left untouched. A duplicate-free table stays duplicate-free. |
| Service.UserService.LoginUser | src/main/java/ch/uzh/ifi/hase/soprafs24/service/UserService.java:88-101 | Succeeds if and only if the user found by username has exactly the given password. Only that user's token changes, to the fresh one. On failure nothing changes. |
| Service.LoginMatchesCredentials | src/main/java/ch/uzh/ifi/hase/soprafs24/service/UserService.java:88-101 | In a duplicate-free table, login succeeds if and only if some stored user has both the username and the password. |
| Service.UserService.GetUserById | src/main/java/ch/uzh/ifi/hase/soprafs24/service/UserService.java:103-107 | Returns the stored user for a present id, else NOT_FOUND with "User with ID <id> not found". Modifies nothing. |
| Service.UserService.UpdateStatus | src/main/java/ch/uzh/ifi/hase/soprafs24/service/UserService.java:109-114 | Exactly the status of the given user changes. Setting the status it already has changes nothing. |
| Service.UserService.UpdateUser | src/main/java/ch/uzh/ifi/hase/soprafs24/service/UserService.java:116-125 | The stored user's record and the outcome are those of `ProfileEdit`. No other row changes. |
| Service.ProfileEdit | src/main/java/ch/uzh/ifi/hase/soprafs24/service/UserService.java:116-125 | The effect of `updateUser` on one record, and whether it throws. A failed edit never changes the birth date. Its other properties are the `ProfileEdit*` lemmas below. |
| Service.ProfileEditFrame | src/main/java/ch/uzh/ifi/hase/soprafs24/service/UserService.java:116-125 | A profile edit changes no field other than the username and the birth date. |
| Service.ProfileEditUsername | src/main/java/ch/uzh/ifi/hase/soprafs24/service/UserService.java:118-120 | An empty username keeps the old one, and a non-empty one replaces it, whatever happens to the birth date. |
| Service.ProfileEditSucceeds | src/main/java/ch/uzh/ifi/hase/soprafs24/service/UserService.java:116-125 | The edit succeeds if and only if both fields are present and the birth date is empty or a valid `YYYY-MM-DD` date. |
| Service.ProfileEditBirthDate | src/main/java/ch/uzh/ifi/hase/soprafs24/service/UserService.java:121-124 | A valid `YYYY-MM-DD` birth date is stored as `DD.MM.YYYY`. An invalid one leaves the stored birth date as it was. |
| Service.ProfileEditExample | src/main/java/ch/uzh/ifi/hase/soprafs24/service/UserService.java:121-124 | "1990-05-01" is stored as "01.05.1990". |
| Service.ProfileEditUniqueness | src/main/java/ch/uzh/ifi/hase/soprafs24/service/UserService.java:116-125 | Because the edit does not check uniqueness, a duplicate-free table stays duplicate-free if and only if the new username is empty or held by no other user. |
| Service.RenameKeepsUnique | src/main/java/ch/uzh/ifi/hase/soprafs24/service/UserService.java:118-120 | Renaming one user keeps the table duplicate-free if and only if no other user holds the new username. |
| Controller.Propagated | src/main/java/ch/uzh/ifi/hase/soprafs24/controller/UserController.java:57 | An exception escaping an endpoint becomes the answer. A `ResponseStatusException` keeps its status and its reason, and it is the only kind that answers with a reason. Any other exception answers INTERNAL_SERVER_ERROR with no body. |
| Controller.UserController.GetAllUsers | src/main/java/ch/uzh/ifi/hase/soprafs24/controller/UserController.java:37-47 | OK with exactly one DTO per stored user, in insertion order. Each DTO carries that user's id, name, username, password and status. |
| Controller.UserController.CreateUser | src/main/java/ch/uzh/ifi/hase/soprafs24/controller/UserController.java:52-60 | CREATED if and only if the username and the name are both free. The body is the new user's DTO with its new id, the given fields and ONLINE, and the table gains exactly that record, held by a newly created user object, while every other stored object stays in place. Otherwise the service's BAD_REQUEST propagates and the table is unchanged. |
| Controller.UserController.LoginUser | src/main/java/ch/uzh/ifi/hase/soprafs24/controller/UserController.java:64-77 | OK if and only if the credentials match. The user then has the fresh token, is ONLINE, and is the body; no other row changes. Otherwise UNAUTHORIZED with no body and no change. The table keeps the same user objects. |
| Controller.UserController.LogoutUser | src/main/java/ch/uzh/ifi/hase/soprafs24/controller/UserController.java:82-98 | OK with "User logged out successfully." and the user OFFLINE if and only if the id is stored. Otherwise INTERNAL_SERVER_ERROR with "Error during logout." and no change. The table keeps the same user objects. |
| Controller.UserController.GetUser | src/main/java/ch/uzh/ifi/hase/soprafs24/controller/UserController.java:103-107 | OK with the stored user's DTO if and only if the id is stored. Otherwise NOT_FOUND with the lookup's reason. Modifies nothing. |
| Controller.UserController.UpdateUser | src/main/java/ch/uzh/ifi/hase/soprafs24/controller/UserController.java:112-128 | ACCEPTED with "Changes saved successfully." if and only if the id is stored and the profile edit succeeds. Every other outcome is NOT_FOUND with "User not found.". The stored user's row becomes the edited record, and no other row changes. |
| Controller.Visit | src/main/java/ch/uzh/ifi/hase/soprafs24/controller/UserController.java:52-128 | On a fresh server, a registration is CREATED with id 1 and ONLINE; login with its password is OK with the user; logout is OK; registering the same username again is BAD_REQUEST; and setting only the birth date is ACCEPTED. The endpoint contracts compose across these calls. |

## Left out

- **Persistence.** The JPA `UserRepository` is not part of this model. It
  is an in-memory map with an id counter, and `flush` and database
  persistence are not modelled.
- **Duplicate results.** The derived queries `findByUsername` and
  `findByName` are modelled as a scan that returns the first match in id
  order. On a table with duplicates the real query throws rather than
  picking one; the model's operations keep the table duplicate-free
  except through a profile edit.
- **Transaction rollback** (`@Transactional`, UserService.java:30) is not
  modelled. A failed profile edit keeps its username change in the
  in-memory model, as the entity object does before any rollback.
- **Concurrency.** The check-then-write race between the uniqueness check
  and the save is out of scope, as is concurrency in general.
- **Randomness and the clock.** `UUID.randomUUID()` and
  `LocalDateTime.now()` are replaced by the `token` (non-empty) and
  `today` parameters.
- **Output.** Logging and console output are omitted.
- **Dates outside the four-digit range.** Year 0000 and the signed or
  expanded years that `LocalDate.parse` also accepts are rejected by
  `Dates.ParseIso`.
- **Null request fields.** A null name, username or password in
  registration or login is not modelled: those fields are strings. Only
  the profile edit models absent fields.
- **`DTOMapper`** is not part of this model. Its conversions are plain
  field copies: `ToGetDTO`, and the `User` constructor.
- **The candidate's placeholder fields.** A candidate user's token and
  creation date start as `""` and its status as OFFLINE, where Java has
  `null`. Registration overwrites all three before anything reads them.
- **The JSON shape of Spring's error responses.** Only the status and the
  reason are kept.
- **The unreachable branch of the logout endpoint.** The `user == null`
  branch (UserController.java:92-93) cannot be reached, because the
  lookup never returns null, so the model has no such branch.

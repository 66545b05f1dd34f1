# Todo backend: a verified model

This project models the core of a small NestJS todo backend that sits over Supabase. The model covers:

- the **todo ordering engine**: a table of todos with ranks, list queries sorted by rank, and rank assignment on create;
- the **todo routes**: owner stamping on create, and the user/status dispatch of the list route;
- the **create-todo request body**: the status enumeration and its `pending` default;
- the **credential store**: a user table whose emails are unique;
- the **authentication workflow**: register, login and token issue, plus the token guard that protects the todo routes.

The Supabase tables become in-memory sequences of rows held by a service class. Each table has a serial id counter, as an identity column would. Module by module:

- `Todos.TodoService` and `Users.UserService` hold their tables as fields. Their methods change the table (`modifies this`) and state the complete new table.
- The list queries are specified by a function, `Todos.Listing`. Its properties are proved as lemmas: every matching row, nothing else, ascending by rank. The controller's two-stage filter (fetch then `filter`) is proved equal to the combined query (`Todos.TwoStageListing`).
- `ORDER BY` becomes a stable insertion sort (`Ordering.SortBy`). It is proved sorted and a permutation of its input. Rows with equal keys keep table order, which is one of the orders the store may return.
- The two foreign libraries are capabilities: values holding functions, each with one law.
  - bcrypt is `Auth.Hasher`. Its law, `LawfulHasher`, is that a password matches its own hash.
  - The JWT library is `Jwt.Signer`. Its law, `LawfulSigner`, is that a token decodes to the payload it was signed from, under the key it was signed with.
  - Services hold these capabilities; the laws are part of `Auth.AuthService.Valid`.
- Store-assigned values come in as inputs:
  - creation times (`now`, `createdAt`);
  - the signer's clock (`now`);
  - the salt bcrypt draws (`salt`).
- JavaScript truthiness (`!x`, `x || y`, `x ? a : b`) is written out by `Common.TruthyInt` and `Common.TruthyString`. An order or user id of `0`, and an email of `""`, behave as absent.
- The error kinds are those of NestJS: `NotFound` (404), `Conflict` (409), `Unauthorized` (401), and `ValidationFailure` (400, from the validation pipe).

Files: `common.dfy`, `ordering.dfy`, `create_todo_dto.dfy`, `todo_service.dfy`, `todo_controller.dfy`, `user_service.dfy`, `jwt.dfy`, `auth_service.dfy`.

Observations from the code:

- `remove` in both services raises `NotFound` only when the store reports an error. Deleting an id that no row has succeeds and changes nothing (`Todos.WithoutAbsentId`). The model follows the code.
- `findByEmail` uses `.single()`, so it returns a user only when exactly one row has the email (`Users.EmailLookup`). With unique emails this means "some row has the email" (`Users.EmailLookupComplete`).
- The unique constraint on `email` comes from the user entity (src/entities/user.entity.ts:15). The model's user table enforces it.
  - `UserService.update` with an empty-string email skips the service's own guard, because `""` is falsy.
  - If another user has that email, the store then refuses the write, and the service reports that refusal as `NotFound`.
  - Only a direct call of the service can take this path. At the route, `UpdateUserDto` marks `email` as `@IsOptional() @IsEmail()` (dist/main.js:1006-1010), which refuses `""`.
- `UserService.update` writes a new password as given. It does not hash it.
- The controller's `findAll` receives `user_id` as a number. The global validation pipe runs with `transform: true`, which converts the query string.
- The pipe also runs with `whitelist` and `forbidNonWhitelisted` (dist/main.js:1424-1428), so a request body with a property its class does not declare is refused with 400. Body values are not converted: only route and query parameters with a primitive type are.
- `UpdateTodoDto` declares no validators (dist/main.js:672-678). Under the option above, class-validator treats every undecorated property as undeclared. By that reading any `PATCH /todos/:id` body carrying a field is refused before `TodoController.update` runs.

## Model

| member | source | states |
|---|---|---|
| TodoDto.StatusName | src/todo/dto/create-todo.dto.ts:3-7 | every status has a non-empty wire spelling |
| TodoDto.ParseStatus | src/todo/dto/create-todo.dto.ts:3-7 | a name parses exactly when it is the spelling of a status, and then to that status |
| TodoDto.CreateTodoViolations | src/todo/dto/create-todo.dto.ts:9-23 | `note` is reported exactly when it is missing or not a string; `status` exactly when present, not null and not one of the three spellings; `order` and `user_id` exactly when present, not null and not numbers; and every property the class does not declare |
| TodoDto.ValidateCreateTodo | src/todo/dto/create-todo.dto.ts:9-24 | a body is accepted iff the note is a string, the status is omitted or valid, order and user_id are omitted or numbers, and no other property is present; fields are copied; an omitted status becomes `pending`; a rejection lists exactly the failing properties |
| TodoDto.NumberField | src/todo/dto/create-todo.dto.ts:17-23 | an omitted optional number is absent, a present one is kept as sent |
| TodoDto.StringOrderRejected | src/todo/dto/create-todo.dto.ts:17-19 | a rank sent as the string `"1"` is refused: the pipe does not convert body values |
| Ordering.SortByCorrect | src/todo/todo.service.ts:55-58 | the store's `ORDER BY` result is sorted by the key and is a permutation of the rows |
| Todos.SelectMembers | src/todo/todo.service.ts:146-150 | a filtered list holds exactly the rows that match the filter |
| Todos.Listing | src/todo/todo.service.ts:130-134 | a list query returns the matching rows (as a multiset), sorted ascending by order |
| Todos.SelectEverything | src/todo/todo.service.ts:55-58 | the unfiltered query keeps every row |
| Todos.MaxOrder | src/todo/todo.service.ts:27-32 | `ORDER BY order DESC LIMIT 1` gives a rank that some row has and no row exceeds |
| Todos.NextOrder | src/todo/todo.service.ts:26-37 | an empty table gives 1; a maximum `m` gives `m + 1`, or `1` when `m` is 0; the result exceeds every rank |
| Todos.AssignedOrder | src/todo/todo.service.ts:26-37 | a non-zero explicit rank is kept; an absent or zero rank becomes `m + 1` for the largest rank `m` (1 when `m` is 0 or the table is empty), which is above every existing rank |
| Todos.NextOrderAfterOneThreeFive | src/todo/todo.service.ts:34-36 | a table whose ranks are 1, 3 and 5, in any order and with repeats, gives the next rank 6 |
| Todos.FindById | src/todo/todo.service.ts:70-74 | finds a row with the id exactly when one exists |
| Todos.ApplyPatch | src/todo/todo.service.ts:86-91 | an update changes exactly the supplied fields; id, owner and creation time stay |
| Todos.WithoutId | src/todo/todo.service.ts:103 | deletion keeps exactly the rows with another id and keeps ids unique |
| Todos.WithoutAbsentId | src/todo/todo.service.ts:100-108 | deleting an id no row has leaves the table unchanged (and raises nothing) |
| Todos.SelectSortCommute | src/todo/todo.controller.ts:55-57 | filtering a sorted list equals sorting the filtered rows |
| Todos.SelectOwnerThenStatus | src/todo/todo.controller.ts:55-57 | filtering by owner and then by status equals filtering by both |
| Todos.TwoStageListing | src/todo/todo.controller.ts:52-57 | the user's list filtered by status is exactly the list of that user's todos with that status, in the same order |
| Todos.TodoService.Create | src/todo/todo.service.ts:22-50 | appends exactly one row with a fresh id, the dto's fields and the assigned rank; earlier rows are unchanged |
| Todos.TodoService.FindAll | src/todo/todo.service.ts:52-65 | returns every row, sorted ascending by order |
| Todos.TodoService.FindOne | src/todo/todo.service.ts:67-81 | returns a row with the id iff one exists, otherwise `NotFound("Todo", id)` |
| Todos.TodoService.Update | src/todo/todo.service.ts:83-98 | a missing id gives `NotFound` and no change; otherwise only the rows with the id are patched, and the result is the patched row |
| Todos.TodoService.Remove | src/todo/todo.service.ts:100-108 | afterwards no row has the id, and all other rows are kept in order |
| Todos.TodoService.UpdateOrder | src/todo/todo.service.ts:110-125 | a missing id gives `NotFound` and no change; otherwise only that row's order changes; no uniqueness of ranks |
| Todos.TodoService.FindByStatus | src/todo/todo.service.ts:127-141 | returns exactly the rows with the status, sorted ascending by order |
| Todos.TodoService.FindByUserId | src/todo/todo.service.ts:143-157 | returns exactly the rows owned by the user, sorted ascending by order |
| TodoApi.StampOwner | src/todo/todo.controller.ts:39 | the owner becomes the authenticated user whatever the client sent; other fields are kept |
| TodoApi.TargetUser | src/todo/todo.controller.ts:50 | the query's user id when truthy, otherwise the authenticated user's id |
| TodoApi.ListQuery | src/todo/todo.controller.ts:50-66 | a row matches iff it is owned by the (truthy) target user and has the status, when given |
| TodoApi.TodoController.Create | src/todo/todo.controller.ts:34-41 | the created todo is owned by the authenticated user; the table gains exactly that row |
| TodoApi.TodoController.FindAll | src/todo/todo.controller.ts:43-67 | the dispatch returns exactly the rows of the target user (if truthy) with the status (if given), sorted by order |
| TodoApi.TodoController.FindOne | src/todo/todo.controller.ts:69-72 | delegates by id, with no ownership check |
| TodoApi.TodoController.Update | src/todo/todo.controller.ts:74-80 | delegates by id, with no ownership check; same outcome as the service |
| TodoApi.TodoController.UpdateOrder | src/todo/todo.controller.ts:82-88 | delegates by id, with no ownership check; same outcome as the service |
| TodoApi.TodoController.Remove | src/todo/todo.controller.ts:90-93 | delegates by id, with no ownership check; no row with the id remains |
| Users.WithEmailMembers | src/user/user.service.ts:84-88 | the email filter holds exactly the rows with that email |
| Users.AtMostOneWithEmail | src/entities/user.entity.ts:15-16 | with unique emails, at most one row has a given email |
| Users.EmailLookup | src/user/user.service.ts:84-94 | `.single()` gives a row with the email exactly when one row matches |
| Users.EmailLookupComplete | src/user/user.service.ts:84-94 | with unique emails, the lookup misses iff no row has the email |
| Users.IdLookup | src/user/user.service.ts:68-72 | finds a user with the id exactly when one exists |
| Users.WithoutUser | src/user/user.service.ts:131 | deletion keeps exactly the rows with another id |
| Users.WithoutUserUnique | src/user/user.service.ts:128-136 | deletion keeps ids and emails unique |
| Users.OthersWithEmail | src/user/user.service.ts:102-107 | the duplicate-email query holds exactly the users with that email and another id |
| Users.ApplyUserPatch | src/user/user.service.ts:114-119 | an update changes exactly the supplied fields; id and creation time stay |
| Users.PatchKeepsUnique | src/user/user.service.ts:100-123 | patching one user keeps ids and emails unique when no other user holds the new email |
| Users.UserService.Create | src/user/user.service.ts:23-48 | a taken email gives `Conflict` and no insert; otherwise one row is appended; emails stay unique |
| Users.UserService.FindAll | src/user/user.service.ts:50-63 | returns every user, newest first |
| Users.UserService.FindOne | src/user/user.service.ts:65-79 | returns a user with the id iff one exists, otherwise `NotFound("User", id)` |
| Users.UserService.FindByEmail | src/user/user.service.ts:81-95 | returns null iff no user has the email, otherwise the user with it |
| Users.UserService.Update | src/user/user.service.ts:97-126 | a truthy email held by another user gives `Conflict`; one's own email is allowed; a missing id gives `NotFound`; errors change nothing; the patch keeps emails unique |
| Users.UserService.Remove | src/user/user.service.ts:128-136 | afterwards no user has the id, and the others are kept |
| Jwt.SecretOf | dist/main.js:1358-1360 | the key is `JWT_SECRET` when set and non-empty, otherwise `your-secret-key` |
| Jwt.Validate | dist/main.js:1364-1370 | `sub` becomes `userId`; email and full name are copied |
| Jwt.Authenticate | dist/main.js:1356-1370 | a token passes iff it decodes under the configured key and has not expired; the request user is its validated payload; otherwise 401 |
| Auth.IsEmailSplit | dist/main.js:1286-1289 | `IsEmail` accepts a string split at its first `@` iff the local part is non-empty and the rest is a dotted domain with no further `@` |
| Auth.NoAtSignNoEmail | dist/main.js:1286-1289 | a string without `@` is not an address |
| Auth.RegisterViolations | dist/main.js:1286-1298 | each declared property is reported exactly when its constraint fails (email a string of address shape, password a string of length ≥ 6, full name a string), and every undeclared property is reported |
| Auth.ValidateRegister | dist/main.js:1280-1298 | a body reaches `register` iff every constraint holds and it carries no other property, with its fields copied; a rejection lists exactly the failing properties |
| Auth.NoAtSignRejected | dist/main.js:1286-1289 | a registration with an address without `@` is rejected |
| Auth.View | src/auth/auth.service.ts:42-47 | the returned user holds id, email, full name and creation time, and no password |
| Auth.TokenPayload | src/auth/auth.service.ts:83-87 | the claims are `sub = id`, email, full name, with expiry 24 hours after issue |
| Auth.GenerateToken | src/auth/auth.service.ts:82-93 | the token decodes, under `JWT_SECRET` or the fallback key, to the claims `sub`, email and full name with a 24-hour expiry (its acceptance by the guard is `Auth.TokenRoundTrip`) |
| Auth.TokenRoundTrip | dist/main.js:1180-1190 | a token issued for a user passes the guard under the same configuration, the fallback secret included, iff fewer than 24 hours have passed, and then yields that user's id, email and full name |
| Auth.CheckCredentials | src/auth/auth.service.ts:54-66 | login succeeds only for the row with the email whose stored hash the password matches; an unknown email and a wrong password give the same `Unauthorized("Invalid credentials")` |
| Auth.CheckCredentialsComplete | src/auth/auth.service.ts:52-66 | with unique emails, login succeeds iff some user has the email and a matching hash |
| Auth.RegisteredRow | src/auth/auth.service.ts:30-36 | the stored password is the hash of the given password; the other fields are copied |
| Auth.RegisteredUserCanLogIn | src/auth/auth.service.ts:22-66 | right after registering, the same email and password pass the credential check for the new row |
| Auth.AuthService.Respond | src/auth/auth.service.ts:41-49 | the response is the user view and a token for that user |
| Auth.AuthService.Register | src/auth/auth.service.ts:22-50 | a taken email gives `Conflict` and leaves the store unchanged; otherwise exactly the row with the hashed password is appended and the response carries its token |
| Auth.AuthService.Login | src/auth/auth.service.ts:52-80 | is the credential check: succeeds iff some user has the email and a matching hash, answering for that user; every failure is `Unauthorized("Invalid credentials")`; the store is not changed |

## Left out

- Store and network errors (`Internal`), and the `data || []` fallback: the in-memory store never fails. As a result, neither `remove` ever raises `NotFound`, and no method raises the generic `Failed to ...` errors.
- Concurrency: the read-then-write rank assignment in `create` is atomic in the sequential model, so the race between two concurrent creates is not modelled.
- bcrypt and JWT cryptography: both are abstract capabilities with one law each. The JWT header, the encoding and the signature algorithm are not modelled, and neither is the bearer-header extraction.
- Auth.IsEmail: this is the `local@domain` shape (one `@`, a non-empty local part, a domain with a dot not at either end), not the full grammar of validator.js `isEmail`.
- TodoDto.ValidateCreateTodo: an explicit `null` status is treated as omitted and becomes `pending`. In the source, the class-transformer copies the `null` over the default and forwards it to the store. What the store then does is not part of this model.
- TodoDto.ValidateCreateTodo / Auth.ValidateRegister: JSON values are told apart only as strings, integers, `null` and anything else. Fractional numbers are not modelled.
- TodoApi.TodoController.FindAll: status query strings outside the enum are not modelled, because the status arrives as an enum value. The route declares no enum check on its query parameter.
- Todos.TodoService.Create: it does not mutate the incoming DTO in place, and neither does `TodoApi.StampOwner`. Both build a new value, so aliasing of the request body is not modelled.
- Ranks are integers. Fractional or `null` orders, which the `number` type admits, are not modelled.
- The validation of the update bodies (`UpdateTodoDto`, `UpdateUserDto`) is not part of this model. A patch is any combination of present fields. Under the pipe's `forbidNonWhitelisted`, the undecorated `UpdateTodoDto` plausibly refuses every non-empty body at the route.
- The foreign key from a todo's `user_id` to the user table, and cascade delete, are not modelled. The model's todo table accepts any owner id. A refusal by a foreign key in the store's schema would be a store error, and store errors are left out above.
- The UTF-16 length that `@MinLength` measures and JavaScript string comparison are not modelled. Strings are sequences of characters.
- The user routes and auth routes (controllers, guards, the bearer-token extraction) are not modelled beyond `Jwt.Authenticate`, because they only delegate.

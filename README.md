# Auth core, modelled in Dafny

This project models the decision logic of a small Express/Prisma authentication
service:

- registration through `AuthService.createUser` and through the older
  `AuthController.regiter`;
- login through `AuthController.login`;
- the password policy, hashing and comparison helpers in `AuthUtil`;
- the route guard `protect`;
- the two error handlers, the 404 fallback route and the production handler;
- the request validator `httpValidator`.

The Prisma `user` table is a class, `UserStore.UserTable`. It holds the rows in
insertion order and the next id. Its `Create` enforces the unique constraints on
`email` and `username`. Queries follow Prisma's rule that a `where` property
whose value is `undefined` adds no condition.

bcrypt's `hash` and `compare`, jsonwebtoken's `sign` and `verify`, and the
message texts of password-validator are functions inside a `Libraries` value
passed as a parameter. The model assumes nothing about them. A lemma that needs
a fact about them states it as its own precondition, for example that
`compare(p, hash(p, 10))` holds.

Modules follow the source files:

- `Common`: options, results, JSON values and JavaScript truthiness.
- `Strings`: `split`, `join`, `replace(/c/g, "")` and capitalisation.
- `HttpErrors`: `HttpException` and the error kinds.
- `UserStore`
- `AuthUtil`
- `AuthService`
- `AuthController`
- `AuthMiddleware`
- `Handlers` and `SharedErrors`: the two error handlers.
- `RequestValidation`
- `Workflows`: properties that span several modules.

Some behaviours of the code that the model keeps as written:

- `regiter` stores the request body as it arrived, plaintext password and
  `coniformPassword` included (src/controllers/auth.ts:101).
- No handler recognises Prisma's unique-constraint error, so it is answered 500.
- The login handler signs `{ id }`, and `generateTokens` signs
  `{ user: { id } }`.
- The guard accepts any header that starts with "Bearer", so "Bearerxyz abc"
  yields the token "abc".

## Model

| member | source | states |
|---|---|---|
| Common.OrElse | src/handlers/errorHandler.ts:35 | the JavaScript `or` of a value and a fallback is the value when it is truthy and the fallback otherwise |
| Common.Lookup | src/controllers/auth.ts:12 | a destructured body field is defined exactly when the key is present, with the body's value |
| Strings.ToUpper | src/handlers/errorHandler.ts:117 | a lower-case ASCII letter becomes its upper-case counterpart; any other character is unchanged |
| Strings.CapitalizeFirstLetter | src/handlers/errorHandler.ts:116-118 | same length; the empty string is unchanged; only the first character is upper-cased and the tail is kept verbatim |
| Strings.CapitalizeFirstLetterIdempotent | src/shared/errorHandler.ts:52-54 | capitalising twice is capitalising once |
| Strings.CapitalizeKeepsAbsent | src/handlers/errorHandler.ts:24 | capitalising never introduces a character that is not an upper-case letter, such as `"` |
| Strings.RemoveAll | src/handlers/errorHandler.ts:24 | the result holds no occurrence of the character and every other character with its multiplicity |
| Strings.RemoveAllAppend | src/handlers/errorHandler.ts:30 | removal commutes with concatenation |
| Strings.RemoveAllUnchangedIff | src/handlers/errorHandler.ts:30 | a message is left unchanged exactly when it holds no such character |
| Strings.Split | src/middlewares/auth/auth.ts:17 | `split` always yields at least one field, and no field holds the separator |
| Strings.JoinSplit | src/middlewares/auth/auth.ts:17 | joining the fields of a split with the separator gives back the header |
| Strings.SplitJoin | src/middlewares/auth/auth.ts:17 | splitting a join of separator-free fields gives back the fields |
| Strings.Join | src/handlers/errorHandler.ts:25 | the empty list joins to ""; otherwise the first part comes first and the length is the parts' total plus one separator between each two |
| Strings.SplitPrefix | src/middlewares/auth/auth.ts:17 | a separator-free prefix extends the first field of the split |
| Strings.SplitField | src/middlewares/auth/auth.ts:17 | text up to the first separator is the first field, and the rest is split on its own |
| Strings.JoinContainsEach | src/utils/auth.util.ts:32 | every joined part occurs in the joined message |
| Strings.JoinAvoids | src/handlers/errorHandler.ts:23-25 | a character absent from every part and from the separator is absent from the join |
| UserStore.FindFirst | src/controllers/auth.ts:14-21 | `findFirst` finds nothing exactly when no row meets the conditions; a row found is in the table and meets them |
| UserStore.FindFirstIsFirst | src/middlewares/auth/auth.ts:28-32 | the row found is the first matching row in table order |
| UserStore.FindById | src/middlewares/auth/auth.ts:28-32 | in a well-formed table a lookup by id finds that row wherever it is |
| UserStore.FindByEmail | src/controllers/auth.ts:14-21 | in a well-formed table a lookup by email finds the row holding it |
| UserStore.UserTable.FindUnique | src/services/auth.service.ts:13-29 | a row is returned exactly when the value is taken in that column, and it holds that value |
| UserStore.UserTable.Create | src/services/auth.service.ts:54-56 | the insert fails exactly on a unique-column collision, leaving the table as it was; otherwise it appends one row with a fresh id and keeps the table well formed |
| AuthUtil.Violations | src/utils/auth.util.ts:10-27 | a rule is reported exactly when the password breaks it (length 8..100, upper-case, lower-case, digit, no whitespace); nothing is reported exactly when the password is acceptable |
| AuthUtil.ShortLowercasePassword | src/utils/auth.util.ts:25-27 | "abcde" breaks the minimum-length, upper-case and digit rules together, in schema order |
| AuthUtil.ExamplePasswordAcceptable | src/utils/auth.util.ts:10-23 | "Abcdef12" passes every rule |
| AuthUtil.RuleMessages | src/utils/auth.util.ts:32 | one message per violation, in the same order |
| AuthUtil.PolicyMessage | src/utils/auth.util.ts:32 | empty for an acceptable password; the first violation's message leads otherwise, and is the whole message when it is the only one |
| AuthUtil.CheckPasswordAndHash | src/utils/auth.util.ts:7-38 | success exactly for an acceptable password, with `hash(password, 10)`; otherwise 400 with every violation's message joined by ", " |
| AuthUtil.PolicyMessageNamesEveryViolation | src/utils/auth.util.ts:31-33 | the failure message names every broken rule, not only the first |
| AuthUtil.MatchPasswords | src/utils/auth.util.ts:40-48 | true exactly when `compare` succeeds; otherwise 401 "Username or password is incorrect" |
| AuthUtil.HashedPasswordMatches | src/utils/auth.util.ts:35-47 | what `checkPasswordAndHash` returns is accepted by `matchPasswords` for the same password, given `compare(p, hash(p, 10))` |
| AuthUtil.GenerateTokens | src/utils/auth.util.ts:50-67 | the access token is `sign({ user: { id } }, JWT_SECRET, JWT_EXPIRES_IN)` and the refresh token the same payload under JWT_REFRESH_SECRET and JWT_REFRESH_EXPIRES_IN |
| AuthUtil.GenerateIdTokens | src/controllers/auth.ts:32-42 | the two tokens of the login handler: payload `{ id }`, access token under JWT_SECRET and JWT_EXPIRES_IN, refresh token under JWT_REFRESH_SECRET and JWT_REFRESH_EXPIRES_IN |
| AuthService.DuplicateFields | src/services/auth.service.ts:32-39 | `errors` has an `email` key exactly when the email is taken and a `username` key exactly when the username is taken, each `["has already been taken"]` |
| AuthService.NewUserData | src/services/auth.service.ts:54-56 | the inserted row holds exactly email, username, name and the hashed password; neither the plaintext nor the confirmation is stored |
| AuthService.CreateUserOutcome | src/services/auth.service.ts:43-57 | a decided insert never collides with the table and holds the hashed password; every failure is an HttpException |
| AuthService.CreateUserChecksInOrder | src/services/auth.service.ts:43-57 | a duplicate (422, naming every taken field) comes before a mismatch (400), which comes before a policy violation (400 with every violation's message joined by ", "); success exactly when all three checks pass, storing `hash(password, 10)` |
| AuthService.AuthService.CheckUserUniqueness | src/services/auth.service.ts:12-41 | returns normally exactly when neither the email nor the username is taken; otherwise one 422 lists every taken field |
| AuthService.AuthService.CreateUser | src/services/auth.service.ts:43-57 | on every failure the table is unchanged and the error is the one the ordered checks give; on success exactly one row is appended with a fresh id |
| AuthController.Login | src/controllers/auth.ts:11-50 | no row with the body's email gives 404; for the first such row, 200 with tokens for its id when `compare` accepts its stored password and 401 otherwise, with the same message as the 404; a success always comes from such a row |
| AuthController.LoginBody | src/controllers/auth.ts:32-49 | the 200 body holds exactly `success: true`, "Login successful" and the two tokens signed over `{ id }` with the access and refresh secrets |
| AuthController.LoginFailuresLookAlike | src/controllers/auth.ts:23-30 | an unknown email gives 404 and a wrong password 401, with the same message |
| AuthController.RegisterCheck | src/controllers/auth.ts:52-99 | an existing record gives 400 "User already exists"; otherwise a mismatch with `coniformPassword` gives 400 "Passwords do not match"; otherwise a policy violation gives 400 `{success: false, message}` with the joined messages; the checks pass exactly when no record matches, the fields agree and the password is acceptable |
| AuthController.RegisterDuplicateNeedsBothFields | src/controllers/auth.ts:55-64 | with both fields present, the duplicate error occurs exactly when one row has both the email and the username |
| AuthController.ExistingUserFilter | src/controllers/auth.ts:55-60 | the lookup filters on the email and the username, each only when present in the body, and never on id |
| AuthController.PolicyError | src/controllers/auth.ts:93-98 | a policy violation in `regiter` is 400 with `{success: false, message}` holding the joined messages |
| AuthController.AuthController.Regiter | src/controllers/auth.ts:52-104 | check failures and a unique-constraint failure leave the table unchanged; success exactly when the checks pass and nothing collides, answering 201 and appending the body verbatim |
| AuthMiddleware.BearerToken | src/middlewares/auth/auth.ts:10-22 | a token is found only in a header starting with "Bearer", and it is non-empty and holds no space |
| AuthMiddleware.BearerTokenIsSecondField | src/middlewares/auth/auth.ts:17 | the token is the second space-separated field of the header |
| AuthMiddleware.BearerTokenShape | src/middlewares/auth/auth.ts:12-18 | every accepted token is the second field of a header of that shape |
| AuthMiddleware.BearerAloneRejected | src/middlewares/auth/auth.ts:17-22 | "Bearer" alone yields no token |
| AuthMiddleware.DoubleSpaceRejected | src/middlewares/auth/auth.ts:17-22 | "Bearer" followed by two spaces yields no token |
| AuthMiddleware.GluedPrefixAccepted | src/middlewares/auth/auth.ts:14 | the prefix test accepts "Bearerxyz abc" and yields "abc" |
| AuthMiddleware.Authenticate | src/middlewares/auth/auth.ts:20-35 | no token gives 401 "Not authorized to access this route"; a token `verify` rejects under JWT_SECRET propagates as a token error; after a good `verify`, the first row with the decoded id is the result, and no such row gives 404 "User not found" |
| AuthMiddleware.Protect | src/middlewares/auth/auth.ts:8-42 | on success `req.user` is the user found and `next` is called; on any failure `req.user` is untouched and the error is passed on |
| Handlers.StatusOr500 | src/handlers/errorHandler.ts:33 | an absent or zero status code falls back to 500; any other is kept |
| Handlers.Convert | src/handlers/errorHandler.ts:20-31 | Joi gives 400 with the cleaned details, a token error gives 401 "Invalid token", Prisma validation gives 400 without newlines, anything else is unchanged |
| Handlers.JoiMessage | src/handlers/errorHandler.ts:22-25 | no details give ""; otherwise the first cleaned detail leads, and a single detail is the whole message |
| Handlers.ConvertIdempotent | src/handlers/errorHandler.ts:20-31 | converting twice is converting once |
| Handlers.HandleError | src/handlers/errorHandler.ts:14-37 | status is the converted status code or 500, so an unrecognised error keeps its own non-zero status; body is `{success: false, message}` with a truthy message, "Internal Server Error" replacing a falsy one |
| Handlers.HandleConverted | src/handlers/errorHandler.ts:20-36 | the response depends on the error only through its conversion |
| Handlers.JoiMessageHasNoQuotes | src/handlers/errorHandler.ts:22-25 | the Joi message holds no `"`, whatever the details hold |
| Handlers.JoiMessageKeepsEachDetail | src/handlers/errorHandler.ts:22-25 | every cleaned, capitalised detail occurs in the message |
| Handlers.JoiErrorResponse | src/handlers/errorHandler.ts:20-36 | a Joi error answers 400 with a quote-free message |
| Handlers.PrismaErrorSingleLine | src/handlers/errorHandler.ts:29-36 | a Prisma validation error answers 400 with no newline in its message |
| Handlers.NotFoundApi | src/handlers/errorHandler.ts:46-56 | the error passed on is a 404 whose message starts "Cannot " |
| Handlers.NotFoundResponse | src/handlers/errorHandler.ts:46-56 | handled, it answers 404 with "Cannot <METHOD> <url>" |
| Handlers.ProductionErrors | src/handlers/errorHandler.ts:98-109 | always "Oops ! Error in Server", with the status code or 500 (for an absent or zero code) both as the status and in the body |
| Handlers.ProductionErrorsHideMessage | src/handlers/errorHandler.ts:104-108 | two errors with the same status code get the same answer |
| SharedErrors.ErrorDetails | src/shared/errorHandler.ts:35-42 | the `error` object carries the original error's message and status code |
| SharedErrors.HandleError | src/shared/errorHandler.ts:14-45 | Joi and Prisma give 400, token errors 401, others their status code or 500; body `{success: false, error}` with the original's details |
| SharedErrors.SameStatusAsApplicationHandler | src/shared/errorHandler.ts:37 | both handlers answer with the same status for every error |
| SharedErrors.FallbackNeverUsed | src/shared/errorHandler.ts:39-43 | "Internal Server Error" never appears: the object literal is always truthy |
| SharedErrors.JoiErrorKeepsOriginalMessage | src/shared/errorHandler.ts:22-42 | a Joi error answers 400 but reports its original message and no status code |
| SharedErrors.TokenErrorKeepsOriginalMessage | src/shared/errorHandler.ts:29-42 | a token error answers 401 but reports the library's own message |
| RequestValidation.Validate | src/shared/htto-validator.ts:38-43 | no schema gives an empty validation error; otherwise failure exactly when the schema reports a violation, carrying all of them |
| RequestValidation.ValidationError | src/shared/htto-validator.ts:50-52 | the thrown Joi error carries all the details, its message starting with the first |
| RequestValidation.FirstFailure | src/shared/htto-validator.ts:45-55 | none exactly when no examined part fails; otherwise the error of the first failing part with all its violations |
| RequestValidation.FirstFailureAppend | src/shared/htto-validator.ts:45-53 | parts after the first failure are not examined; a passing prefix leaves the verdict to the rest |
| RequestValidation.SkippedPartIrrelevant | src/shared/htto-validator.ts:49 | a part without data or without a schema does not change the verdict |
| RequestValidation.HttpValidator | src/shared/htto-validator.ts:28-56 | the loop throws exactly the error `FirstFailure` describes and changes nothing |
| Workflows.RegisterThenLogin | src/services/auth.service.ts:43-57 | the row `createUser` inserts logs in with its email and password, answered 200 with tokens for its id |
| Workflows.LoginTokenPassesGuard | src/controllers/auth.ts:32-34 | the access token of a login, once verified, passes `protect` and attaches that user |
| Workflows.IdTokenReachesItsOwner | src/middlewares/auth/auth.ts:25-38 | a token carrying `{ id }` resolves to the row with that id |
| Workflows.GeneratedTokenReachesFirstUser | src/utils/auth.util.ts:50-67 | a `generateTokens` token carries no top-level `id`, so the guard attaches the table's first row |
| Workflows.GeneratedTokenForSecondUser | src/middlewares/auth/auth.ts:28-32 | a token issued to user 1 authenticates as user 0 |
| Workflows.PartialDuplicateReachesInsert | src/controllers/auth.ts:55-101 | a body repeating only an existing email passes every check of `regiter` and reaches the insert, where the unique constraint rejects it; that error is answered 500 |
| Workflows.ServiceReportsPartialDuplicate | src/services/auth.service.ts:31-39 | `createUser` reports the same request as a 422 naming `email` |

## Left out

- I/O is left out: the HTTP server, the database connection, logging and HTML
  rendering.
- `async`/`await`, `expressAsyncHandler` and concurrent requests are left out.
  Each request is one sequential step, so the race between two registrations is
  not modelled.
- `developmentErrors` is left out: it formats stack traces with a regular
  expression and renders HTML.
- Prisma's own validation of the `data` argument is left out. In particular it
  would reject the `coniformPassword` field that `regiter` passes, unless the
  table has such a column; the schema is not part of this model. Without that
  column, the program as written never reaches the 201 that
  AuthController.AuthController.Regiter models, nor the unique-constraint
  error of Workflows.PartialDuplicateReachesInsert: Prisma's validation error
  comes first and is answered 400.
- The schema file, the `role` relation included by login, and id generation
  beyond "increasing from 0" are left out.
- The bcrypt, jsonwebtoken and Joi algorithms, the password-validator message
  texts, and the exact text of Prisma's P2002 error are library behaviour. They
  are parameters or a placeholder message.
- `toUpperCase` is modelled for ASCII letters only.
- JavaScript string lengths count UTF-16 code units; the model counts
  characters.
- The declarative Joi schemas of src/validators are left out. A schema is a
  function from data to its list of violations.
- Token refresh and the "current user" route are not part of this model.
- AuthUtil.GenerateTokens: `sign` is a parameter, so the payload, secrets and
  lifetimes appear only as the arguments of `sign`; the lemmas about the guard
  assume that `verify` returns that payload.
- AuthController.Login and AuthController.RegisterCheck model request bodies
  whose fields are strings. The routes pass `req.body` unvalidated, so a field
  may be `null`, a number or an object, and Prisma reads an object under
  `email` as a filter (for example `{"not": ""}`), which can find a row other
  than the one holding a given email.
- AuthUtil.Violations checks upper- and lower-case letters over ASCII only.
  password-validator compares the password with its case-converted form, so a
  non-ASCII letter such as "Ω" can satisfy its rule and not the model's.
- AuthMiddleware.Authenticate does not model `verify`'s use of the clock: an
  expired token is one more failure of the `verify` parameter.

## Findings

| source | as written | input that shows it | evidently intended | confidence | as-written member | corrected member |
|---|---|---|---|---|---|---|
| src/utils/auth.util.ts:50-67 | `generateTokens` signs `{ user: { id } }`, but `protect` looks users up by `decoded.id`, which is then undefined, so the lookup has no condition | a token issued to user 1, in a table holding users 0 and 1, authenticates as user 0 | sign `{ id }`, as the login handler does | high, not executed | Workflows.GeneratedTokenForSecondUser | Workflows.IdTokenReachesItsOwner |
| src/controllers/auth.ts:55-60 | `regiter` treats a body as a duplicate only when one record has both the email and the username | a body with an existing email and a new username passes every check and reaches the insert instead of being rejected by the duplicate check; with a table that accepts its fields, the unique constraint rejects it and it is answered 500 | report a taken email or username as a client error, as `createUser` does | medium, not executed | Workflows.PartialDuplicateReachesInsert | Workflows.ServiceReportsPartialDuplicate |

# User accounts and sessions — a Dafny model

This project models the account and session core of an Express/Mongoose user
service. The core has three parts:

- the account controller: `registerUser`, `loginUser`, `logoutUser` and the
  helper `generateAccessAndRefreshToken`;
- the user schema: its field rules, the `pre("save")` password hook,
  `isPasswordCorrect`, `generateAuthToken` and `generateRefreshToken`;
- the request authenticator: the `verifyJwt` middleware.

Each operation is a pure function. It takes a store and a request and gives
back a `Step`: a result plus the store it leaves behind. A result is either
a reply (a status and a body) or an error.

The user collection is a sequence of immutable `User` records. The record at
index `i` has `_id` `i`, and index order is insertion order. When a lookup
matches several records, the database leaves open which one it returns;
the model takes the one inserted first (see "## Left out"). bcrypt and jsonwebtoken are
uninterpreted functions, carried in a `Primitives` value. The proofs rely
on the facts in `Crypto.Sound`:

- a hash is non-empty, and its own password matches it;
- a token is non-empty;
- a token verifies under the secret it was signed with and gives back its
  claims;
- a token is refused under any other secret.

Some proofs also assume `Crypto.Distinct`: the access secret and the
refresh secret differ. The code does not enforce this; it is a deployment
assumption. `AuthMiddleware.RefreshTokenRejected`,
`UserController.LoginStoresRefreshNotAccess`, `Session.LoginThenAuthenticate`
and `Session.RegisterThenLogin` require it (see "## Left out").

The asset store is an oracle from a local path to `Some(url)` or `None`.

Modules, one per concern: `Common` (optional values, errors, results),
`JsString` (JavaScript's `trim`, `toLowerCase` and `replace`), `Crypto`,
`UserModel` (src/models/user.model.js), `UserController`
(src/controller/user.controller.js), `AuthMiddleware`
(src/middlewares/auth.middleware.js), and `Session` (the life cycle end to
end).

## How the model reads the code

- **Errors.** An `ApiError` thrown by the service keeps its status and
  message. Exceptions from the runtime, the database or the JWT library are
  separate variants: `TypeError`, `ValidationError`, `DuplicateKey`,
  `DocumentNotFound`, `JwtError` and `QueryError`. Their HTTP status is set by the
  framework's error handler, and that handler is not part of this model.
- **Order of checks in registration.** A blank field gives 400. A stored
  user with the same username or email gives 409. A missing avatar path
  gives 400. A failed avatar upload gives 400. Only then is the record
  created, and it is created exactly when the schema's `required` rules
  pass; the cover image plays no part (`UserController.Register`,
  `UserController.CoverDoesNotMatter`).
  - A field that is absent, rather than blank, passes the blank check,
    because `undefined?.trim()` is not `""`.
  - Lookup values are cast through the schema's setters, as Mongoose casts
    every filter value on a schema path. So the 409 lookup lower-cases and
    trims the username and email, and a case or padding variant of a stored
    name gets 409. The create's unique index therefore never fires
    (`UserController.UnmatchedDoesNotCollide`).
  - With a `files` object that has no `avatar` array, `req.files.avatar[0]`
    throws a `TypeError` rather than answering 400.
  - With no username, `username.toLowerCase()` throws a `TypeError`.
- **Cover image is never stored.** The controller passes the cover URL
  under the key `coverImage`, but the schema field is `coverimage`. The
  schema drops the undeclared key, so a registered record's `coverimage`
  is always absent, even after a successful cover upload
  (`UserController.CastCreateFields`, `UserController.Register`).
- **Lookups with an absent value.** An undefined value in a lookup is sent
  as null. Null matches only records that lack the field, and every stored
  record has both username and email. So an absent value matches nothing.
- **Token generation.** `generateAuthToken` writes the access token into the
  `refreshToken` field and saves. `generateRefreshToken` then overwrites
  that field with the refresh token and saves again. After a login the
  record therefore holds the refresh token.
  - The controller's last `save`, with validation off and not awaited, is
    modelled as completing at once. Its failure is not observed.
  - In a valid store none of these saves can fail
    (`UserController.TokensOnValidStore`).
- **Authentication errors become 400.** `verifyJwt` rethrows every failure
  as status 400 with the original message, including its own two 401s. So
  the middleware never answers 401. This differs from a design in which a
  refused credential is a 401; the model follows the code.
- **The middleware's lookup.** `verifyJwt` selects `"-password refreshToken"`,
  which excludes one field and includes another. MongoDB refuses such a
  projection, so as written every verified token ends in a 400 and
  `next()` is never reached. This is recorded under "## Findings"
  (`AuthMiddleware.VerifyJwtAsWritten`). Everything else about the
  middleware — `AuthMiddleware.VerifyJwt`, `AuthMiddleware.AccessTokenAccepted`,
  `AuthMiddleware.BearerAccessTokenAccepted`, `Session.LoginThenAuthenticate`
  and `Session.RegisterThenLogin` — is stated for the evidently intended
  selection `"-password -refreshToken"`, the one `registerUser` and
  `loginUser` write.
- **Mongoose setters.** `lowercase` and `trim` are applied on assignment and
  to lookup values; `Cast` and `Matches` in `UserModel` apply them. The order in which Mongoose applies
  them does not matter, because lowering and trimming commute
  (`JsString.LowerTrimCommute`).

## Model

| member | source | states |
|---|---|---|
| JsString.SkipLeading | src/models/user.model.js:12 | the index reached skips only whitespace and stops at the first non-whitespace character (or the end) |
| JsString.SkipTrailing | src/models/user.model.js:12 | the index reached backs over only whitespace and stops after the last non-whitespace character (or at the lower bound) |
| JsString.Trim | src/controller/user.controller.js:28 | `trim()` yields a string with no whitespace at either end, no longer than its input |
| JsString.TrimDecompose | src/models/user.model.js:12 | the input is a blank prefix, the trimmed string, and a blank suffix, in that order |
| JsString.TrimEmpty | src/controller/user.controller.js:28 | a value trims to `""` exactly when every character is whitespace |
| JsString.TrimFixpoint | src/models/user.model.js:25 | trimming leaves a string unchanged exactly when it has no whitespace at either end |
| JsString.TrimIdempotent | src/models/user.model.js:25 | trimming a trimmed value changes nothing |
| JsString.TrimKeepsLowered | src/models/user.model.js:11-12 | trimming a string with no upper-case letter leaves none |
| JsString.LowerChar | src/controller/user.controller.js:66 | an upper-case letter becomes the lower-case letter at the same place in the alphabet; any other character is unchanged; whitespace stays whitespace |
| JsString.Lower | src/controller/user.controller.js:66 | `toLowerCase()` keeps the length, replaces each upper-case letter by its lower-case counterpart in place, and keeps every other character in place |
| JsString.LowerFixpoint | src/models/user.model.js:11 | lowering leaves a string unchanged exactly when it has no upper-case letter; lowering twice is lowering once |
| JsString.LowerTrimCommute | src/models/user.model.js:11-12 | lowering then trimming equals trimming then lowering, so the order of the `lowercase` and `trim` options is irrelevant |
| JsString.SkipLeadingLower | src/models/user.model.js:11-12 | lowering does not move the first non-whitespace index |
| JsString.SkipTrailingLower | src/models/user.model.js:11-12 | lowering does not move the last non-whitespace index |
| JsString.NormalizeFixpoint | src/models/user.model.js:7-21 | a stored username or email is lower-case and trimmed; a value already in that form is stored unchanged; the controller's own `toLowerCase` makes no difference |
| JsString.NormalizeIdempotent | src/models/user.model.js:7-21 | applying the username/email setters twice is applying them once |
| JsString.IndexFrom | src/middlewares/auth.middleware.js:11 | the index found is an occurrence of the pattern with none before it; None means no occurrence at all |
| JsString.RemoveFirst | src/middlewares/auth.middleware.js:11 | `replace("Bearer ", "")` removes the first occurrence: reinserting the pattern there gives back the header; without an occurrence the header is unchanged |
| JsString.RemoveFirstPrefix | src/middlewares/auth.middleware.js:11 | a header that begins with the pattern loses exactly that prefix |
| Crypto.SignSeparatesSecrets | src/models/user.model.js:70-98 | under sound primitives, tokens signed with different secrets are different strings |
| UserModel.FindFrom | src/controller/user.controller.js:124-126 | the index found from a start point is the first matching record at or after it; None means no match from there on |
| UserModel.FindOne | src/controller/user.controller.js:34-36 | `findOne` on username OR email, with both values lower-cased and trimmed by the schema's setters, returns a matching record (the earliest inserted), and None exactly when no record matches |
| UserModel.CastLookupFindsVariant | src/controller/user.controller.js:124-126 | a stored "alice" is found by the padded, capitalised " Alice " |
| UserModel.OnlyMatchIsFound | src/controller/user.controller.js:124-126 | when exactly one record matches, `findOne` returns it, whatever order the database visits records in |
| UserModel.TwoMatchesSplit | src/models/user.model.js:7-21 | in a valid store, two records match the lookup only when the username names one and the email the other |
| UserModel.PreSave | src/models/user.model.js:55-62 | the save hook changes nothing but the password; an unmodified password is kept; a modified one becomes a hash the plain password verifies against |
| UserModel.Save | src/models/user.model.js:84 | a save succeeds exactly when validation passes (if on), the record exists and no other record has its username or email; success replaces only that record, failure leaves the store unchanged |
| UserModel.SaveKeepsUnmodifiedPassword | src/models/user.model.js:55-62 | saving with an unmodified password keeps the stored hash |
| UserModel.NoDoubleHash | src/models/user.model.js:55-62 | saving again the document a save returned does not re-hash its password |
| UserModel.IsPasswordCorrect | src/models/user.model.js:65-67 | under sound primitives, a password verifies against its own hash |
| UserModel.Create | src/models/user.model.js:5-47 | a create with a missing or empty required field fails validation; one that collides with a stored username or email fails on the unique index; both leave the store unchanged; every other create succeeds, appending exactly the normalised record with a hashed password under the next id |
| UserModel.CreatePreservesValid | src/models/user.model.js:7-44 | creating keeps every record complete and normalised, and usernames and emails unique |
| UserModel.CreatedPasswordVerifies | src/models/user.model.js:55-67 | the password a record was created with verifies against the stored hash |
| UserModel.GenerateAuthToken | src/models/user.model.js:70-86 | the access token signs `_id`, email, username and full name with the access secret, and is left in the `refreshToken` field of the saved record |
| UserModel.GenerateRefreshToken | src/models/user.model.js:89-102 | the refresh token signs `_id` alone with the refresh secret, and is left in the `refreshToken` field of the saved record |
| UserModel.SetRefreshPreservesValid | src/controller/user.controller.js:94 | replacing only a record's refresh token keeps the store valid |
| UserModel.SaveRefreshSucceeds | src/models/user.model.js:83-84 | in a valid store, saving a record whose only change is its refresh token always succeeds |
| UserModel.GeneratorsOverwrite | src/models/user.model.js:83-100 | after `generateAuthToken` the field holds the access token; after `generateRefreshToken` it holds the refresh token |
| UserController.UploadOnCloudinary | src/util/cloudinary.js:11-13 | no path (or an empty one) means no upload and no URL |
| UserController.CastCreateFields | src/controller/user.controller.js:65-72 | the schema makes of the controller's object the setters applied to the request's fields, the avatar URL and no cover image, whatever the cover URL, because the key `coverImage` is not a schema field |
| UserController.UnmatchedDoesNotCollide | src/controller/user.controller.js:34-39 | a request the 409 lookup does not match cannot collide with a stored record at the create |
| UserController.Register | src/controller/user.controller.js:8-86 | the order of failures (400 blank, 409 existing, TypeError or 400 for the avatar path, 400 upload, TypeError without username, validation error at the create), never a duplicate key; success exactly when all checks pass and the required fields are present, with no condition on the cover; every failure leaves the store unchanged; success appends exactly one normalised record with hashed password and no cover, and replies 201 without password or refresh token |
| UserController.CoverDoesNotMatter | src/controller/user.controller.js:45-59 | a missing cover file or a failed cover upload leaves registration's result and store exactly as without a cover |
| UserController.RegisterPreservesValid | src/controller/user.controller.js:65-72 | registration keeps usernames and emails unique and every record well formed |
| UserController.RegisteredPasswordVerifies | src/controller/user.controller.js:68 | a freshly registered user's own password verifies |
| UserController.AbsentFieldsPassValidation | src/controller/user.controller.js:27-31 | absent fields are not blank: a request with none reaches the avatar check |
| UserController.MissingUsernameThrows | src/controller/user.controller.js:65-66 | without a username the create step throws a TypeError even after a successful avatar upload |
| UserController.GenerateAccessAndRefreshToken | src/controller/user.controller.js:89-103 | every failure, a missing record included, is one 500 error; success returns the access token signed with the access secret and the refresh token signed with the refresh secret |
| UserController.TokensOnValidStore | src/controller/user.controller.js:89-96 | in a valid store, token generation succeeds and changes only the record's refresh token, to the returned refresh token |
| UserController.Login | src/controller/user.controller.js:105-162 | the order of failures (400 missing credential, 404 no match, 401 wrong password), each leaving the store unchanged; success replies 200 with the public user and both signed tokens |
| UserController.LoginOnValidStore | src/controller/user.controller.js:124-161 | on a valid store, a login that passes the checks succeeds, and only the matched record's refresh token changes, to the returned refresh token; a failed login changes nothing |
| UserController.LoginStoresRefreshNotAccess | src/controller/user.controller.js:92-96 | after a login the record holds the refresh token and never the access token |
| UserController.LoginPreservesValid | src/controller/user.controller.js:136-138 | login keeps the store valid |
| UserController.Logout | src/controller/user.controller.js:170-189 | logout clears the user's refresh token, changes no other record or field, and replies 200 |
| UserController.LogoutIdempotent | src/controller/user.controller.js:170-180 | logging out twice leaves the same store as logging out once |
| UserController.LogoutPreservesValid | src/controller/user.controller.js:170-180 | logout keeps the store valid |
| AuthMiddleware.ExtractToken | src/middlewares/auth.middleware.js:9-11 | a truthy cookie is the token; otherwise a present header with its first "Bearer " cut out, so that putting the prefix back at that position restores the header (the header itself when it has no "Bearer "); otherwise there is none |
| AuthMiddleware.BearerHeaderYieldsToken | src/middlewares/auth.middleware.js:11 | without a usable cookie, `Bearer <t>` yields `<t>` |
| AuthMiddleware.BearerCutAnywhere | src/middlewares/auth.middleware.js:11 | "Bearer " is cut wherever it first occurs, not only at the start |
| AuthMiddleware.HeaderWithoutBearer | src/middlewares/auth.middleware.js:11 | a header without "Bearer " is taken whole |
| AuthMiddleware.SelectionsDiffer | src/middlewares/auth.middleware.js:16-18 | the selection as written mixes an exclusion with an inclusion; the selection `registerUser` writes does not |
| AuthMiddleware.SelectById | src/middlewares/auth.middleware.js:16-18 | the mixed selection is refused with the database's message; the intended one finds the record exactly when the id is stored, without password and refresh token |
| AuthMiddleware.AuthenticateWith | src/middlewares/auth.middleware.js:8-23 | no token gives a 401; a token the access secret does not verify gives the JWT library's error with its message; a verified token under the mixed selection gives the database's refusal; under the intended selection an `_id` naming no record gives 401 "Invalid Access Token"; success exactly when the selection is the intended one, the token verifies with the access secret and its `_id` names a stored record |
| AuthMiddleware.Authenticate | src/middlewares/auth.middleware.js:8-23 | with the intended selection: no token gives 401 "Unauthorized request"; a token the access secret does not verify gives the JWT library's error with its message; an `_id` naming no record gives 401 "Invalid Access Token"; success exactly when the token verifies and its `_id` names a record, giving that record without its secrets |
| AuthMiddleware.Rethrow | src/middlewares/auth.middleware.js:24-25 | every caught error becomes status 400, keeping a non-empty message and falling back to "Invalid access token" |
| AuthMiddleware.VerifyJwtWith | src/middlewares/auth.middleware.js:7-27 | `next()` proceeds exactly when authentication under the given selection succeeds; every failure is the caught error rethrown as a 400 with its message |
| AuthMiddleware.VerifyJwtAsWritten | src/middlewares/auth.middleware.js:7-27 | as written, the middleware never calls `next()`; a verified token ends in a 400 with the database's message |
| AuthMiddleware.VerifyJwt | src/middlewares/auth.middleware.js:7-27 | with the intended selection, `next()` proceeds exactly when authentication succeeds; every failure is the caught error rethrown as a 400 with its message, the two 401s and the JWT library's refusals included |
| AuthMiddleware.RefusedTokenKeepsMessage | src/middlewares/auth.middleware.js:15-25 | a token the JWT library refuses ends in a 400 carrying the library's message, or "Invalid access token" when that message is empty |
| AuthMiddleware.AsWrittenRefusesValidToken | src/middlewares/auth.middleware.js:16-18 | an access token for a stored record passes the intended middleware and is refused by the one as written |
| AuthMiddleware.NeverUnauthorized | src/middlewares/auth.middleware.js:13-25 | the middleware never answers 401 |
| AuthMiddleware.AccessTokenAccepted | src/middlewares/auth.middleware.js:15-23 | with the intended selection, an access token for a stored record, sent as the cookie, authenticates that record |
| AuthMiddleware.BearerAccessTokenAccepted | src/middlewares/auth.middleware.js:11-23 | with the intended selection, the same token in a Bearer header authenticates too |
| AuthMiddleware.RefreshTokenRejected | src/middlewares/auth.middleware.js:15 | a token signed with the refresh secret is refused with 400, whatever its claims |
| AuthMiddleware.UnknownIdRejected | src/middlewares/auth.middleware.js:16-21 | a verified token whose `_id` names no stored record is refused with "Invalid Access Token" as a 400 |
| AuthMiddleware.EmptyBearerIsMissing | src/middlewares/auth.middleware.js:9-14 | no carrier, or a header that is exactly "Bearer ", counts as a missing token |
| Session.RegisteredCanLogIn | src/controller/user.controller.js:120-134 | after registering, the same credentials, in whatever case and padding they were sent, are present, find the new record, and verify |
| Session.AppendedIsFound | src/controller/user.controller.js:124-126 | a record appended with a match no earlier record had is what `findOne` returns |
| Session.FirstMatch | src/controller/user.controller.js:124-126 | a matching record with no match before it is what `findOne` returns |
| Session.LoginThenAuthenticate | src/controller/user.controller.js:136-161 | a successful login stores the refresh token; its access token passes the middleware (with the intended selection), its refresh token does not; logout then clears the stored token |
| Session.RegisterThenLogin | src/controller/user.controller.js:8-161 | register then log in with the same credentials: the login succeeds for the new record and its access token authenticates |
| Session.LogoutSettles | src/controller/user.controller.js:170-180 | a logout keeps the store valid and a second one changes nothing |

## Left out

- Upload to the remote asset store and deletion of the local temporary file
  (src/util/cloudinary.js): I/O. The upload is an oracle from a path to an
  optional URL.
- Multipart parsing and disk storage, routing, CORS, body-size limits,
  cookies on the reply, and response envelopes: framework wiring.
- The HTTP status the framework's error handler gives to uncaught
  exceptions (`TypeError`, a schema validation error, a duplicate-key
  error). The helper that forwards them is not part of this model.
- bcrypt and JWT internals: salts, cost factor, the token encoding, and
  expiry. No clock is modelled, so expiry (`expiresIn`) never rejects a
  token.
- Projections in general: only the two selections the service writes for
  a lookup by `_id` are modelled (`AuthMiddleware.SelectById`). MongoDB's
  exact refusal message is a parameter.
- AuthMiddleware.VerifyJwt: assumes the middleware's lookup succeeds, which
  it does not with the query as written (see "## Findings"). The same
  assumption underlies `AuthMiddleware.AccessTokenAccepted`,
  `AuthMiddleware.BearerAccessTokenAccepted`,
  `Session.LoginThenAuthenticate` and `Session.RegisterThenLogin`.
- UserModel.FindOne: picks the earliest inserted of several matching
  records. Both `$or` fields are indexed, so MongoDB may answer with an OR
  of index scans and return either; which record `loginUser` then checks
  the password against is not fixed by the database. With one match the
  choice does not arise (`UserModel.OnlyMatchIsFound`), and in a valid
  store two matches need the username and the email to name different
  records (`UserModel.TwoMatchesSplit`).
- UserController.Logout: clears the refresh token, as the logout code
  intends. Mongoose's handling of `$set` with an `undefined` value varies
  between versions. Versions that drop the key leave the stored refresh
  token in place, so logout changes nothing; that reading is not modelled.
- AuthMiddleware.RefreshTokenRejected: the refusal of refresh tokens by
  `verifyJwt` rests on the two secrets (`JWT_SECRET` and
  `JWT_REFRESH_SECRET`) differing, which nothing in the code enforces.
  With equal secrets, a refresh token verifies, carries an `_id`, and is
  accepted.
- Concurrency: the un-awaited `save` in `generateAccessAndRefreshToken`
  and races between concurrent logins. Each save is atomic and completes
  at once.
- Non-string request values (numbers, arrays) in the text fields:
  requests carry strings or nothing.
- JsString.Lower: lowers the ASCII letters A–Z only. `toLowerCase` also
  lowers other Unicode letters.
- `timestamps`, `watchhistory`, `console.log` output.
- The read-back after a create (`findById(...).select(...)`, with its 500
  branch): it always finds the record just appended, so the reply is built
  from that record directly.
- Token refresh, password change and profile updates: the code has none
  of these flows.

## Findings

| source | as written | input that shows it | evidently intended | confidence | as-written member | corrected member |
|---|---|---|---|---|---|---|
| src/middlewares/auth.middleware.js:16-18 | the lookup selects `"-password refreshToken"`, excluding the password and including the refresh token, a projection MongoDB refuses; the catch turns the refusal into a 400, so `next()` is never called | a request whose cookie is a valid access token for a stored user | `"-password -refreshToken"`, as at src/controller/user.controller.js:76-78, so the user is loaded without both secrets | medium; not executed | AuthMiddleware.VerifyJwtAsWritten, AuthMiddleware.AsWrittenRefusesValidToken | AuthMiddleware.VerifyJwt |

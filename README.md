# Session and ownership core of a small Express blog

This project models the part of `server.js` that holds the account, session
and ownership rules. That file is an Express blog where users register, log in
and manage the posts they wrote. The model covers the following:

- **JavaScript strings** (`jsstring.dfy`): `trim`, and `.length` counted in
  UTF-16 code units. It also covers the username pattern `/^[a-zA-Z0-9]+$/`.
- **The libraries** (`collaborators.dfy`): bcrypt, jsonwebtoken and
  sanitize-html are records of functions. What we assume of each one is a
  predicate that the lemmas needing it take as a precondition.
  - `BcryptLawful`: a password matches its own hash.
  - `JwtLawful`: a signed token verifies to its claims until `exp` and fails
    after that. Tokens cannot be forged: every token that verifies is the
    signature of the claims it yields. This holds because only the server
    holds the secret, and both signing sites set `exp`.
  - `SanitizerLawful`: the sanitiser maps `""` to `""`.
- **Validation** (`validation.dfy`): the registration checks and
  `sharedPostValidation`. Each one builds its ordered error list step by step,
  proved equal to a reference list, and lemmas give each message's exact
  condition.
- **Sessions** (`session.dfy`):
  - the claims signed at login and registration, with
    `exp = floor(now / 1000) + 86400`;
  - the middleware that turns the `OurSUperApp` cookie into `req.user`, as a
    total function to `Authenticated(claims)` or `Anonymous`;
  - the `mustBeLoggedIn` gate.
- **Ownership** (`ownership.dfy`): the `Allowed` / `NotFound` / `Forbidden`
  decision of the edit and delete routes, and the `isAuthor` flag.
- **The database and its handlers** (`server.dfy`): a class holding the
  `users` and `posts` tables as maps, with the UNIQUE index on usernames and
  the AUTOINCREMENT counters.
  - Each route handler is a method. Its contract gives the response and the
    whole new state. The state is unchanged unless every check passed, and a
    successful edit or delete touches only the requested post.
  - `Valid()` is the table invariant that every handler keeps, including
    the foreign key from `posts.authorid` to `users.id`.

The clock (`Date.now()` in milliseconds, `toISOString()`) and the bcrypt salt
come in as parameters, and so does the JWT secret. jsonwebtoken reads the
clock again to set `iat`; that second reading is a parameter of its own. A `storageFailure` flag on
the register handler stands for an insert that throws. An absent form field,
or one that is not a string, is `None`.

## Quirks of the source, modelled as written

- Line 154: the "at least 8 characters" password rule only runs when the
  username is non-empty. This is `Validation.ShortPasswordUnreportedWithoutUsername`.
  Acceptance is not affected, because an empty username is refused anyway.
  `Validation.RegistrationAcceptsExactly` shows that exactly the usernames of
  3 to 10 alphanumeric characters are accepted, with passwords of 8 to 70
  characters.
- Lines 143-144: the messages say "less than 10 characters" and "can only
  contain letters", yet a ten-character name with digits is accepted. This is
  `Validation.TenCharactersWithDigitsAccepted`.
- Lines 172 and 179: the row read back after the insert selects only
  `username`, so the registration token's `userId` is undefined.
  - A session started by registering therefore owns no post
    (`Server.RegistrationSessionOwnsNothing`).
  - Creating a post from such a session throws: the insert violates
    `authorid NOT NULL`. `Server.Database.CreatePost` answers `ServerError`
    and stores nothing.
- Line 206: a non-string `body` resets `title`, not `body`. Line 210 then
  calls `.trim()` on the non-string body, which throws a TypeError, so the
  request ends in a 500 and nothing is stored. This is `TypeErrorThrown` in
  `Validation.PostValidation`.
- Lines 184-188: an exception during the insert is only logged, and the
  handler still redirects to `/`, with no cookie (`Server.Database.Register`,
  where `storageFailure` holds).
- Lines 97-114: login checks blankness on the trimmed username, but it looks
  up the username as sent and compares the password as sent. Registration
  trims both fields before storing them.
  - `" alice"` cannot log in as `alice` (`Server.LoginDoesNotTrimUsername`).
  - `Server.LoginAfterRegistration` states the login that does succeed after
    a registration: the one with the trimmed fields.

## Model

| member | source | states |
|---|---|---|
| `JsString.IsWhiteSpace` | server.js:138-139 | exactly the ECMAScript WhiteSpace and LineTerminator code points, which `trim` strips; space, tab, CR and LF are among them, and no ASCII letter or digit is |
| `JsString.TrimStart` | server.js:138 | the result is what is left once the leading run of whitespace is removed: every removed character is whitespace, and the result does not start with whitespace |
| `JsString.TrimEnd` | server.js:139 | the result is what is left once the trailing run of whitespace is removed: every removed character is whitespace, and the result does not end with whitespace |
| `JsString.TrimStartIsSuffix` | server.js:138 | what `TrimStart` keeps is a suffix of its input |
| `JsString.TrimEndIsPrefix` | server.js:139 | what `TrimEnd` keeps is a prefix of its input |
| `JsString.Trim` | server.js:138-139 | `trim` never lengthens a string, and its result neither starts nor ends with whitespace |
| `JsString.TrimIsSlice` | server.js:138-139 | `trim` returns a slice of its input with only whitespace cut off, and neither end of the result is whitespace |
| `JsString.TrimBlank` | server.js:97 | `s.trim() === ""` holds exactly when `s` is all whitespace |
| `JsString.TrimUnpadded` | server.js:138 | a string that neither starts nor ends with whitespace is left alone by `trim` |
| `JsString.TrimIdempotent` | server.js:138-139 | trimming twice gives the same result as trimming once |
| `JsString.Utf16Length` | server.js:142-143 | `.length` lies between the number of characters and twice that |
| `JsString.Utf16LengthBmp` | server.js:154-155 | on text of Basic Multilingual Plane characters, `.length` is the number of characters |
| `JsString.MatchesAlphanumeric` | server.js:144 | `/^[a-zA-Z0-9]+$/` matches: the name is non-empty and every character is in a-z, A-Z or 0-9, so a match is ASCII text with no whitespace |
| `JsString.AlphanumericIsPlain` | server.js:144 | a name the username pattern matches is unchanged by `trim`, is non-empty, and its `.length` is its character count |
| `Validation.Report` | server.js:141 | a guarded `errors.push` contributes its message exactly when the guard holds, and at most once |
| `Validation.RegistrationErrors` | server.js:141-155 | the register checks produce at most eight messages, all of them registration messages |
| `Validation.ValidateRegistration` | server.js:141-155 | the register checks push their messages in source order, one per violated rule, and the list is empty exactly when the name and password are acceptable and the name is free |
| `Validation.RegistrationAcceptsExactly` | server.js:141-157 | registration passes validation if and only if the name has 3 to 10 ASCII alphanumeric characters, is not taken, and the password has 8 to 70 code units |
| `Validation.RegistrationMessages` | server.js:141-155 | a message is in the list exactly when its own rule (with the source's guards, including the password-length rule skipped for an empty username) is broken; no other message appears |
| `Validation.RegistrationInCheckOrder` | server.js:141-155 | each registration message appears at most once, and the messages come in the order their checks run |
| `Validation.EmptyUsernameOnlyRequired` | server.js:141-155 | an empty username yields "Username is required" and no other username message; only the required and too-long password messages can follow |
| `Validation.ShortPasswordUnreportedWithoutUsername` | server.js:154 | with an empty username, a short non-empty password gets no "at least 8 characters" message |
| `Validation.EmptyPasswordTwoMessages` | server.js:153-154 | with a valid free username, an empty password yields both "Password is required" and "at least 8 characters", in that order |
| `Validation.TenCharactersWithDigitsAccepted` | server.js:143-144 | the ten-character name `user567890`, digits and all, draws no error |
| `Validation.TwoCharacterUsernameRefused` | server.js:142 | the name `ab` yields exactly `["Username must be at least 3 characters"]` |
| `Validation.PostValidation` | server.js:203-216 | a non-string body throws; otherwise the stored title and body are the sanitised trimmed inputs (a non-string title counting as `""`), "Title is required" and "Body is required" appear exactly when the matching field is empty, and no other message appears; both together come title first |
| `Validation.SharedPostValidation` | server.js:203-216 | the field-by-field validation, which resets the title on a non-string body, ends in the result `PostValidation` specifies |
| `Validation.BlankFieldsReported` | server.js:205-213 | a blank or non-string title, and a blank body, always draw their message |
| `Session.SessionClaims` | server.js:121-124 | the signed payload carries the given `userId` and `username`; `exp` is one day after the second of the handler's `Date.now()`, and `iat` is the second of the library's own reading |
| `Session.SessionClaimsExpiry` | server.js:121-124 | `exp` comes from the handler's clock reading and `iat` from jsonwebtoken's later one, so a token expires at most 86400 seconds after `iat`, and at least 86399 when the readings are under a second apart |
| `Session.SecondBoundaryShortensLifetime` | server.js:121-124 | readings at 999 ms and 1000 ms give a token whose `exp` is one second less than a day after its `iat` |
| `Session.ResolveIdentity` | server.js:57-63 | the request is authenticated exactly when a cookie is present and verifies, and then it holds the verified claims; every other case is `Anonymous` |
| `Session.AuthenticatedIsUnexpired` | server.js:58-63 | an authenticated identity always holds claims whose `exp` is still ahead |
| `Session.SessionLifetime` | server.js:58-63 | a token the server signed resolves to its own claims before `exp`, and to `Anonymous` from `exp` on |
| `Session.MustBeLoggedIn` | server.js:193-198 | the gate lets a request through exactly when it is authenticated, and passes on its claims |
| `Session.GateNeedsVerifiedToken` | server.js:193-198 | a request gets past the gate if and only if it carries a cookie that verifies |
| `Session.ExpiredSessionRedirected` | server.js:193-198 | once its `exp` has passed, a token's request is redirected to `/` |
| `Ownership.PostAccess` | server.js:243-251 | `Allowed` exactly when the post exists and its `authorid` equals the caller's `userId`; `NotFound` when the post is missing; `Forbidden` when it exists but belongs to someone else |
| `Ownership.IsAuthor` | server.js:249 | the strict `===` holds exactly when the caller has a `userId` and it equals `authorid`; an undefined `userId` is never the author |
| `Ownership.AccessIsLocal` | server.js:257-268 | the decision depends only on the requested post's existence and author |
| `Ownership.NoUserIdOwnsNothing` | server.js:294 | claims without a `userId` are never `Allowed`, and no post counts them as its author |
| `Ownership.SingleOwner` | server.js:266 | two callers both allowed on one post carry the same `userId` |
| `Server.FindByUsername` | server.js:106-107 | the lookup returns a row carrying exactly that name, or reports that no row carries it |
| `Server.OnlyAcceptableNamesTaken` | server.js:148-151 | only names that pass the registration rules are ever taken, so a taken name draws no message about its shape, whatever the password, and the empty name is never taken |
| `Server.LoginOutcome` | server.js:94-119 | an accepted login names a stored row whose name is the username as sent and whose hash bcrypt accepts for the password as sent; a refusal carries one or two copies of the generic message and nothing else |
| `Server.LoginResponse` | server.js:100-128 | a refusal renders the login page with its errors; an acceptance redirects to `/` with a cookie that verifies, for the rest of the day, to the accepted id and name |
| `Server.BlankLoginRefusedBeforeLookup` | server.js:97-102 | a blank trimmed username or an empty password is refused with one generic message per blank field, whatever the tables hold |
| `Server.LoginRefusalIsGeneric` | server.js:109-119 | with both fields filled in, an unknown user and a wrong password both yield exactly `["Invalid username / password provided"]` |
| `Server.LoginAcceptedExactly` | server.js:97-119 | login succeeds for user `id` if and only if both fields are filled in, the row named by the raw username is `id`, and bcrypt accepts the raw password |
| `Server.LoginAfterRegistration` | server.js:106-116 | a stored user whose hash came from password `p` logs in with their name and `p`, given bcrypt's law |
| `Server.LoginDoesNotTrimUsername` | server.js:97-107 | a username sent with leading whitespace never logs in, because every stored name is alphanumeric |
| `Server.RegistrationSessionOwnsNothing` | server.js:172-181 | the registration token authenticates for one day but is never allowed to edit or delete a post |
| `Server.LoginSessionOwnsOwnPosts` | server.js:121-124 | for one day, the login token authenticates and is allowed on exactly the posts whose `authorid` is the user's id |
| `Records.Message.Text` | server.js:97-155 | the page text of each message, as the handlers push it; no message has an empty text |
| `Records.TextsTellMessagesApart` | server.js:141-155 | no two messages share a text, so the datatype of messages loses nothing the rendered page shows |
| `Server.Database.Valid` | server.js:23-39 | the table invariant every handler keeps: the UNIQUE index on `username`, the `authorid` foreign key, AUTOINCREMENT ids bounded by their counters, and only rule-passing names stored; it implies the next id of each table is free and the empty name is never taken |
| `Server.Database.constructor` | server.js:23-41 | empty tables with counters at zero satisfy the table invariant |
| `Server.Database.Register` | server.js:131-189 | the handler re-renders with the full error list and leaves the tables unchanged; redirects without a cookie, unchanged, when the insert fails; or inserts exactly one user under the next id, with the trimmed name and the hash of the trimmed password, and sets a token with no `userId` |
| `Server.Database.Login` | server.js:90-129 | the handler changes nothing, and answers with the login page and the errors of `LoginOutcome`, or with a redirect that sets a token for the matched user's id and name |
| `Server.Database.CreatePostForm` | server.js:199-201 | an anonymous request is redirected; an authenticated one gets the empty form |
| `Server.Database.CreatePost` | server.js:218-233 | an anonymous request, a throwing validation, validation errors, a missing `userId` (NOT NULL) and a `userId` with no user row (the foreign key) leave the tables unchanged; otherwise exactly one post is inserted under the next id, with the caller as author, and the response redirects to it |
| `Server.Database.EditPostForm` | server.js:237-254 | only the author of an existing post gets the edit form with that post; every other request is redirected to `/` |
| `Server.Database.EditPost` | server.js:256-280 | nothing changes unless the caller authored the existing post and validation passed; then exactly that post's title and body are replaced |
| `Server.Database.DeletePost` | server.js:284-302 | always redirects to `/`; removes exactly post `id` when the caller is its author, and otherwise changes nothing |
| `Server.Database.ViewPost` | server.js:305-313 | renders exactly when the caller is authenticated, the post exists and its author has a row, which under the table invariant is every existing post; `isAuthor` holds if and only if `authorid` equals the caller's `userId`; otherwise redirects to `/` |

## Left out

- Express wiring, routes not named here (`/`, `/logout`, `/login` GET), EJS rendering, static files and `app.listen` (lines 10-17, 70-88, 315-317). These are plumbing. The `/` dashboard listing and `clearCookie` on logout are I/O.
- The SQLite schema beyond the constraints `Server.Database.Valid` states, the WAL pragma, SQL text and `ORDER BY createdDate` (lines 19-45, 72). These are storage setup. The tables are maps and the counters model AUTOINCREMENT.
- The route's `:id` is taken as an integer. SQLite's conversion of the text parameter to an integer is not modelled.
- bcrypt, jsonwebtoken and sanitize-html are functions passed in with the assumed laws above. The cryptography is not modelled: salt generation, the cost factor, constant-time comparison, bcrypt's 72-byte limit, the JWT encoding and the signature check itself.
- The author's `username`, which the single-post query joins onto the post (line 306), is not carried in the rendered `Post`. Only `isAuthor` and the `posts` row are.
- `marked` and the `filteruserHtml` helper (lines 49-54) only feed rendering.
- The cookie's name `OurSUperApp` and its attributes (line 126, line 183), `Date.now` and `toISOString`. The response carries only the token. The clock and the salt are parameters.
- A missing `JWTSECRET` is not modelled. It is configuration.
- Concurrency: concurrent duplicate registrations, and the window between the ownership check and the update or delete. A storage failure during registration is one flag.
- Cost of hashing: the model shows that the hash is computed only after the error list is found empty, but does not count work.
- `console.log` and `console.error` (lines 170, 185).
- Strings are sequences of Unicode scalar values. Lone surrogates cannot appear, and `.length` is computed from the scalar values. Express's parsing of the form body into strings is not modelled: any non-string value is `None`.

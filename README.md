# auth-lab in Dafny

A model of the core of auth-lab, an Express and Mongoose backend that registers
users, logs them in with JSON Web Tokens and manages them over REST. The model
covers these parts:

- **`authenticateToken` middleware** (`AuthMiddleware`). It takes the second
  space-separated word of the `Authorization` header as the token, answers 401
  when there is none and 403 when `jwt.verify` rejects it. Otherwise it attaches
  the token's `id` to the request and calls `next()`.
- **`validate` middleware** (`ValidateMiddleware`). It runs a schema on the body
  or the params, answers 400 with the first error message, or calls `next()`.
- **Auth controller** (`AuthController`): `profile`, `logout` and `refreshToken`.
- **User controller** (`UserController`): `generateToken`, `register`, `login`,
  `getUsers`, `updateUser` and `deleteUser`. These run over a `UserCollection`
  class whose `users` map stands for the MongoDB collection. Its invariant is that
  the `username` and `email` unique indexes hold.
- **User model** (`UserModel`). It covers the schema's required and unique
  fields, the pre-save hook that bcrypt-hashes a modified password,
  `comparePassword`, and the `toJSON` transform that drops the password. It also
  covers how Mongoose casts a string id to an ObjectId.

## How the model is built

- **JSON.** Request bodies and replies are JSON values (`Http.Value`), and
  JavaScript truthiness is written out (`Http.Truthy`). A reply is a status and a
  body (`Http.Response`).
- **Middleware.** The request/response pair that middleware works on is the
  `Http.Exchange` class. The middleware either sets its response or counts a call
  to `next()`.
- **`jsonwebtoken` and `bcryptjs`.** These are records of functions (`Crypto.Jwt`,
  `Crypto.Bcrypt`). Every property the handlers rely on is stated by the
  predicates `LawfulJwt` and `LawfulBcrypt`. The contracts that depend on these
  laws (the hook, `comparePassword`, `register`, `login`, the token lemmas) name
  them as a precondition. The others (`Gate`, `RefreshToken`, `Profile`,
  `UpdateUser`, `DeleteUser`) are stated for any functions in the record:
  - a token verifies, with the same secret, to the id it was signed for, until
    its lifetime has passed, and never verifies under another secret;
  - a signed token contains no space;
  - a bcrypt hash is 60 characters long, differs from the password and matches
    it;
  - a string that is not 60 characters long matches no password.

  `CryptoWitness` builds concrete functions that satisfy both predicates, so the
  two sets of laws are consistent.
- **Outside inputs.** The clock (`now`), the secret (`env.JWT_SECRET`), the bcrypt
  salt and the id Mongo assigns to a new document are parameters. A failing
  database call is a `fault` flag: the handler's `catch` answers 500
  `Server error` and nothing changes.
- **Multi-request properties.** `Flows` runs several handlers in order on one
  collection and states what the later replies must be.

## Model

| member | source | states |
|---|---|---|
| AuthMiddleware.Split | src/middlewares/auth.middleware.ts:11 | `split(' ')` always yields at least one part |
| AuthMiddleware.SplitSingle | src/middlewares/auth.middleware.ts:11 | a string splits into a single part exactly when it lacks the separator, and that part is the string itself |
| AuthMiddleware.SplitPartsLackSeparator | src/middlewares/auth.middleware.ts:11 | no part of a split contains the separator |
| AuthMiddleware.JoinSplit | src/middlewares/auth.middleware.ts:11 | joining the parts with the separator gives back the original string |
| AuthMiddleware.SplitHead | src/middlewares/auth.middleware.ts:11 | for a string `a + sep + b` where `a` has no separator, the first part is `a` and the rest is the split of `b` |
| AuthMiddleware.SplitJoin | src/middlewares/auth.middleware.ts:11 | splitting the join of separator-free parts gives back those parts |
| AuthMiddleware.BearerToken | src/middlewares/auth.middleware.ts:10-11 | there is a second word exactly when a header is present and contains a space; that word contains no space |
| AuthMiddleware.TokenAfterScheme | src/middlewares/auth.middleware.ts:11 | when the scheme and token have no space, the token is extracted from `scheme + ' ' + token`, and from that header followed by a space and anything at all |
| AuthMiddleware.HeaderAroundToken | src/middlewares/auth.middleware.ts:10-11 | when a token is extracted, the header is the first word, a space, the token, and then either the end or a space |
| AuthMiddleware.Gate | src/middlewares/auth.middleware.ts:9-28 | "missing" exactly when there is no second word or it is empty; "rejected" exactly when verification fails; otherwise "admitted" with the verified id and empty email and username |
| AuthMiddleware.GateWithoutToken | src/middlewares/auth.middleware.ts:10-16 | a header with no space, an absent header, and `"Bearer "` with nothing after it are all "missing" |
| AuthMiddleware.GateAdmitsLiveToken | src/middlewares/auth.middleware.ts:18-25 | `<scheme> <token>` with an unexpired token signed with the secret is admitted with the signed id, whatever the scheme word |
| AuthMiddleware.GateRejectsDeadToken | src/middlewares/auth.middleware.ts:18-28 | an expired token, or one signed with another secret, is rejected (403) |
| AuthMiddleware.AuthenticateToken | src/middlewares/auth.middleware.ts:9-29 | exactly one of these happens: 401 `Access denied. Token missing.`, 403 `Invalid or expired token.`, or the user is set and `next()` is called once |
| ValidateMiddleware.Validate | src/middlewares/validate.middleware.ts:4-13 | 400 carrying the first error's message exactly when the schema rejects the chosen part; otherwise next |
| ValidateMiddleware.ValidateReadsOnlyItsPart | src/middlewares/validate.middleware.ts:5-6 | the outcome depends only on the chosen part (`body` or `params`) of the request |
| ValidateMiddleware.ValidateAll | src/routes/user.routes.ts:11 | a chain of validators passes exactly when every schema accepts; otherwise it stops at the first that rejects with that schema's 400 |
| AuthController.Profile | src/controllers/auth.controller.ts:10-25 | 500 on a store fault or an uncastable id, 404 `User not found` exactly when there is no identity or its id is absent, 200 for a stored user with its id, username and email only (never the password) |
| AuthController.ProfileOfStoredUser | src/controllers/auth.controller.ts:12-21 | an admitted identity whose id is stored gets exactly that document's public fields |
| AuthController.Logout | src/controllers/auth.controller.ts:27-29 | always 200 with the discard-token message; no state is involved |
| AuthController.RefreshToken | src/controllers/auth.controller.ts:31-45 | a falsy `refreshToken` is 401 `Refresh token missing`; one that fails verification (including a non-string) is 403 `Invalid refresh token`; otherwise 200 with an `accessToken` signed now for the decoded id with a one-hour lifetime |
| AuthController.RefreshKeepsSubject | src/controllers/auth.controller.ts:38-41 | the new access token verifies to the same id as the refresh token, for the next hour, and is rejected after that |
| AuthController.AccessTokenRefreshes | src/controllers/auth.controller.ts:31-45 | any live token from `login`, access token included, is accepted as a refresh token |
| UserController.GenerateToken | src/controllers/user.controller.ts:5-7 | with lawful JWT functions, the token is non-empty, has no space, and verifies at issue time to the user's id |
| UserController.GeneratedTokenVerifies | src/controllers/user.controller.ts:5-7 | the login token verifies to the user's id for one hour and not after |
| UserController.UserCollection.Register | src/controllers/user.controller.ts:9-21 | 400 `Email already registered` for a taken email; 500 when a validator or unique index refuses the save; otherwise 201 `User registered` and exactly one new document whose password is the bcrypt hash (not the plaintext); the unique indexes are kept |
| UserController.UserCollection.Login | src/controllers/user.controller.ts:23-35 | one identical 401 `Invalid credentials` for an unknown email and for a wrong password; 200 `{ token }` signed for the id of the document with that email when `comparePassword` succeeds; nothing changes |
| UserController.UserCollection.GetUsers | src/controllers/user.controller.ts:37-47 | 404 `No users found` on an empty collection; otherwise 200 with an array that holds each stored user's `toJSON` once and no password |
| UserController.Merge | src/controllers/user.controller.ts:51 | the update's `$set`: each field present in the body replaces the stored value, each absent field keeps it, and an empty body changes nothing |
| UserController.UserCollection.UpdateUser | src/controllers/user.controller.ts:49-57 | 500 for an uncastable id or a broken unique index; 404 for an absent id; otherwise the patch is merged into that document alone and returned without the password, and a new password is stored verbatim |
| UserController.UserCollection.UpdateUserRehashing | src/controllers/user.controller.ts:49-57 | the corrected update: same outcomes, but a new password is stored as a bcrypt hash that matches it |
| UserController.Hashed | src/models/user.model.ts:17-20 | a patch's password replaced by the hook's hash, which differs from it and matches it; the other fields are untouched |
| UserController.UserCollection.DeleteUser | src/controllers/user.controller.ts:59-67 | 500 for an uncastable id, 404 `User not found` for an absent one, otherwise 200 `User deleted` with exactly that document removed |
| UserModel.CastObjectId | src/controllers/user.controller.ts:51 | an id casts exactly when it is 24 hex digits; the cast lower-cases it and keeps an already-canonical id unchanged |
| UserModel.HookKeepsRequired | src/models/user.model.ts:12-21 | the `required` validators (`Required`: no field empty) still hold after the hook replaces the password by its hash |
| UserModel.UniqueFindsOne | src/models/user.model.ts:12-13 | under the `unique` indexes (`Unique`), at most one document has a given email and at most one a given username |
| UserModel.FitsIndexesKeepsUnique | src/models/user.model.ts:12-13 | a write that clashes with no other document's username or email keeps both unique indexes |
| UserModel.ComparePassword | src/models/user.model.ts:23-25 | a document whose password is a hash of the candidate (any rounds, any salt) accepts it; a stored string that is not 60 characters accepts nothing |
| UserModel.Transform | src/models/user.model.ts:27-32 | the serialised document has every field except `password`, with the values unchanged |
| UserModel.UserJson | src/models/user.model.ts:27-32 | a user serialises to an object with exactly `_id`, `username` and `email` |
| UserModel.UserDocument.constructor | src/controllers/user.controller.ts:15 | a new document holds the given fields, with its password marked as modified |
| UserModel.UserDocument.PreSave | src/models/user.model.ts:17-21 | a modified password is replaced by its bcrypt hash, which differs from it and matches it; an unmodified one is left alone |
| UserModel.SaveTwice | src/models/user.model.ts:17-21 | saving twice hashes once: the second save leaves the stored hash as it is, and it still matches the original password |
| CryptoWitness.ToyJwtIsLawful | src/controllers/auth.controller.ts:39-40 | a concrete signer and verifier satisfies every JWT law the handlers assume |
| CryptoWitness.ToyBcryptIsLawful | src/models/user.model.ts:19-24 | a concrete hasher and comparer satisfies every bcrypt law the handlers assume |
| Flows.RegisterTwice | src/controllers/user.controller.ts:12-13 | after a 201, registering the same email again is 400, and the collection holds exactly one document with that email |
| Flows.SignUpSignInProfile | src/controllers/user.controller.ts:9-35 | after a 201, the same credentials log in, the gate admits the token, and the profile is the user's public data; a non-matching password is 401 |
| Flows.DeleteTwice | src/controllers/user.controller.ts:59-63 | a second delete of the same id is 404, and the first removed exactly one document |
| Flows.ProfileAfterDelete | src/controllers/auth.controller.ts:12-16 | a live token outlives its user: the gate still admits it, and the profile is 404 |
| Flows.ProfileRoute | src/routes/auth.routes.ts:7 | `GET /profile` answers with the gate's 401 or 403, or with `profile` for the admitted identity |
| Flows.PlaintextPasswordFailsLogin | src/controllers/user.controller.ts:51 | a password stored in plaintext (not 60 characters) never matches at login, not even itself |
| Flows.PasswordUpdateThenLogin | src/controllers/user.controller.ts:51 | as written: after a password update the plaintext is stored, and logging in with that password is 401 |
| Flows.RehashedUpdateThenLogin | src/controllers/user.controller.ts:51 | corrected: after a rehashing update, logging in with the new password is 200 with a token for the user |

## Left out

- JSON Web Token and bcrypt internals (HMAC, base64url, the Blowfish cost loop) are not modelled. Only the laws the handlers rely on are stated. bcrypt is not assumed injective, because its hashes are finite and it looks only at the first 72 bytes of a password.
- Token payloads without an `id` claim, and tokens signed by third parties, are not modelled: `verify` yields the signed id or nothing.
- Asynchrony and concurrency are not modelled. Each handler runs to completion on one collection, and two concurrent registrations cannot interleave between the email check and the save.
- Database failures are one `fault` flag per request. The model does not say which call failed or how.
- The Joi schemas (`../validations/user.validation`, imported at `src/routes/user.routes.ts:4`) are not part of this model: a schema is any function from the validated part to an optional error. Bodies reaching `register` and `login` are assumed to carry string fields.
- UserModel.ComparePassword: `compare` always yields a boolean. bcryptjs instead fails when the stored string has 60 characters but is not a bcrypt hash (a 60-character plaintext set through `updateUser`, say), and `login` then answers 500, not 401. That case is not modelled.
- Crypto.HASH_LENGTH counts Dafny characters, which are Unicode scalar values. bcryptjs tests `hash.length` in UTF-16 code units, so the two differ for a plaintext with characters outside the Basic Multilingual Plane.
- UserController.UserCollection.UpdateUser: the update body is limited to the schema's three fields as strings. Other keys, which Mongoose's strict mode drops, are not modelled.
- UserController.UserCollection.GetUsers: the order of the array (the collection's natural order) is not modelled. The contract states the array's length and its set of elements.
- Mongoose's `__v` version key and timestamps are not modelled in serialised users.
- UserModel.CastObjectId: the 12-character string form of an ObjectId, which Mongoose also accepts, is not modelled.
- Http.Truthy: numbers are integers, so `NaN` and fractional values are not modelled.
- Login's timing difference between an unknown email (no bcrypt compare) and a wrong password is not modelled. Both replies are identical.
- Express routing and the app setup (`src/app.ts`, `src/app.js`, `src/index.ts`), `env` loading and the email service are not part of this model. Only the profile route is composed (`Flows.ProfileRoute`). The logout and refresh routes sit behind the same gate or none, as `src/routes/auth.routes.ts:7-9` wires them.
- `logout` keeps no state. Tokens are not revoked, so a logged-out token stays valid until it expires.

## Code versus tests

Where the handlers and the repository's tests (`tests/unit`, `tests/integration`) disagree, the model follows the handlers:

- `login` replies `{ token }` (`src/controllers/user.controller.ts:31`), while the tests expect `accessToken` and `refreshToken`. `UserController.TokenReply` has the single `token` field.
- `deleteUser` replies 200 `{ message: 'User deleted' }` (`src/controllers/user.controller.ts:63`), while the tests expect 204 with no body.
- `register` replies 201 `{ message: 'User registered' }` (`src/controllers/user.controller.ts:17`), while an integration test expects the new user's `_id`.
- No separate refresh token is ever issued, although the tests expect one from `login`. `refreshToken` accepts any token that verifies, access tokens included (`AuthController.AccessTokenRefreshes`).
- Registering with a free email but a taken username does not give a 400. The unique index refuses the save, and the reply is 500 `Server error`.

## Findings

| source | as written | input that shows it | evidently intended | confidence | as-written member | corrected member |
|---|---|---|---|---|---|---|
| src/controllers/user.controller.ts:51 | `findByIdAndUpdate` bypasses the pre-save hook, so a password in the update body is stored in plaintext | `PUT /users/:id` with body `{ "password": "newpass" }`, then `login` with `"newpass"`: the collection holds `newpass` unhashed and the login is 401 (`Flows.PasswordUpdateThenLogin`) | hash the new password as `register` does, so it can log in (`Flows.RehashedUpdateThenLogin`) | medium, not executed; it depends on the update schema admitting `password` | UserController.UserCollection.UpdateUser | UserController.UserCollection.UpdateUserRehashing |

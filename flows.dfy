/**
 * Properties that span several requests: what one handler leaves in the
 * collection, the next one sees. Each method runs the handlers in order on one
 * collection and states what the later replies must be.
 */
module Flows {
  import opened Wrappers
  import opened Http
  import opened Crypto
  import opened UserModel
  import opened AuthMiddleware
  import opened AuthController
  import opened UserController

  /**
   * Registering the same email twice: the second attempt is a 400 `Email already
   * registered`, changes nothing, and the collection holds one document with that email.
   */
  method RegisterTwice(store: UserCollection, username: string, email: string, password: string,
                       otherName: string, otherPassword: string, b: Bcrypt, salt1: Salt, salt2: Salt,
                       id1: ObjectId, id2: ObjectId)
    returns (first: Response, second: Response)
    requires store.Valid() && LawfulBcrypt(b)
    modifies store
    ensures store.Valid()
    ensures first.status == CREATED ==>
      second == ErrorReply(BAD_REQUEST, EMAIL_TAKEN) &&
      store.users == old(store.users)[id1 := UserDoc(username, email, b.hash(password, SALT_ROUNDS, salt1))] &&
      forall a, c :: a in store.users && c in store.users && store.users[a].email == email && store.users[c].email == email ==> a == c
  {
    first := store.Register(username, email, password, b, salt1, id1, false);
    ghost var between := store.users;
    second := store.Register(otherName, email, otherPassword, b, salt2, id2, false);
    if first.status == CREATED {
      assert between[id1].email == email;
      assert EmailTaken(between, email);
    }
  }

  /**
   * Sign up, sign in, call the profile: after a 201 the same credentials log in
   * (200 with a token for the new id), the gate admits that token under the
   * `Bearer` scheme for the next hour, and the profile is the user's public data.
   * Any other password for which `comparePassword` fails is refused with 401.
   */
  method SignUpSignInProfile(store: UserCollection, username: string, email: string, password: string,
                             wrong: string, b: Bcrypt, j: Jwt, secret: Secret, salt: Salt,
                             newId: ObjectId, now: Time)
    returns (registered: Response, loggedIn: Response, refused: Response, verdict: Verdict, profile: Response)
    requires store.Valid() && LawfulBcrypt(b) && LawfulJwt(j)
    requires !b.compare(wrong, b.hash(password, SALT_ROUNDS, salt))
    modifies store
    ensures store.Valid()
    ensures registered.status == CREATED ==>
      loggedIn == TokenReply(GenerateToken(j, secret, now, newId)) &&
      refused == ErrorReply(UNAUTHORIZED, INVALID_CREDENTIALS) &&
      verdict == Admitted(Identity(newId, "", "")) &&
      profile == Response(OK, ProfileJson(newId, UserDoc(username, email, b.hash(password, SALT_ROUNDS, salt))))
  {
    registered := store.Register(username, email, password, b, salt, newId, false);
    loggedIn := store.Login(email, password, b, j, secret, now, false);
    refused := store.Login(email, wrong, b, j, secret, now, false);
    var token := GenerateToken(j, secret, now, newId);
    if registered.status == CREATED {
      assert store.users[newId].email == email;
      assert CredentialsMatch(b, store.users, email, password);
      assert !CredentialsMatch(b, store.users, email, wrong);
      var id :| id in store.users && store.users[id].email == email && loggedIn == TokenReply(GenerateToken(j, secret, now, id));
      assert id == newId;
      token := loggedIn.body.fields["token"].s;
      GateAdmitsLiveToken(j, secret, "Bearer", newId, now, ACCESS_TOKEN_TTL, now);
    }
    verdict := Gate(j, secret, now, Some("Bearer" + [' '] + token));
    profile := Profile(store.users, if verdict.Admitted? then Some(verdict.user) else None, false);
  }

  /** Deleting a user twice: the second delete of the same id is a 404 `User not found`. */
  method DeleteTwice(store: UserCollection, rawId: string) returns (first: Response, second: Response)
    requires store.Valid()
    modifies store
    ensures store.Valid()
    ensures first == MessageReply(USER_DELETED) ==> second == ErrorReply(NOT_FOUND, USER_NOT_FOUND)
    ensures first == MessageReply(USER_DELETED) ==> |store.users| == |old(store.users)| - 1
  {
    first := store.DeleteUser(rawId, false);
    second := store.DeleteUser(rawId, false);
  }

  /**
   * A token outlives its user: after the user is deleted, the gate still admits
   * the token and the profile answers 404.
   */
  method ProfileAfterDelete(store: UserCollection, id: ObjectId, j: Jwt, secret: Secret, iat: Time, now: Time)
    returns (deleted: Response, verdict: Verdict, profile: Response)
    requires store.Valid() && LawfulJwt(j) && id in store.users && now < iat + ACCESS_TOKEN_TTL
    modifies store
    ensures deleted == MessageReply(USER_DELETED)
    ensures verdict == Admitted(Identity(id, "", ""))
    ensures profile == ErrorReply(NOT_FOUND, USER_NOT_FOUND)
  {
    deleted := store.DeleteUser(id, false);
    GateAdmitsLiveToken(j, secret, "Bearer", id, iat, ACCESS_TOKEN_TTL, now);
    verdict := Gate(j, secret, now, Some("Bearer" + [' '] + j.sign(id, secret, iat, ACCESS_TOKEN_TTL)));
    profile := Profile(store.users, Some(verdict.user), false);
  }

  /**
   * `router.get('/profile', authenticateToken, profile)`: the gate answers 401 or
   * 403 itself, or lets the request through to `profile` with the identity it attached.
   */
  method ProfileRoute(store: UserCollection, ex: Exchange, j: Jwt, secret: Secret, now: Time, fault: bool)
    requires ex.response == None && ex.nextCalls == 0
    modifies ex
    ensures match Gate(j, secret, now, ex.request.authorization)
      case TokenMissing => ex.response == Some(ErrorReply(UNAUTHORIZED, TOKEN_MISSING))
      case TokenRejected => ex.response == Some(ErrorReply(FORBIDDEN, TOKEN_INVALID))
      case Admitted(u) => ex.response == Some(Profile(store.users, Some(u), fault))
  {
    AuthenticateToken(ex, j, secret, now);
    if ex.nextCalls == 1 {
      ex.response := Some(Profile(store.users, ex.user, fault));
    }
  }

  /**
   * A stored string that is not a bcrypt hash matches no candidate, so the
   * plaintext `updateUser` stores locks its owner out: logging in with exactly
   * that password fails.
   */
  lemma PlaintextPasswordFailsLogin(b: Bcrypt, users: Users, id: ObjectId, p: string)
    requires LawfulBcrypt(b) && Unique(users) && id in users
    requires users[id].password == p && |p| != HASH_LENGTH
    ensures !CredentialsMatch(b, users, users[id].email, p)
  {
  }

  /**
   * `updateUser` as written: setting a password such as `"newpass"` through the
   * update stores it in plaintext, and logging in with that very password is
   * then refused with 401.
   */
  method PasswordUpdateThenLogin(store: UserCollection, id: ObjectId, p: string,
                                 b: Bcrypt, j: Jwt, secret: Secret, now: Time)
    returns (updated: Response, loggedIn: Response)
    requires store.Valid() && LawfulBcrypt(b) && id in store.users && |p| != HASH_LENGTH
    modifies store
    ensures store.Valid()
    ensures updated.status == OK && id in store.users && store.users[id].password == p
    ensures loggedIn == ErrorReply(UNAUTHORIZED, INVALID_CREDENTIALS)
  {
    updated := store.UpdateUser(id, Patch(None, None, Some(p)), false);
    assert Merge(old(store.users)[id], Patch(None, None, Some(p))).username == old(store.users)[id].username;
    assert FitsIndexes(old(store.users), id, Merge(old(store.users)[id], Patch(None, None, Some(p))));
    PlaintextPasswordFailsLogin(b, store.users, id, p);
    loggedIn := store.Login(store.users[id].email, p, b, j, secret, now, false);
  }

  /**
   * The corrected update: after setting a password through `UpdateUserRehashing`,
   * logging in with that password succeeds with a token for the user's id.
   */
  method RehashedUpdateThenLogin(store: UserCollection, id: ObjectId, p: string, b: Bcrypt, salt: Salt,
                                 j: Jwt, secret: Secret, now: Time)
    returns (updated: Response, loggedIn: Response)
    requires store.Valid() && LawfulBcrypt(b) && LawfulJwt(j) && id in store.users
    modifies store
    ensures store.Valid()
    ensures updated.status == OK && id in store.users && b.compare(p, store.users[id].password)
    ensures loggedIn == TokenReply(GenerateToken(j, secret, now, id))
  {
    var patch := Patch(None, None, Some(p));
    updated := store.UpdateUserRehashing(id, patch, b, salt, false);
    assert FitsIndexes(old(store.users), id, Merge(old(store.users)[id], Hashed(patch, b, salt)));
    var email := store.users[id].email;
    assert CredentialsMatch(b, store.users, email, p);
    loggedIn := store.Login(email, p, b, j, secret, now, false);
    var other :| other in store.users && store.users[other].email == email && loggedIn == TokenReply(GenerateToken(j, secret, now, other));
    assert other == id;
  }
}

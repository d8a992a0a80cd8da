/**
 * The user controller: `register`, `login`, `getUsers`, `updateUser` and
 * `deleteUser` over the User collection, which is an object holding the stored
 * documents by id. Each handler returns the response it sends; a failure of
 * the store (`fault`) is caught and answered with 500 `Server error`.
 */
module UserController {
  import opened Wrappers
  import opened Http
  import opened Crypto
  import opened UserModel

  const EMAIL_TAKEN: string := "Email already registered"
  const USER_REGISTERED: string := "User registered"
  const INVALID_CREDENTIALS: string := "Invalid credentials"
  const NO_USERS: string := "No users found"
  const USER_DELETED: string := "User deleted"

  /** `generateToken(user)`: `jwt.sign({ id: user._id }, env.JWT_SECRET, { expiresIn: '1h' })`, signed at `now`. */
  function GenerateToken(j: Jwt, secret: Secret, now: Time, id: ObjectId): (token: string)
    ensures LawfulJwt(j) ==> token != "" && ' ' !in token && j.verify(token, secret, now) == Some(id)
  {
    j.sign(id, secret, now, ACCESS_TOKEN_TTL)
  }

  /** The token `generateToken` makes verifies to the user's `_id` for one hour and not after. */
  lemma GeneratedTokenVerifies(j: Jwt, secret: Secret, now: Time, id: ObjectId, t: Time)
    requires LawfulJwt(j)
    ensures t < now + ACCESS_TOKEN_TTL ==> j.verify(GenerateToken(j, secret, now, id), secret, t) == Some(id)
    ensures now + ACCESS_TOKEN_TTL <= t ==> j.verify(GenerateToken(j, secret, now, id), secret, t) == None
  {
  }

  /** Some stored user has this email and `comparePassword(password)` holds for it. */
  ghost predicate CredentialsMatch(b: Bcrypt, users: Users, email: string, password: string)
    requires LawfulBcrypt(b)
  {
    exists id :: id in users && users[id].email == email && ComparePassword(b, users[id], password)
  }

  /** The reply of a successful login: `res.json({ token })`. */
  function TokenReply(token: string): Response
  {
    Response(OK, Obj(map["token" := Str(token)]))
  }

  /** A new document can be saved under `id`: it passes the `required` validators and breaks no unique index. */
  predicate Insertable(users: Users, id: ObjectId, d: UserDoc)
  {
    Required(d) && id !in users && FitsIndexes(users, id, d)
  }

  /** The fields of an update body the schema knows; a field that is absent is left alone. */
  datatype Patch = Patch(username: Option<string>, email: Option<string>, password: Option<string>)

  /** The `$set` that `findByIdAndUpdate(id, req.body)` applies: present fields replace, absent ones stay. */
  function Merge(d: UserDoc, p: Patch): (r: UserDoc)
    ensures p.username.Some? ==> r.username == p.username.value
    ensures p.username.None? ==> r.username == d.username
    ensures p.email.Some? ==> r.email == p.email.value
    ensures p.email.None? ==> r.email == d.email
    ensures p.password.Some? ==> r.password == p.password.value
    ensures p.password.None? ==> r.password == d.password
    ensures p == Patch(None, None, None) ==> r == d
  {
    UserDoc(
      if p.username.Some? then p.username.value else d.username,
      if p.email.Some? then p.email.value else d.email,
      if p.password.Some? then p.password.value else d.password)
  }

  /** The set of elements of a sequence. */
  function Elements<T>(s: seq<T>): set<T>
  {
    set x | x in s
  }

  /** Every stored user, serialised through `toJSON`. */
  function AllUserJson(users: Users): set<Value>
  {
    set id | id in users :: UserJson(id, users[id])
  }

  /** The User collection, with the unique indexes on `username` and `email` as its invariant. */
  class UserCollection {
    var users: Users

    ghost predicate Valid()
      reads this
    {
      Unique(users)
    }

    /** An empty collection. */
    constructor ()
      ensures Valid() && users == map[]
    {
      users := map[];
    }

    /**
     * `register`: a taken email gives 400 `Email already registered`; otherwise a new
     * document is saved (validators, then the hashing hook, then the unique indexes)
     * and the reply is 201 `User registered`. A save that fails (a missing field, a
     * taken username or id) is caught as 500. Only a 201 changes the collection, and
     * then by exactly one document holding the hash of the password.
     */
    method Register(username: string, email: string, password: string, b: Bcrypt, salt: Salt, newId: ObjectId, fault: bool)
      returns (res: Response)
      requires Valid() && LawfulBcrypt(b)
      modifies this
      ensures Valid() && HidesPassword(res.body)
      ensures fault ==> res == ServerError() && users == old(users)
      ensures !fault && EmailTaken(old(users), email) ==>
        res == ErrorReply(BAD_REQUEST, EMAIL_TAKEN) && users == old(users)
      ensures !fault && !EmailTaken(old(users), email) && !Insertable(old(users), newId, UserDoc(username, email, password)) ==>
        res == ServerError() && users == old(users)
      ensures !fault && !EmailTaken(old(users), email) && Insertable(old(users), newId, UserDoc(username, email, password)) ==>
        res == Response(CREATED, Obj(map["message" := Str(USER_REGISTERED)])) &&
        users == old(users)[newId := UserDoc(username, email, b.hash(password, SALT_ROUNDS, salt))]
      ensures res.status == CREATED ==>
        |users| == |old(users)| + 1 && newId in users && users[newId].password != password &&
        b.compare(password, users[newId].password)
    {
      if fault {
        return ServerError();
      }
      if exists id :: id in users && users[id].email == email {
        return ErrorReply(BAD_REQUEST, EMAIL_TAKEN);
      }
      var doc := new UserDocument(username, email, password);
      if !Required(doc.Snapshot()) {
        return ServerError();
      }
      doc.PreSave(b, salt);
      if newId in users || !FitsIndexes(users, newId, doc.Snapshot()) {
        return ServerError();
      }
      FitsIndexesKeepsUnique(users, newId, doc.Snapshot());
      users := users[newId := doc.Snapshot()];
      res := Response(CREATED, Obj(map["message" := Str(USER_REGISTERED)]));
    }

    /**
     * `login`: an unknown email and a wrong password get the same 401
     * `Invalid credentials`; matching credentials get 200 `{ token }` whose token is
     * signed for that user's id. Nothing is changed.
     */
    method Login(email: string, password: string, b: Bcrypt, j: Jwt, secret: Secret, now: Time, fault: bool)
      returns (res: Response)
      requires Valid() && LawfulBcrypt(b)
      ensures HidesPassword(res.body)
      ensures fault ==> res == ServerError()
      ensures !fault && !CredentialsMatch(b, users, email, password) ==>
        res == ErrorReply(UNAUTHORIZED, INVALID_CREDENTIALS)
      ensures !fault && CredentialsMatch(b, users, email, password) ==>
        exists id :: id in users && users[id].email == email && res == TokenReply(GenerateToken(j, secret, now, id))
    {
      if fault {
        return ServerError();
      }
      if !exists id :: id in users && users[id].email == email {
        return ErrorReply(UNAUTHORIZED, INVALID_CREDENTIALS);
      }
      var id :| id in users && users[id].email == email;
      if !ComparePassword(b, users[id], password) {
        return ErrorReply(UNAUTHORIZED, INVALID_CREDENTIALS);
      }
      res := TokenReply(GenerateToken(j, secret, now, id));
    }

    /**
     * `getUsers`: 404 `No users found` on an empty collection, otherwise 200 with
     * one serialised user per stored document, none of them with a password.
     */
    method GetUsers(fault: bool) returns (res: Response)
      ensures HidesPassword(res.body)
      ensures fault ==> res == ServerError()
      ensures !fault && |users| == 0 ==> res == ErrorReply(NOT_FOUND, NO_USERS)
      ensures !fault && |users| != 0 ==>
        res.status == OK && res.body.Arr? && |res.body.items| == |users| &&
        Elements(res.body.items) == AllUserJson(users)
    {
      if fault {
        return ServerError();
      }
      if |users| == 0 {
        return ErrorReply(NOT_FOUND, NO_USERS);
      }
      var items: seq<Value> := [];
      var remaining := users.Keys;
      while remaining != {}
        invariant remaining <= users.Keys
        invariant |items| + |remaining| == |users|
        invariant Elements(items) == set id | id in users.Keys - remaining :: UserJson(id, users[id])
        invariant forall i :: 0 <= i < |items| ==> items[i].Obj? && "password" !in items[i].fields
        decreases |remaining|
      {
        var id :| id in remaining;
        ghost var done := users.Keys - remaining;
        assert users.Keys - (remaining - {id}) == done + {id};
        assert Elements(items + [UserJson(id, users[id])]) == Elements(items) + {UserJson(id, users[id])};
        items := items + [UserJson(id, users[id])];
        remaining := remaining - {id};
      }
      res := Response(OK, Arr(items));
    }

    /**
     * `updateUser`: an id that does not cast is a 500, an absent one a 404 `User not
     * found`; a present one gets the body's fields merged in and the merged user is
     * returned, unless the merge breaks a unique index (500). The update bypasses the
     * save hook, so a new password is stored as given, not hashed. Every other
     * document is untouched.
     */
    method UpdateUser(rawId: string, patch: Patch, fault: bool) returns (res: Response)
      requires Valid()
      modifies this
      ensures Valid() && HidesPassword(res.body)
      ensures fault || CastObjectId(rawId).None? ==> res == ServerError() && users == old(users)
      ensures !fault && CastObjectId(rawId).Some? && CastObjectId(rawId).value !in old(users) ==>
        res == ErrorReply(NOT_FOUND, USER_NOT_FOUND) && users == old(users)
      ensures !fault && CastObjectId(rawId).Some? && CastObjectId(rawId).value in old(users) ==>
        var id := CastObjectId(rawId).value;
        var merged := Merge(old(users)[id], patch);
        if FitsIndexes(old(users), id, merged) then
          res == Response(OK, UserJson(id, merged)) && users == old(users)[id := merged]
        else
          res == ServerError() && users == old(users)
      ensures res.status == OK && patch.password.Some? ==>
        users[CastObjectId(rawId).value].password == patch.password.value
      ensures users.Keys == old(users).Keys
      ensures forall k :: k in old(users) && Some(k) != CastObjectId(rawId) ==> users[k] == old(users)[k]
    {
      if fault {
        return ServerError();
      }
      var cast := CastObjectId(rawId);
      if cast.None? {
        return ServerError();
      }
      var id := cast.value;
      if id !in users {
        return ErrorReply(NOT_FOUND, USER_NOT_FOUND);
      }
      var merged := Merge(users[id], patch);
      if !FitsIndexes(users, id, merged) {
        return ServerError();
      }
      FitsIndexesKeepsUnique(users, id, merged);
      users := users[id := merged];
      res := Response(OK, UserJson(id, merged));
    }

    /**
     * `updateUser` corrected: like `UpdateUser`, except that a new
     * password goes through the hashing the save hook would have applied.
     */
    method UpdateUserRehashing(rawId: string, patch: Patch, b: Bcrypt, salt: Salt, fault: bool) returns (res: Response)
      requires Valid() && LawfulBcrypt(b)
      modifies this
      ensures Valid() && HidesPassword(res.body)
      ensures fault || CastObjectId(rawId).None? ==> res == ServerError() && users == old(users)
      ensures !fault && CastObjectId(rawId).Some? && CastObjectId(rawId).value !in old(users) ==>
        res == ErrorReply(NOT_FOUND, USER_NOT_FOUND) && users == old(users)
      ensures !fault && CastObjectId(rawId).Some? && CastObjectId(rawId).value in old(users) ==>
        var id := CastObjectId(rawId).value;
        var merged := Merge(old(users)[id], Hashed(patch, b, salt));
        if FitsIndexes(old(users), id, merged) then
          res == Response(OK, UserJson(id, merged)) && users == old(users)[id := merged]
        else
          res == ServerError() && users == old(users)
      ensures res.status == OK && patch.password.Some? ==>
        var stored := users[CastObjectId(rawId).value].password;
        stored != patch.password.value && b.compare(patch.password.value, stored)
    {
      res := UpdateUser(rawId, Hashed(patch, b, salt), fault);
    }

    /**
     * `deleteUser`: an id that does not cast is a 500, an absent one a 404 `User not
     * found`; a present one is removed, and only it, with 200 `User deleted`.
     */
    method DeleteUser(rawId: string, fault: bool) returns (res: Response)
      requires Valid()
      modifies this
      ensures Valid() && HidesPassword(res.body)
      ensures fault || CastObjectId(rawId).None? ==> res == ServerError() && users == old(users)
      ensures !fault && CastObjectId(rawId).Some? && CastObjectId(rawId).value !in old(users) ==>
        res == ErrorReply(NOT_FOUND, USER_NOT_FOUND) && users == old(users)
      ensures !fault && CastObjectId(rawId).Some? && CastObjectId(rawId).value in old(users) ==>
        res == MessageReply(USER_DELETED) && users == old(users) - {CastObjectId(rawId).value} &&
        |users| == |old(users)| - 1
    {
      if fault {
        return ServerError();
      }
      var cast := CastObjectId(rawId);
      if cast.None? {
        return ServerError();
      }
      var id := cast.value;
      if id !in users {
        return ErrorReply(NOT_FOUND, USER_NOT_FOUND);
      }
      users := users - {id};
      res := MessageReply(USER_DELETED);
    }
  }

  /** The patch with its password, if any, replaced by the bcrypt hash the save hook would compute. */
  function Hashed(p: Patch, b: Bcrypt, salt: Salt): (q: Patch)
    requires LawfulBcrypt(b)
    ensures q.username == p.username && q.email == p.email && q.password.Some? == p.password.Some?
    ensures p.password.Some? ==> q.password.value != p.password.value && b.compare(p.password.value, q.password.value)
  {
    if p.password.Some? then p.(password := Some(HookedPassword(b, salt, p.password.value, true))) else p
  }
}

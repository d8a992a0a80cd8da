/**
 * The auth controller: `profile` (behind the authentication middleware),
 * `logout`, and `refreshToken`, which trades a valid token for a new one-hour
 * access token for the same subject.
 */
module AuthController {
  import opened Wrappers
  import opened Http
  import opened Crypto
  import opened UserModel

  const LOGGED_OUT: string := "Logged out successfully. Please discard token on client."
  const REFRESH_MISSING: string := "Refresh token missing"
  const REFRESH_INVALID: string := "Invalid refresh token"

  /** The reply of a found profile: exactly `{ id, username, email }`. */
  function ProfileJson(id: ObjectId, d: UserDoc): Value
  {
    Obj(map["id" := Str(id), "username" := Str(d.username), "email" := Str(d.email)])
  }

  /**
   * `profile`: look up `req.user?.id`. No `req.user` (`findById(undefined)`) and an
   * id with no document are a 404 `User not found`; an id that does not cast to an
   * ObjectId and a store failure are a 500; a found user is answered with its id,
   * username and email, never its password.
   */
  function Profile(users: Users, user: Option<Identity>, fault: bool): (res: Response)
    ensures HidesPassword(res.body)
    ensures res.status == OK ==>
      user.Some? && CastObjectId(user.value.id).Some? &&
      var id := CastObjectId(user.value.id).value;
      id in users && res.body == ProfileJson(id, users[id])
    ensures res.status == NOT_FOUND <==>
      !fault && (user.None? || (CastObjectId(user.value.id).Some? && CastObjectId(user.value.id).value !in users))
    ensures res.status == NOT_FOUND ==> res == ErrorReply(NOT_FOUND, USER_NOT_FOUND)
    ensures res.status != OK && res.status != NOT_FOUND ==> res == ServerError()
    ensures fault ==> res == ServerError()
    ensures !fault && user.Some? && CastObjectId(user.value.id).None? ==> res == ServerError()
    ensures !fault && user.Some? && CastObjectId(user.value.id).Some? && CastObjectId(user.value.id).value in users ==>
      res.status == OK
  {
    if fault then ServerError()
    else if user.None? then ErrorReply(NOT_FOUND, USER_NOT_FOUND)
    else
      match CastObjectId(user.value.id)
      case None => ServerError()
      case Some(id) =>
        if id !in users then ErrorReply(NOT_FOUND, USER_NOT_FOUND)
        else Response(OK, ProfileJson(id, users[id]))
  }

  /** The profile of a stored user, asked for by its own id, is that user's public data. */
  lemma ProfileOfStoredUser(users: Users, id: ObjectId)
    requires id in users
    ensures Profile(users, Some(Identity(id, "", "")), false) == Response(OK, ProfileJson(id, users[id]))
  {
  }

  /**
   * `logout`: always the same 200 message. Nothing is revoked: the reply depends
   * on nothing, and no state is passed in or out.
   */
  function Logout(): (res: Response)
    ensures res.status == OK && res.body == Obj(map["message" := Str(LOGGED_OUT)])
  {
    MessageReply(LOGGED_OUT)
  }

  /**
   * `refreshToken`: a falsy `req.body.refreshToken` (missing, null, false, 0, "")
   * is a 401 without calling `jwt.verify`; a token `jwt.verify` rejects (including
   * a value that is not a string) is a 403; a good one is answered with a new
   * one-hour access token signed now for the refresh token's subject. The user
   * collection is not an input: it is neither read nor written.
   */
  function RefreshToken(j: Jwt, secret: Secret, now: Time, body: map<string, Value>): (res: Response)
    ensures res.status == UNAUTHORIZED <==> !Truthy(Get(body, "refreshToken"))
    ensures res.status == UNAUTHORIZED ==> res == ErrorReply(UNAUTHORIZED, REFRESH_MISSING)
    ensures res.status == FORBIDDEN ==> res == ErrorReply(FORBIDDEN, REFRESH_INVALID)
    ensures res.status == OK <==>
      Get(body, "refreshToken").Str? && Get(body, "refreshToken").s != "" &&
      j.verify(Get(body, "refreshToken").s, secret, now).Some?
    ensures res.status == OK ==>
      var id := j.verify(Get(body, "refreshToken").s, secret, now).value;
      res.body == Obj(map["accessToken" := Str(j.sign(id, secret, now, ACCESS_TOKEN_TTL))])
    ensures res.status in {OK, UNAUTHORIZED, FORBIDDEN}
  {
    var token := Get(body, "refreshToken");
    if !Truthy(token) then ErrorReply(UNAUTHORIZED, REFRESH_MISSING)
    else if !token.Str? then ErrorReply(FORBIDDEN, REFRESH_INVALID)
    else
      match j.verify(token.s, secret, now)
      case None => ErrorReply(FORBIDDEN, REFRESH_INVALID)
      case Some(id) => Response(OK, Obj(map["accessToken" := Str(j.sign(id, secret, now, ACCESS_TOKEN_TTL))]))
  }

  /**
   * The subject survives a refresh: for the next hour the new access token
   * verifies to the same id the refresh token verified to, and after that to nothing.
   */
  lemma RefreshKeepsSubject(j: Jwt, secret: Secret, now: Time, body: map<string, Value>, later: Time)
    requires LawfulJwt(j) && RefreshToken(j, secret, now, body).status == OK
    ensures var access := RefreshToken(j, secret, now, body).body.fields["accessToken"].s;
      (later < now + ACCESS_TOKEN_TTL ==> j.verify(access, secret, later) == j.verify(Get(body, "refreshToken").s, secret, now)) &&
      (now + ACCESS_TOKEN_TTL <= later ==> j.verify(access, secret, later) == None)
  {
    var id := j.verify(Get(body, "refreshToken").s, secret, now).value;
    assert RefreshToken(j, secret, now, body).body.fields["accessToken"].s == j.sign(id, secret, now, ACCESS_TOKEN_TTL);
  }

  /**
   * Any live token signed with the secret is accepted as a refresh token, so the
   * one-hour token `login` issues can be refreshed again and again: tokens carry
   * no kind, and nothing tells an access token from a refresh token.
   */
  lemma AccessTokenRefreshes(j: Jwt, secret: Secret, id: string, iat: Time, now: Time)
    requires LawfulJwt(j) && now < iat + ACCESS_TOKEN_TTL
    ensures RefreshToken(j, secret, now, map["refreshToken" := Str(j.sign(id, secret, iat, ACCESS_TOKEN_TTL))]) ==
      Response(OK, Obj(map["accessToken" := Str(j.sign(id, secret, now, ACCESS_TOKEN_TTL))]))
  {
    var body := map["refreshToken" := Str(j.sign(id, secret, iat, ACCESS_TOKEN_TTL))];
    assert Get(body, "refreshToken") == Str(j.sign(id, secret, iat, ACCESS_TOKEN_TTL));
  }
}

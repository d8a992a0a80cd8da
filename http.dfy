/**
 * The request/response vocabulary shared by the middlewares and the controllers:
 * JSON values, truthiness, the response a handler sends, and the Express
 * request/response pair as a mutable object.
 */
module Http {
  import opened Wrappers

  /** A JSON value as it appears in a request or response body. */
  datatype Value =
    | Undefined                          // a property that is not there
    | Null
    | Bool(b: bool)
    | Num(n: int)
    | Str(s: string)
    | Obj(fields: map<string, Value>)
    | Arr(items: seq<Value>)

  /** JavaScript truthiness, the condition `if (!x)` inspects. */
  predicate Truthy(v: Value)
  {
    match v
    case Undefined | Null => false
    case Bool(b) => b
    case Num(n) => n != 0
    case Str(s) => s != ""
    case Obj(_) | Arr(_) => true
  }

  /** Property access `o[key]` on a JSON object. */
  function Get(o: map<string, Value>, key: string): Value
  {
    if key in o then o[key] else Undefined
  }

  /** The status and JSON body a handler sends (`res.status(s).json(b)`; `res.json(b)` is status 200). */
  datatype Response = Response(status: int, body: Value)

  const OK: int := 200
  const CREATED: int := 201
  const BAD_REQUEST: int := 400
  const UNAUTHORIZED: int := 401
  const FORBIDDEN: int := 403
  const NOT_FOUND: int := 404
  const SERVER_ERROR: int := 500

  /** `res.status(status).json({ error: message })` */
  function ErrorReply(status: int, message: string): Response
  {
    Response(status, Obj(map["error" := Str(message)]))
  }

  /** `res.json({ message: message })` */
  function MessageReply(message: string): Response
  {
    Response(OK, Obj(map["message" := Str(message)]))
  }

  /** The 404 message of `profile`, `updateUser` and `deleteUser`. */
  const USER_NOT_FOUND: string := "User not found"

  /** The reply of every `catch` block in the controllers. */
  function ServerError(): Response
  {
    ErrorReply(SERVER_ERROR, "Server error")
  }

  /** The identity the authentication middleware attaches as `req.user`. */
  datatype Identity = Identity(id: string, email: string, username: string)

  /** The parts of an Express request the core reads. */
  datatype Request = Request(authorization: Option<string>, body: map<string, Value>, params: map<string, Value>)

  /** What a middleware decides: answer the request itself, or hand it on with `next()`. */
  datatype Outcome = Reply(response: Response) | Next

  /** A reply never carries a `password` property: not at its top level, nor in any object of an array reply. */
  predicate HidesPassword(v: Value)
  {
    match v
    case Obj(f) => "password" !in f
    case Arr(items) => forall i :: 0 <= i < |items| ==> (items[i].Obj? ==> "password" !in items[i].fields)
    case _ => true
  }

  /**
   * One request travelling through a middleware chain: the request as received,
   * the `req.user` slot a middleware may fill, the response sent so far (if any)
   * and how many times `next()` has been called.
   */
  class Exchange {
    const request: Request
    var user: Option<Identity>
    var response: Option<Response>
    var nextCalls: nat

    constructor (request: Request)
      ensures this.request == request
      ensures user == None && response == None && nextCalls == 0
    {
      this.request := request;
      user := None;
      response := None;
      nextCalls := 0;
    }
  }
}

/**
 * `validate(schema, property)`: check one part of the request against a Joi
 * schema and answer 400 with the first error message, or hand the request on.
 */
module ValidateMiddleware {
  import opened Wrappers
  import opened Http

  /** A Joi validation error: its `details` messages, of which there is at least one. */
  datatype ValidationError = ValidationError(first: string, more: seq<string>)
  {
    function Messages(): (ms: seq<string>)
      ensures |ms| >= 1 && ms[0] == first
    {
      [first] + more
    }
  }

  /** `schema.validate(value).error`, for a schema this model does not look inside. */
  type Schema = map<string, Value> -> Option<ValidationError>

  /** The request part a validator looks at: `'body' | 'params'`. */
  datatype Property = Body | Params

  /** `req[property]` */
  function Part(req: Request, property: Property): map<string, Value>
  {
    match property
    case Body => req.body
    case Params => req.params
  }

  /**
   * The middleware `validate(schema, property)` returns: a schema error gives
   * `400 { error: details[0].message }` and `next()` is not called; no error gives
   * `next()` and no reply.
   */
  function Validate(schema: Schema, property: Property, req: Request): (o: Outcome)
    ensures o.Next? <==> schema(Part(req, property)).None?
    ensures o.Reply? ==>
      o.response.status == BAD_REQUEST &&
      o.response.body == Obj(map["error" := Str(schema(Part(req, property)).value.Messages()[0])])
  {
    match schema(Part(req, property))
    case Some(error) => Reply(ErrorReply(BAD_REQUEST, error.first))
    case None => Next
  }

  /**
   * Only `req[property]` is validated: two requests that agree on that part get
   * the same decision, whatever else they carry.
   */
  lemma ValidateReadsOnlyItsPart(schema: Schema, property: Property, r1: Request, r2: Request)
    requires Part(r1, property) == Part(r2, property)
    ensures Validate(schema, property, r1) == Validate(schema, property, r2)
  {
  }

  /**
   * A chain of validators, as a route lists them (`validate(userIdParam, 'params'),
   * validate(updateUserSchema, 'body')`): the first rejection answers, and the
   * request reaches the controller only if every validator accepts it.
   */
  function ValidateAll(chain: seq<(Schema, Property)>, req: Request): (o: Outcome)
    ensures o.Next? <==> forall i :: 0 <= i < |chain| ==> chain[i].0(Part(req, chain[i].1)).None?
    ensures o.Reply? ==>
      exists i :: 0 <= i < |chain| && o == Validate(chain[i].0, chain[i].1, req) &&
        (forall k :: 0 <= k < i ==> Validate(chain[k].0, chain[k].1, req).Next?)
  {
    if chain == [] then Next
    else
      match Validate(chain[0].0, chain[0].1, req)
      case Reply(r) => Reply(r)
      case Next =>
        var o := ValidateAll(chain[1..], req);
        assert forall i :: 1 <= i < |chain| ==> chain[i] == chain[1..][i - 1];
        o
  }
}

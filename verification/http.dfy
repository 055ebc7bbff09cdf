/** What a controller answers: a body with status 200 or 201, a refusal with
    a status and an error text, or a store error handed on to the error
    middleware (which is not part of this model). */
module Http {
  import opened Common
  import opened Schema

  /** The `error` text of a refusal: a fixed message, or the message of the
      store error that caused it. */
  datatype ErrorText = Message(text: string) | StoreText(cause: DbError)

  /** A controller's answer. */
  datatype Reply<T> =
    | Ok(body: T)
    | Created(body: T)
    | Refused(status: nat, error: ErrorText)
    | Unhandled(cause: DbError)

  /** The HTTP status of a reply; `None` when the error middleware decides. */
  function Status<T>(r: Reply<T>): (code: Option<nat>)
    ensures code.Some? <==> !r.Unhandled?
  {
    match r
    case Ok(_) => Some(200)
    case Created(_) => Some(201)
    case Refused(status, _) => Some(status)
    case Unhandled(_) => None
  }

  /** `401 { error: 'Unauthorized' }`, the answer without a signed-in user. */
  function Unauthorized<T>(): (r: Reply<T>)
    ensures Status(r) == Some(401)
  {
    Refused(401, Message("Unauthorized"))
  }

  /** A 400 answer with a fixed message. */
  function BadRequest<T>(message: string): (r: Reply<T>)
    ensures Status(r) == Some(400)
  {
    Refused(400, Message(message))
  }

  /** A 404 answer with a fixed message. */
  function NotFound<T>(message: string): (r: Reply<T>)
    ensures Status(r) == Some(404)
  {
    Refused(404, Message(message))
  }
}

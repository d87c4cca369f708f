/** Optional values and the error reply every endpoint of the model can return. */
module Wrappers {

  /** A value that may be missing: `undefined` in a request body, NULL in a row. */
  datatype Option<+T> = None | Some(value: T)

  /** An HTTP error reply: the status code and the `error` text of its JSON
      body. The text is `None` where the message lives in code that is not
      part of this model (the role gate of the authentication middleware). */
  datatype Failure = Failure(status: nat, message: Option<string>)

  /** The outcome of an endpoint: a value, or an error reply. */
  datatype Result<+T> = Ok(value: T) | Err(failure: Failure)

  /** The outcome of a check that produces no value (a validation middleware). */
  datatype Outcome = Pass | Fail(failure: Failure)

  function BadRequest(message: string): Failure { Failure(400, Some(message)) }

  function NotFound(message: string): Failure { Failure(404, Some(message)) }

  function Forbidden(message: string): Failure { Failure(403, Some(message)) }

  /** A 500 reply: an exception thrown inside the handler and caught by its `catch`. */
  function Internal(message: string): Failure { Failure(500, Some(message)) }

  /** The reply of `requireRole` when the actor's role is not in its list. */
  const RoleDenied: Failure := Failure(403, None)
}

/**
 * The failures the service raises, as values: IllegalArgumentException
 * becomes InvalidArgument(message) and TaskNotFoundException becomes
 * NotFound(id).
 */
module Errors {
  import Text

  datatype Failure = InvalidArgument(message: string) | NotFound(id: int)

  datatype Result<+T> = Ok(value: T) | Err(failure: Failure)

  /** The result of an operation that returns nothing on success. */
  datatype Outcome = Pass | Fail(failure: Failure)

  const NotFoundPrefix := "Task not found with id: "

  /** The exception message a failure carries. */
  function Message(f: Failure): (m: string)
    ensures f.InvalidArgument? ==> m == f.message
    ensures f.NotFound? ==> |NotFoundPrefix| < |m| && m[..|NotFoundPrefix|] == NotFoundPrefix
  {
    match f
    case InvalidArgument(msg) => msg
    case NotFound(id) => NotFoundPrefix + Text.Decimal(id)
  }

  /** The not-found message names the id: two ids give the same message only if they are equal. */
  lemma NotFoundMessageNamesId(a: int, b: int)
    requires Message(NotFound(a)) == Message(NotFound(b))
    ensures a == b
  {
    var n := |NotFoundPrefix|;
    assert Text.Decimal(a) == Message(NotFound(a))[n..];
    assert Text.Decimal(b) == Message(NotFound(b))[n..];
    Text.DecimalInjective(a, b);
  }
}

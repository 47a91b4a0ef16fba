/** Failure-carrying datatypes shared by the whole model.

    - `Option<T>` stands for a Java reference that may be `null`.
    - `Outcome<T>` is the result of a call into code outside the model
      (the Hadoop client, JDBC, a parser): it either returns a value or
      throws an exception carrying a message.
 */
module Wrappers {

  datatype Option<+T> = None | Some(value: T) {

    /** The value, or `default` when absent. */
    function GetOr(default: T): T
    {
      match this
      case Some(v) => v
      case None => default
    }
  }

  /** What a foreign call did: returned `v`, or threw an exception with message `msg`. */
  datatype Outcome<+T> = Ok(v: T) | Exn(msg: string) {

    predicate Threw() { Exn? }
  }

  /** `Some(v)` when the call returned, `None` when it threw. */
  function Returned<T>(o: Outcome<T>): (r: Option<T>)
    ensures r.Some? <==> o.Ok?
    ensures o.Ok? ==> r.value == o.v
  {
    match o
    case Ok(v) => Some(v)
    case Exn(_) => None
  }
}

/** Failure values for the exceptions the modelled Python code raises.

    Every operation that can raise in the source returns a `Result`; the
    `Error` names the exception so that the order in which the source
    evaluates its failing steps stays visible in the model.
 */
module Results {

  /** The Python exception a step raises. */
  datatype Error =
    | IndexError     // a list or string index out of range, `min` of an empty list
    | KeyError       // a dict lookup of a missing key, a missing attribute in `__dict__`
    | ValueError     // `int`, `float` or `list.index` given text it does not accept
    | TypeError      // an operation applied to a list where the source expects text
    | AttributeError // a string method such as `split` called on a list
    | OverflowError  // datetime arithmetic leaving the years 1..9999

  /** Either the value the source returns or the exception it raises. */
  datatype Result<+T> = Ok(value: T) | Fail(error: Error) {

    predicate IsFailure() {
      Fail?
    }

    function PropagateFailure<U>(): Result<U>
      requires Fail?
    {
      Fail(error)
    }

    function Extract(): T
      requires Ok?
    {
      value
    }
  }

  /** A value that may be absent (a dict lookup that does not raise). */
  datatype Option<+T> = None | Some(value: T)
}

/** The two failure-carrying shapes of the model. */
module Outcomes {

  /** A value that may be absent: JavaScript's `null` / `undefined`. */
  datatype Option<+T> = None | Some(value: T)

  /** The outcome of a JavaScript call that either returns `value` or throws an
      `Error` whose `message` is `error`. */
  datatype Result<+T> = Success(value: T) | Failure(error: string)

  /** A catch block that rethrows the caught error's message behind a
      fixed prefix. */
  function WrapFailure<T>(r: Result<T>, prefix: string): (w: Result<T>)
    ensures w.Success? <==> r.Success?
    ensures r.Success? ==> w.value == r.value
    ensures r.Failure? ==> w.error == prefix + r.error
  {
    match r
    case Success(v) => Success(v)
    case Failure(m) => Failure(prefix + m)
  }
}

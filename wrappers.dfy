/** Failure-carrying result types shared by the whole model. A Go `panic` or a
    returned `error` is an `Err` carrying the message. */
module Wrappers {

  datatype Option<+T> = None | Some(value: T)

  datatype Result<+T> = Ok(value: T) | Err(msg: string) {
    predicate IsFailure() { Err? }
  }
}

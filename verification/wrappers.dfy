/** Option and Result datatypes used for optional limits and fatal errors. */
module Wrappers {

  /** An optional value: the byte limit of the `-r`/`-t` modes is absent in plain mode. */
  datatype Option<+T> = None | Some(value: T)

  /** Either a successful answer or the failure that aborted the computation. */
  datatype Result<+R, +E> = Success(value: R) | Failure(error: E)
}

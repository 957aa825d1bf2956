/** Optional values and success-or-error results shared by the model. A field
    that does not parse, where the program's `.expect` panics, is modelled as a
    `Failure` value carrying that field; the `.expect`s on I/O are not part of
    the model. */
module Wrappers {

  /** A value that may be absent. */
  datatype Option<+T> = None | Some(value: T)

  /** Either a computed value or the reason it could not be computed. */
  datatype Result<+R, +E> = Success(value: R) | Failure(error: E)
}

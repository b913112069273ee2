/** Small failure-carrying datatypes shared by the model. */
module Results {

  /** A present value or JavaScript's `undefined`. */
  datatype Option<+T> = None | Some(value: T)

  /** The outcome of a call that either returns a value or throws an error
      carrying a message. */
  datatype Result<+T> = Success(value: T) | Failure(message: string)
}

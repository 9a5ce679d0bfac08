/** Option and Result, the two failure-carrying wrappers the model uses for
    JavaScript's `undefined` and for thrown errors. */
module Wrappers {

  datatype Option<+T> = None | Some(value: T)

  /** `Err` carries the text a thrown JavaScript `Error` would have as its
      `message` (or, where the source returns an error string, that string). */
  datatype Result<+T> = Ok(value: T) | Err(msg: string)
}

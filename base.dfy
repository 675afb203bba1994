/** Values shared by every part of the model: bytes, optional values and the
    failures the tool reports. */
module Base {

  /** One byte of a WebAssembly binary or of a manifest. */
  type Byte = b: int | 0 <= b < 256

  datatype Option<+T> = None | Some(value: T)

  /** Why an operation of the tool stops without a result. */
  datatype Error =
    | Malformed  // the section stream cannot be walked (an error of the section parser)
    | NotFound   // "no manifest section found"
    | TooLarge   // a section size does not fit the u32 the encoder writes (a panic in the tool)

  /** The outcome of a fallible operation; `:-` propagates the failure like Rust's `?`. */
  datatype Result<+T> = Ok(value: T) | Err(error: Error) {

    predicate IsFailure() {
      Err?
    }

    function PropagateFailure<U>(): Result<U>
      requires Err?
    {
      Err(error)
    }

    function Extract(): T
      requires Ok?
    {
      value
    }
  }
}

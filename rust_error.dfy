/** The error enum of src/error.rs and the `Result` the Rust codec returns. */
module RustError {

  datatype Error =
    | Message(text: string)
    | ValueTruncated
    | LengthRequired
    | TypeUnknown
    | IntegerOverflow
    | InvalidUtf8
    | IdentifierUnknown

  datatype Result<T> = Ok(value: T) | Err(error: Error)
}

/** Results of a conversion: a value, or the single error that aborted it. */
module Outcome {

  /** The kind of node a decoder required and did not find. */
  datatype Expected = Integer | Boolean | Text | JsonObject

  /** Why a decode failed. The engine throws a runtime_error naming the
      required kind; jsoncpp's numeric accessors throw when the number does
      not fit the accessor's range. The message text is not modelled. */
  datatype Error =
    | TypeMismatch(expected: Expected)
    | OutOfRange

  datatype Result<+T> = Ok(value: T) | Err(error: Error)

  datatype Option<+T> = None | Some(value: T)
}

/** Failure-carrying values shared by the model builder and the decoder. */
module Results {

  datatype Option<+T> = None | Some(value: T)

  /** The exceptions the Python code can raise on the paths that are modelled. */
  datatype Error =
    | ZeroDivision      // float division by a zero smoothing denominator
    | NotInList         // `list.index` of a missing element
    | KeyNotFound       // dict lookup of a missing key
    | IndexOutOfRange   // sequence or array index past the end
    | MathDomain        // `math.log` of a non-positive number
    | NoneStored        // storing `None` into an integer array
    | UnboundLocal      // reading a loop variable whose loop never ran

  datatype Result<+T> = Success(value: T) | Failure(error: Error)
}

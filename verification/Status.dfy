/** The result codes of the library and its utilities, and results that may carry one. */
module Status {

  datatype Status = Ok | InvalidParameter | OutOfRange | NoDmadata | DecompressionError | IoError

  datatype Result<+T> = Success(value: T) | Failure(error: Status)

  datatype Option<+T> = None | Some(value: T)
}

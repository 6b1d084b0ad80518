/** Error kinds and the optional/fallible wrappers shared by every module. */
module Errors {

  /** The error kinds of the judge's error payloads that the modelled handlers can produce.
      Data-store failures (the `EXTERNAL` kind) are infrastructure faults and are not modelled. */
  datatype ErrorKind = NotFound | InvalidArgument | RateLimit

  /** A value that may be absent (an omitted JSON field or query parameter, a failed parse). */
  datatype Option<+T> = None | Some(value: T)

  /** The outcome of a handler: a value, or the kind of the error response. */
  datatype Result<+T> = Ok(value: T) | Err(kind: ErrorKind)
}

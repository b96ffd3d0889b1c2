/** Option and Result, and the error kinds the credential-offer core reports. */
module Wrappers {

  datatype Option<+T> = None | Some(value: T)

  /** `Option::unwrap_or(default)`. */
  function UnwrapOr<T>(o: Option<T>, default: T): T
  {
    match o
    case Some(v) => v
    case None => default
  }

  /** The kinds of failure the core can surface to its caller. */
  datatype ErrorKind =
    | InvalidJson       // the attachment content is not JSON text
    | ValidationError   // a preview attribute was refused by the preview's validation
    | EncodingError     // the JSON attachment could not be built under its transfer encoding
    | AttachmentError   // the attachment content could not be extracted

  datatype Result<+T> = Ok(value: T) | Err(error: ErrorKind)
}

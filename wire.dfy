/** Octets, and the outcome of parsing or serializing a frame. */
module Wire {

  /** One octet of a frame. */
  type byte = b: int | 0 <= b < 0x100

  type bytes = seq<byte>

  datatype Option<+T> = None | Some(value: T)

  /** Why a frame could not be parsed, or a record could not be serialized. */
  datatype Error =
    | Truncated                           // the frame ends inside a length prefix or a field
    | HeaderTooLong                       // a header name or value longer than 65535 bytes
    | MissingHeader(name: string)         // an expected header is absent (explicit mode)
    | InvalidUtf8(name: string)           // a text header is not well-formed UTF-8
    | ValueTooLong(name: string, limit: nat)  // a header value is over its byte ceiling
    | UnknownMessageType(code: byte)      // the type byte names no message of this direction

  datatype Result<+T> = Ok(value: T) | Err(error: Error) {

    predicate IsFailure() {
      Err?
    }

    function PropagateFailure<U>(): Result<U>
      requires Err?
    {
      Err(error)
    }

    function Extract(): T
      requires Ok?
    {
      value
    }
  }
}

// Machine integers, optional values, results and I/O errors shared by the
// transport layer's modules.
module Io {

  /** An unsigned 8-bit value. */
  type byte = x: int | 0 <= x < 0x100

  /** An unsigned 16-bit value (a TCP port). */
  type u16 = x: int | 0 <= x < 0x1_0000

  /** An unsigned 32-bit value. */
  type u32 = x: int | 0 <= x < 0x1_0000_0000

  const U32_MODULUS: nat := 0x1_0000_0000

  datatype Option<+T> = None | Some(value: T)

  datatype Result<+T, +E> = Ok(value: T) | Err(error: E)

  /** The kinds of operating-system I/O failure the transport layer meets. */
  datatype ErrorKind =
    | NotFound
    | PermissionDenied
    | ConnectionRefused
    | ConnectionReset
    | BrokenPipe
    | TimedOut
    | UnexpectedEof
    | Other

  datatype IoError = IoError(kind: ErrorKind, message: string)

  /** How a byte stream behaves once the bytes it delivers run out: a clean
      end of stream, or an operating-system read error (a reset connection,
      say). Any read failure is one of these after some prefix of bytes. */
  datatype StreamEnd = Closed | Failed(error: IoError)

  /** The error `Read::read_exact` reports when the stream runs out before
      the buffer is full. */
  function ReadExactFailure(end: StreamEnd): (e: IoError)
    ensures end.Closed? ==> e.kind == UnexpectedEof
    ensures end.Failed? ==> e == end.error
  {
    match end
    case Closed => IoError(UnexpectedEof, "failed to fill whole buffer")
    case Failed(e) => e
  }
}

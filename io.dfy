/** The host environment's I/O vocabulary as the length limiter sees it: bytes,
    I/O errors with a kind and a boxed cause, the result of one read, and the
    ready-or-pending outcome of one poll. */
module Io {

  newtype byte = x: int | 0 <= x < 256

  /** Largest value of a 64-bit `usize`. */
  const UsizeMax: nat := 0xFFFF_FFFF_FFFF_FFFF

  datatype Option<T> = None | Some(value: T)

  function Min(a: nat, b: nat): (m: nat)
    ensures m <= a && m <= b && (m == a || m == b)
  {
    if a < b then a else b
  }

  /** A selection of the host's I/O error kinds; only `InvalidData` is
      produced by the limiter itself. */
  datatype ErrorKind =
    | NotFound
    | PermissionDenied
    | ConnectionReset
    | BrokenPipe
    | InvalidData
    | UnexpectedEof
    | Interrupted
    | Other

  /** The unit error of the limiter: it carries no information beyond its
      identity. */
  datatype LengthLimitExceeded = LengthLimitExceeded

  /** The boxed cause an I/O error carries: the limiter's marker, or an
      opaque error raised by some source, told apart by a code. */
  datatype Cause = LimitReached(marker: LengthLimitExceeded) | SourceCause(code: nat)

  datatype IoError = IoError(kind: ErrorKind, cause: Cause)

  /** Looks inside an I/O error for the limiter's marker, as a caller does by
      downcasting the boxed cause. */
  function DowncastLimit(e: IoError): (m: Option<LengthLimitExceeded>)
    ensures m.Some? <==> e.cause.LimitReached?
  {
    match e.cause
    case LimitReached(marker) => Some(marker)
    case SourceCause(_) => None
  }

  /** The value of one read: a byte count, or an I/O error. */
  datatype IoResult = Ok(n: nat) | Err(error: IoError)

  /** The outcome of polling a read once. */
  datatype Poll = Pending | Ready(result: IoResult)
}

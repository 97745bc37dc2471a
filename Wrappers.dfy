/** Failure-carrying results shared by every layer of the virtual filesystem. */
module Wrappers {

  datatype Option<+T> = None | Some(value: T)

  /** The exceptions the Kotlin code throws, one constructor per distinct cause. */
  datatype Error =
    // storage engine and codec
    | EndOfFile            // short read from the host channel
    | SignatureMismatch    // block kind signature differs from the expected one
    | ChecksumMismatch     // CRC of the body differs from the stored checksum
    | Corrupted            // a declared length field exceeds the remaining body
    | NameTooLong          // encoded file name does not fit the body
    | DataTooLarge         // payload does not fit the body
    | BufferUnderflow      // java.nio.BufferUnderflowException: body too short to parse
    | BufferOverflow       // java.nio.BufferOverflowException: body too short to render
    | IllegalArgument      // ByteBuffer.limit with a negative limit
    | NegativeArraySize    // ByteArray of a negative size
    // in-memory block store
    | IndexOutOfBounds     // slot reference beyond the ArrayList
    | NullBlock            // the slot holds no block
    | ClassCast            // the slot holds a block of another kind
    // backend
    | InvariantViolation   // exactly one of firstDataBlock / lastDataBlock is 0
    // frontend and channel
    | AlreadyExists
    | NotFound
    | InUse
    | NonWritable
    | ClosedChannel

  datatype Result<+T> = Ok(value: T) | Err(error: Error)

  datatype Outcome = Pass | Fail(error: Error)
}

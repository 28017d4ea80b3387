/** Exceptions raised on the accessor's paths, and absent values, as values. */
module Faults {

  /** The exceptions the accessor and the file it reads can raise. */
  datatype Fault =
    | InvalidLocation   // IOException("Invalid location: ...") raised by readRecord itself
    | NegativeSeek      // IOException from RandomAccessFile.seek with a negative position
    | EndOfFile         // EOFException: fewer bytes remain in the file than a read needs
    | IndexOutOfBounds  // unchecked exception from RandomAccessFile.write with a negative length

  /** A value that may be absent, as a Java reference that may be null. */
  datatype Option<+T> = None | Some(value: T)

  /** The outcome of a call that may throw. */
  datatype Result<+T> = Ok(value: T) | Err(fault: Fault)
}

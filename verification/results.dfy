/** Error kinds the document object can raise, and the value-or-error wrappers
    that stand in for .NET exceptions throughout the model. */
module Results {

  /** The exceptions that NbtFile lets escape, one constructor per kind. */
  datatype Error =
    | NotFound(fileName: string)  // FileNotFoundException raised by LoadFile(string, bool)
    | InvalidData                 // InvalidDataException: the stream does not start with TAG_Compound
    | FormatError                 // NbtCompound.ReadTag rejected the bytes after the type byte
    | DecompressionError          // the LZ4 decompressor rejected the file
    | InvalidArgument             // ArgumentException from a Stream.Read whose range exceeds its buffer
    | NullReference               // a member was called on a null RootTag

  datatype Option<+T> = None | Some(value: T)

  datatype Result<+T> = Ok(value: T) | Err(error: Error)

  /** The result of a `void` member: it returned normally or threw. */
  datatype Outcome = Pass | Fail(error: Error)

  /** Forgets the value of a result, keeping only whether (and how) it failed. */
  function StatusOf<T>(r: Result<T>): (o: Outcome)
  {
    match r
    case Ok(_) => Pass
    case Err(e) => Fail(e)
  }
}

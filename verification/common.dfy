/** Types shared by every part of the model: bytes, local paths, the
    exceptions the Kotlin code raises or lets through, and the Option and
    Result wrappers that carry them. */
module Common {

  /** A JVM byte, read as an unsigned value. */
  newtype byte = x: int | 0 <= x < 256

  /** A local path as its list of name components from the file-system root. */
  type Path = seq<string>

  datatype Option<+T> = None | Some(value: T)

  /** The exception kinds the modelled code can end with. */
  datatype Exception =
    | IllegalArgument(message: string)       // require(...) and parse errors
    | IllegalState(message: string)          // check(...)
    | NullPointer                            // a missing metadata value used as a String
    | IndexOutOfBounds(index: nat)           // split[i] on a line with too few fields
    | UnsupportedOperation(command: string)  // an unknown batch verb
    | NoSuchFile(path: Path)                 // java.nio.file.NoSuchFileException
    | FileNotFound(path: Path)               // java.io.FileNotFoundException
    | AwsService(key: string)                // the store answered with an error response
    | SdkClient                              // the store could not be reached
    | AwsCrypto                              // the encryption SDK refused the message

  datatype Result<+T> = Success(value: T) | Failure(error: Exception) {
    predicate IsFailure() { Failure? }

    function PropagateFailure<U>(): Result<U>
      requires Failure?
    {
      Failure(error)
    }

    function Extract(): T
      requires Success?
    {
      value
    }
  }

  /** Value of `key` in a metadata map, `None` where the JVM code sees null. */
  function MetadataOf(m: map<string, string>, key: string): (r: Option<string>)
    ensures r.Some? <==> key in m
    ensures r.Some? ==> r.value == m[key]
  {
    if key in m then Some(m[key]) else None
  }
}

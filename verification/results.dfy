/** The outcomes of the store's operations: a value, or the exception the Java code raises. */
module Results {

  datatype Option<T> = None | Some(value: T)

  /** The exceptions of the store, by kind. */
  datatype Error =
    | AlreadyPresent    // IllegalStateException from the duplicate guard of create
    | DoesNotExist      // IllegalStateException from the existence guard of view and delete
    | FileNotFound      // java.io.FileNotFoundException
    | IOFailure         // any other java.io.IOException raised by the filesystem
    | NotADirectory     // IllegalArgumentException: the pruning walk or listFiles was given a path that is not a directory
    | NullPointer       // NullPointerException: the pruning walk went past the top of the tree
    | IndexOutOfBounds  // StringIndexOutOfBoundsException from substring(1) on an empty string

  datatype Result<T> = Ok(value: T) | Err(error: Error)
}

/** The Java exceptions thrown by the list and the cache, as values. */
module Exceptions {

  /** The unchecked exceptions the core throws. */
  datatype Exception =
    | NoSuchElement           // java.util.NoSuchElementException
    | IndexOutOfBounds        // java.lang.IndexOutOfBoundsException
    | IllegalState            // java.lang.IllegalStateException
    | ConcurrentModification  // java.util.ConcurrentModificationException

  /** The outcome of a Java method that returns a value or throws. */
  datatype Result<T> = Ok(value: T) | Err(ex: Exception)

  /** The outcome of a `void` Java method that returns normally or throws. */
  datatype Outcome = Done | Failed(ex: Exception)

  datatype Option<T> = None | Some(value: T)
}

/** Option and Result types for the model, and the Java exceptions the
    modelled code can raise (each one becomes an error value instead of
    a throw). */
module Wrappers {

  /** A value that may be Java's `null`. */
  datatype Option<+T> = None | Some(value: T) {
    predicate IsFailure() { None? }

    function PropagateFailure<U>(): Option<U>
      requires None?
    {
      None
    }

    function Extract(): T
      requires Some?
    {
      value
    }
  }

  /** The exception classes raised along the modelled paths. */
  datatype Exception =
    | IllegalArgument         // IllegalArgumentException
    | IllegalState            // IllegalStateException (also reading a missing cursor column)
    | NullPointer             // NullPointerException (unboxing or dereferencing null)
    | NumberFormat            // NumberFormatException from Long.parseLong
    | SqlFailure              // android.database.SQLException
    | InvalidClassDefinition  // InvalidClassDefinitionException (missing accessor)
    | ClassCast               // ClassCastException (getter of the wrong type)
    | IndexOutOfBounds        // List.get past the end (a URI without segments)
    | StorageModification     // StorageModificationException

  /** Either a value or the exception that ended the computation. */
  datatype Result<+T> = Ok(value: T) | Err(error: Exception) {
    predicate IsFailure() { Err? }

    function PropagateFailure<U>(): Result<U>
      requires Err?
    {
      Err(error)
    }

    function Extract(): T
      requires Ok?
    {
      value
    }
  }
}

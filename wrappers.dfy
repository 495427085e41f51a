/** Exceptions raised by the modelled code, and the Option/Result/Outcome
    values that stand for them (an exception that propagates out of an
    operation becomes an Err or Failed result that leaves the state as the
    exception leaves it). */
module Wrappers {

  /** The .NET exceptions the core can raise, by name. */
  datatype Error =
    | ArgumentOutOfRange   // a List<T> index outside the list
    | IndexOutOfRange      // an array index outside the string[] returned by Split
    | InvalidOperation     // Min, Max or Average of an empty sequence
    | Format               // float.Parse on text it does not accept
    | InvalidCast          // an unboxing cast to the wrong type
    | NullReference        // unboxing null to a value type
    | Argument             // Dictionary.Add with a key already present
    | KeyNotFound          // a Dictionary indexer read of an absent key

  datatype Option<+T> = None | Some(value: T)

  datatype Result<+T> = Ok(value: T) | Err(error: Error)

  /** The result of an operation that returns nothing (void in the source). */
  datatype Outcome = Done | Failed(error: Error)
}

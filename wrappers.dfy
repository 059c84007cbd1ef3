/** Failure-carrying results for the exceptions that the modelled Kotlin code raises. */
module Wrappers {

  datatype Option<+T> = None | Some(value: T)

  /** The JVM exceptions that can escape from the modelled operations. */
  datatype Failure =
    | NullPointer      // `!!` applied to null
    | NoSuchElement    // `first()` on an empty collection
    | IllegalArgument  // a `require` inside the Kotlin standard library fails

  /** Either the value an operation returns or the exception it throws. */
  datatype Outcome<+T> = Ok(value: T) | Fail(failure: Failure)
}

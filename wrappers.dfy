/** Optional values, and the exceptions the observable containers raise or let through. */
module Wrappers {

  /** A value that may be missing; `None` stands for Java's `null`. */
  datatype Option<+T> = None | Some(value: T)

  /** The Java exceptions of the modelled code. */
  datatype Failure =
    | NullPointer              // a null argument rejected by a precondition check
    | UnsupportedOperation     // a mutation that a derived view of a map refuses
    | NoSuchElement            // next() on an exhausted iterator
    | IllegalState             // an iterator's remove() with no next() since the last remove()
    | ConcurrentModification   // an iterator used after its container changed by other means
    | PropertyVeto             // a vetoable-change listener refusing a property change

  /** The outcome of a call that returns a value or throws. */
  datatype Result<+T> = Ok(value: T) | Err(error: Failure)

  /** The outcome of a call that returns nothing or throws. */
  datatype Outcome = Pass | Fail(error: Failure)
}

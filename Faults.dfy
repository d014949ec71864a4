/** The exceptions the semaphore revisions throw, and the shapes of their
    results. */
module Faults {

  /** The .NET exception raised by a call. */
  datatype Fault =
    | ArgumentOutOfRange  // System.ArgumentOutOfRangeException
    | InvalidOperation    // System.InvalidOperationException
    | Argument            // System.ArgumentException
    | ActionFailed        // whatever the caller's action threw, propagated

  /** A value, or the exception thrown instead. */
  datatype Result<+T> = Ok(value: T) | Err(fault: Fault)

  /** A call that returns nothing, or the exception thrown instead. */
  datatype Outcome = Pass | Fail(fault: Fault)

  /** How a call that polls for admission ends: it returned (a void call
      returns `()`), it threw, or, `StillWaiting`, it has not returned after
      the polls the model was given, with the entry still queued and the
      source still polling. */
  datatype Completion<+T> = Returned(value: T) | Threw(fault: Fault) | StillWaiting
}

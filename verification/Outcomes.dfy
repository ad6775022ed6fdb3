/** How a call into the kernel's Rust code can end. */
module Outcomes {

  /** `Done` is a normal return, `Rejected` is the source's `Err(())`, and `Panicked` is a failed
      assertion, an index out of range or a checked arithmetic overflow. */
  datatype Outcome<+T> = Done(value: T) | Rejected | Panicked {

    predicate IsFailure() {
      !Done?
    }

    function PropagateFailure<U>(): Outcome<U>
      requires IsFailure()
    {
      if Rejected? then Rejected else Panicked
    }

    function Extract(): T
      requires Done?
    {
      value
    }
  }

  datatype Option<+T> = None | Some(value: T)
}

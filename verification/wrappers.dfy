/** Failure-compatible helper types shared by the puzzle models. */
module Wrappers {

  /** A value that may be absent: `None` models a missing map key, a failed
      parse, or a Rust `panic!` on the path that produced it. */
  datatype Option<+T> = None | Some(value: T) {

    predicate IsFailure() {
      None?
    }

    function PropagateFailure<U>(): Option<U>
      requires None?
    {
      None
    }

    function Extract(): T
      requires Some?
    {
      value
    }
  }
}

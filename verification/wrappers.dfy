/** The optional-value type shared by the other modules. Python's `None` is
    modelled as `None`, any other value `v` as `Some(v)`. */
module Wrappers {

  /** The three members below are what `:-` asks of a type: a test for the
      failing case, a way to pass that case on, and the value otherwise. */
  datatype Option<+T> = None | Some(value: T) {

    /** A missing value is the failing case. */
    predicate IsFailure() {
      None?
    }

    /** A missing value stays missing whatever type it is expected at. */
    function PropagateFailure<U>(): Option<U>
      requires None?
    {
      None
    }

    /** The value of a present option. */
    function Extract(): T
      requires Some?
    {
      value
    }
  }
}

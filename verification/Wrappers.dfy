/** Result types shared by the modules. */
module Wrappers {

  /** None stands for a failed `Expects`, which terminates the program. */
  datatype Option<+T> = None | Some(value: T) {
    predicate IsFailure() { None? }

    function PropagateFailure<U>(): Option<U>
      requires None?
    {
      None
    }

    function Extract(): T
      requires Some?
    {
      value
    }
  }
}

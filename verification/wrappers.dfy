/** The Option type used for values a Win32 or C++ call may fail to produce. */
module Wrappers {

  /** `None` stands for a NULL return or a thrown std::out_of_range. */
  datatype Option<+T> = None | Some(value: T) {

    predicate IsFailure() {
      None?
    }

    function PropagateFailure<U>(): Option<U>
      requires None?
    {
      None
    }

    function Extract(): T
      requires Some?
    {
      value
    }
  }
}

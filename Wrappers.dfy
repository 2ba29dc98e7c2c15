/** Option, used with `:-` for every step of the analysis that can abort. */
module Wrappers {

  /** `None` is an aborted step: the analyser catches every exception at the top
      level and reports a single error line, so the kind of error is not kept. */
  datatype Option<+T> = None | Some(value: T) {

    predicate IsFailure() {
      None?
    }

    function PropagateFailure<U>(): Option<U>
      requires None?
    {
      None
    }

    function Extract(): T
      requires Some?
    {
      value
    }
  }
}

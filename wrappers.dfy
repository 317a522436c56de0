/** Optional values and the success-or-failure outcome of a merge step. */
module Wrappers {

  datatype Option<+T> = None | Some(value: T)

  /**
   * `Fail` stands for the unchecked exception (an index out of bounds on a
   * jsoup child list) that aborts the whole run.
   */
  datatype Result<+T> = Ok(value: T) | Fail {

    predicate IsFailure() {
      Fail?
    }

    function PropagateFailure<U>(): Result<U>
      requires Fail?
    {
      Fail
    }

    function Extract(): T
      requires Ok?
    {
      value
    }
  }
}

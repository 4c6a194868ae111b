/** Optional values and the one failure the formatter can raise. */
module Outcomes {

  /** A value that may be absent, as JavaScript's `undefined` when a string is indexed out of range. */
  datatype Option<+T> = None | Some(value: T)

  /** The only way the formatter fails: the descendant locator steps into a container
      whose `children` array is empty, reads `undefined` and throws a TypeError on the next step. */
  datatype Error = EmptyContainer

  /** Either a result or the error that aborted the traversal; usable with `:-`. */
  datatype Outcome<+T> = Ok(value: T) | Fail(error: Error) {

    predicate IsFailure() {
      Fail?
    }

    function PropagateFailure<U>(): Outcome<U>
      requires Fail?
    {
      Fail(error)
    }

    function Extract(): T
      requires Ok?
    {
      value
    }
  }
}

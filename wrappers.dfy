/** Option and Outcome: the absent value and the thrown exception of the visitor. */
module Wrappers {

  /** An optional value: `None` stands for PHP's unset property or failed cast. */
  datatype Option<+T> = None | Some(value: T)

  /** The result of a hook that returns nothing useful: it either completes
      (`Pass`, PHP's `return null`) or throws `error`. */
  datatype Outcome<+E> = Pass | Fail(error: E)
}

/** Option type standing for JavaScript's `null`-or-value and Python's
    `None`-or-value results. */
module Wrappers {

  datatype Option<+T> = None | Some(value: T)
}

/** An optional value: the `null`-or-value fields of the component and the outcome of
    reading a pattern. */
module Wrappers {

  datatype Option<T> = None | Some(value: T)
}

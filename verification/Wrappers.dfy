/** A value or none: what the source writes as `null` or `undefined`, and the throws a caller only sees as no answer. */
module Wrappers {

  datatype Option<+T> = None | Some(value: T)
}

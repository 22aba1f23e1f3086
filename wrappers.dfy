/** Java's `null` references and `Optional` results, as an explicit variant. */
module Wrappers {

  datatype Option<+T> = None | Some(value: T)
}

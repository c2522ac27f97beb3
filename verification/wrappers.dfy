/** The conventional optional-value datatype, standing in for a value the
    modelled code may not have (JavaScript's `undefined` from a failed
    lookup, a position not found). */
module Wrappers {

  datatype Option<+T> = None | Some(value: T)
}

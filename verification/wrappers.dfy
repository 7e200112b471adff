/** The optional value used for the results of number parsing (None stands for NaN). */
module Wrappers {
  datatype Option<+T> = None | Some(value: T)
}

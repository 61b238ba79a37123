/** An optional value. The form uses it for the parsed distance, with None standing for NaN. */
module Wrappers {
  datatype Option<+T> = None | Some(value: T)
}

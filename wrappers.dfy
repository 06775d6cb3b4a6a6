/** An optional value, for the library's `std::optional` results. */
module Wrappers {
  datatype Option<T> = None | Some(value: T)
}

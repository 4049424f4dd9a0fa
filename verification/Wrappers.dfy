/** The optional value used wherever the program returns `std::optional` or a search may find nothing. */
module Wrappers {
  datatype Option<+T> = None | Some(value: T)
}

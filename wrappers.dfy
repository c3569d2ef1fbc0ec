/** `Option`, the model's `std::optional`. */
module Wrappers {

  datatype Option<T> = None | Some(value: T)
}

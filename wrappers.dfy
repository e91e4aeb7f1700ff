/** The "maybe a value" type used wherever the C++ code hands back a
    possibly-empty `std::shared_ptr<T>` or `std::unique_ptr<node>`. */
module Wrappers {

  datatype Option<+T> = None | Some(value: T)
}

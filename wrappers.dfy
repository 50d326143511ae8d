/** The optional value used wherever the Rust code holds an `Option<T>`. */
module Wrappers {

  datatype Option<+T> = None | Some(value: T)

}

/** Option type for the results of partial foreign functions such as integer parsing. */
module Wrappers {

  datatype Option<+T> = None | Some(value: T)
}

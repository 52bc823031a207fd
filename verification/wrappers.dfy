/** Option, the value-or-nothing datatype the model uses for "no index file". */
module Wrappers {

  datatype Option<+T> = None | Some(value: T)
}

/** The optional value used where the plugin's JavaScript yields `null`. */
module Wrappers {

  datatype Option<+T> = None | Some(value: T)
}

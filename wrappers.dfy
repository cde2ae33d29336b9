/** The conventional optional value, used where app.py returns `None`. */
module Wrappers {

  datatype Option<+T> = None | Some(value: T)
}

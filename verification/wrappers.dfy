/** Option type used for values that may be absent
    (the button state before any click) and for parsers that may reject. */
module Wrappers {

  datatype Option<+T> = None | Some(value: T)
}

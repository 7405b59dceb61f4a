/** The optional value the JavaScript code expresses with `undefined`. */
module Wrappers {

  datatype Option<+T> = None | Some(value: T)
}

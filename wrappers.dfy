/** The optional value used wherever the installer answers "nothing" (PHP's false or null). */
module Wrappers {
  datatype Option<+T> = None | Some(value: T)
}

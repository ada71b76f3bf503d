/** The optional value the monitor uses for "no detection yet" (Python's None). */
module Wrappers {
  datatype Option<+T> = None | Some(value: T)
}

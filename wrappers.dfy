/** Option, the "absent value" signal every lookup of the file organizer returns. */
module Wrappers {

  datatype Option<+T> = None | Some(value: T)
}

/** The optional value used for the runner's last delivered event. */
module Wrappers {

  datatype Option<+T> = None | Some(value: T)
}

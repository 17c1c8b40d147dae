/** Small shared vocabulary. */
module Wrappers {

  datatype Option<+T> = None | Some(value: T)
}

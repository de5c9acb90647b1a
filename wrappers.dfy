/** Rust's `Option`, as used for `add_scene`'s result and the event's reason. */
module Wrappers {

  datatype Option<+T> = None | Some(value: T)
}

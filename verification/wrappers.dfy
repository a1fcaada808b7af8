/** The optional value used wherever the dashboard code returns `None` or a
    Python call would raise on an unusable value. */
module Wrappers {

  datatype Option<+T> = None | Some(value: T)
}

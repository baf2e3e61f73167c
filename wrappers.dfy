/** The usual optional value: the auto-player's "no move" is `None`. */
module Wrappers {

  datatype Option<+T> = None | Some(value: T)
}

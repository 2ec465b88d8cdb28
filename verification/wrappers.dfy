/** The optional value the game logic returns where the source returns `None`. */
module Wrappers {

  datatype Option<+T> = None | Some(value: T)
}

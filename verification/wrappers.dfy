/** The optional value used where the game keeps "no value yet" or a failed lookup. */
module Wrappers {
  datatype Option<+T> = None | Some(value: T)
}

/** A value that may be absent: the game's "no difficulty chosen yet" and
    the neighbour count that a mine cell does not have. */
module Wrappers {

  datatype Option<+T> = None | Some(value: T)
}

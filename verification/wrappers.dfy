/** The optional value used wherever the game returns "nothing": no move
    available, or a search that has not seen a candidate yet. */
module Wrappers {

  datatype Option<+T> = None | Some(value: T)
}

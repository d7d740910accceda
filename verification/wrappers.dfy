/** The optional value the game keeps in every lattice cell: `None` for an
    emptied cell, `Some(colour)` for a cell that still holds a sphere. */
module Wrappers {

  datatype Option<+T> = None | Some(value: T)
}

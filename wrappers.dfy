/** The optional value used for the selection (`null` in the source) and for a cell's text content. */
module Wrappers {

  datatype Option<+T> = None | Some(value: T)
}

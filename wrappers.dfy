/** The optional value used for the dataset that may have failed to load and
    for a search that may find nothing. */
module Wrappers {

  datatype Option<+T> = None | Some(value: T)
}

/** The optional value used for "no result" (an empty-input short-circuit) and
    for a run of the traversal that would raise. */
module Wrappers {
  datatype Option<+T> = None | Some(value: T)
}

/** The optional value used for the planner's nullable results (a `NULL` node
    pointer, an uninitialised coordinate pair, a sample that was never drawn). */
module Wrappers {

  datatype Option<+T> = None | Some(value: T)
}

/** Failure-carrying datatypes shared by all components. */
module Wrappers {

  datatype Option<+T> = None | Some(value: T)

  /** A capacity overflow: an error for the fallible callers, a panic for the infallible ones. */
  datatype Outcome = Done | CapacityOverflow
}

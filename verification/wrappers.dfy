/** Failure-compatible wrapper used across the model: `None` marks a run
    that did not reach an answer within its fuel. */
module Wrappers {

  datatype Option<+T> = None | Some(value: T)

}

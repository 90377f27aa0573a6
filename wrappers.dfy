/** Option and Result, the failure-compatible wrappers the rest of the model returns. */
module Wrappers {

  datatype Option<+T> = None | Some(value: T)

  /** The failures the tree operations raise. */
  datatype TreeError =
    | TooFewChildren          // multifurcating called with num < 2
    | NameNotFound(name: string)  // a requested name is not the name of any node
    | NoTreeCreated           // the sub-tree evaluator produced nothing

  datatype Result<+T> = Ok(value: T) | Err(error: TreeError)
}

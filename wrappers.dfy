/** Failure-carrying result types and the error kinds raised by the navigation core. */
module Wrappers {

  datatype Option<+T> = None | Some(value: T)

  /** The exceptions the PHP code throws, one constructor per cause. */
  datatype Error =
    | NotANode            // a visitor was handed an item that is not a node
    | PropertyNotFound    // the node has no value for the requested title property
    | PathNotFound        // the session holds no node under the requested storage id
    | RootNotFound        // the navigation root is missing at construction time
    | AncestorNotFound    // getAncestor was asked for a depth deeper than the node
    | TooFewArguments     // a method was called with fewer arguments than it declares

  datatype Result<+T> = Ok(value: T) | Err(error: Error)

  datatype Outcome = Pass | Fail(error: Error)
}

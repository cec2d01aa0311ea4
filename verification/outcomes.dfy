/** Failure-carrying results for the operations that throw in the modelled
    collection: each Java exception the core raises becomes one `Exception`
    value, and an operation that may throw returns a `Result`. */
module Outcomes {

  /** The exceptions the core raises. */
  datatype Exception =
    | NullPointer        // a null key given to insert or contains
    | IllegalArgument    // rotate called on nodes that are not parent and child
    | NoSuchElement      // next() on an exhausted iterator
    | IllegalState       // fiveMostDanceable() before any getRange()
    | TraversalOverrun   // a traversal visited more nodes than `size` records

  datatype Result<+T> = Ok(value: T) | Fail(error: Exception)

  datatype Option<+T> = None | Some(value: T)
}

/** Optional values and error results shared by the skeleton and forest models. */
module Wrappers {

  /** A value that may be absent: Python's `None`, numpy's NaN marker, or an unfilled cache. */
  datatype Option<+T> = None | Some(value: T)

  /** The ways in which an operation of the core fails (the source raises an exception). */
  datatype Error =
    | NoParent(vertex: nat)     // a parent walk reached a vertex without parent before a visited one
    | IndexOutOfRange           // numpy indexing with an index outside [-n, n)
    | MissingProperty           // a property dictionary lacks the requested name (KeyError)
    | NothingToConcatenate      // np.concatenate was given an empty list (ValueError)
    | NoSkeletons               // the forest holds no skeleton to read property names from (IndexError)

  /** Either a value or the error the source raises instead. */
  datatype Result<+T> = Success(value: T) | Failure(error: Error)
}

/** Option and Result values: the script's "nothing found" (Python None) and
    its fatal errors are modelled as values instead of crashes. */
module Wrappers {

  datatype Option<+T> = None | Some(value: T)

  datatype Result<+T, +E> = Success(value: T) | Failure(error: E)
}

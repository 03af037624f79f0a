/**
 * Option and Result types shared by the storage model, and the errors the
 * storage classes and the query helpers raise.
 */
module Results {

  datatype Option<+T> = None | Some(value: T)

  /** The exceptions thrown by the storage classes and the query helpers. */
  datatype Error =
    | NotFound(path: string)        // "File not found in read directory" (or a missing root directory)
    | CreateFailed(path: string)    // "Failed to create directory", naming "$parent/$directory"
    | NoElements                    // first() or single() on a sequence with no element
    | MoreThanOne                   // single() or singleOrDefault() with several matching elements
    | BadDate(token: string)        // a year-month/day pair that is not a calendar date
    | LocalReadFailed(path: string) // a local file that cannot be read for upload
    | TypeError(field: string)      // a mapping callback applied to a value of the wrong type

  datatype Result<+T> = Ok(value: T) | Err(error: Error) {
    predicate IsFailure() { Err? }

    function PropagateFailure<U>(): Result<U>
      requires Err?
    {
      Err(error)
    }

    function Extract(): T
      requires Ok?
    {
      value
    }
  }
}

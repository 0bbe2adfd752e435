/** Option and Result, and the errors the core tells apart. */
module Wrappers {

  datatype Option<+T> = None | Some(value: T)

  /** The kinds of error the ingestion and metrics code distinguish. */
  datatype Error =
    | NoRows        // go-pg's "no rows in result set": an expected, benign outcome
    | DbFailure     // any other error reported by the database
    | FetchFailure  // the git-sensor could not produce the changes between two commits
    | ParseFailure  // a window bound that is not in the fixed timestamp layout

  datatype Result<+T> = Ok(value: T) | Err(error: Error)
}

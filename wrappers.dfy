/** Optional values and results carrying the exceptions of the modelled code. */
module Wrappers {

  /** A nullable reference or a `java.util.Optional`. */
  datatype Option<T> = None | Some(value: T)

  /** The failures the modelled operations raise, one constructor per cause. */
  datatype Failure =
    | UnknownPosition       // Position.fromLabel: no label matches (IllegalArgumentException)
    | NullId                // a repository `findById` called with a null id
    | DuplicatePersonalId   // unique constraint on the employee `personalId` column
    | DuplicateDirector     // unique constraint on the directorate `director_id` column
    | MissingPassword       // not-null constraint on the employee `password` column
    | BadCredentials        // the authentication manager rejects the credentials
    | NoSuchElement         // `Optional.orElseThrow` on an empty result

  /** The outcome of an operation that either returns a value or throws. */
  datatype Result<T> = Ok(value: T) | Err(error: Failure)
}

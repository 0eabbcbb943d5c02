/** Optional values, results and the ways a database transaction can end. */
module Wrappers {

  datatype Option<+T> = None | Some(value: T)

  datatype Result<+T, +E> = Ok(value: T) | Err(error: E)

  /** A transaction commits, is rolled back by an infrastructure error, or
      commits while the caller sees an error. */
  datatype TxFate = Committed | RolledBack | AckLost
}

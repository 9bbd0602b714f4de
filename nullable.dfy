/** JavaScript's `null` / `undefined` for a column or a parsed value, and the
    error path of a request whose SQLite read failed. */
module Nullable {

  datatype Option<+T> = None | Some(value: T)

  /** The outcome of a route that answers `{ error: 'Database error' }`
      when its SELECT on today.db fails. */
  datatype Result<+T> = Ok(value: T) | DatabaseError
}

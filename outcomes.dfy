/** What the data-access functions settle with: a value when the promise
    resolves, or the `{status, msg}` descriptor it rejects with. */
module Outcomes {

  datatype Option<T> = None | Some(value: T)

  /** The `{status, msg}` object every rejection of the data-access layer carries. */
  datatype ApiError = ApiError(status: int, msg: string)

  /** A settled promise of the data-access layer. */
  datatype Result<T> = Ok(value: T) | Err(error: ApiError)
}

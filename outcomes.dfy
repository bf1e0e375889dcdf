/** Result shapes shared by the Lambda handlers' models. */
module Outcomes {

  /** A value that may be absent. */
  datatype Option<+T> = None | Some(value: T)

  /** Why a Go function stopped with a runtime panic instead of returning. */
  datatype PanicCause =
    | NoRecords                     // `Records[0]` on an empty slice of records
    | IndexOutOfRange(slice: string) // `<slice>[1]` on a split that produced one piece
    | BadTypeAssertion(key: string)  // `x.(T)` on a map entry that is missing or of another type

  /**
   * How a call into the core ends: a value with a nil error, a non-nil
   * Go `error` (carried as its message), or a runtime panic.
   */
  datatype Outcome<+T> = Ok(value: T) | Err(error: string) | Panic(cause: PanicCause)
}

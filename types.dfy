/** The shapes of the shared contract that the helper layer builds and returns. */
module Types {
  import opened Wrappers

  /** The JavaScript `null` value, as the payload type of an error envelope. */
  datatype Null = Null

  /** The uniform response envelope; an absent optional property is `None`. */
  datatype ApiResponse<T> = ApiResponse(
    success: bool,
    data: T,
    message: Option<string>,
    error: Option<string>)

  /** What an `AppError` may carry in `details`: the validator attaches the list of
      missing fields; any other payload is opaque to this model. */
  datatype ErrorDetails =
    | MissingFieldsDetails(missingFields: seq<string>)
    | OpaqueDetails

  /** A structured, machine-readable error value. */
  datatype AppError = AppError(
    code: string,
    message: string,
    details: Option<ErrorDetails>)
}

/** `createApiResponse` and `createErrorResponse`: the two ways to build a response envelope. */
module Envelope {
  import opened Wrappers
  import opened Types

  /** `createApiResponse(data, success = true, message?)`: the payload and flag are stored as
      given, and no `error` property is set. */
  function CreateApiResponse<T>(data: T, success: bool := true, message: Option<string> := None): (r: ApiResponse<T>)
    ensures r.data == data && r.success == success && r.message == message
    ensures r.error == None
  {
    ApiResponse(success, data, message, None)
  }

  /** `createErrorResponse(message, error?)`: always a failure, with a `null` payload. */
  function CreateErrorResponse(message: string, error: Option<string> := None): (r: ApiResponse<Null>)
    ensures !r.success && r.data == Null
    ensures r.message == Some(message) && r.error == error
  {
    ApiResponse(false, Null, Some(message), error)
  }

  /** Sample call: an error envelope with a detail string. */
  lemma ErrorResponseExample()
    ensures CreateErrorResponse("bad input", Some("DETAIL")) ==
      ApiResponse(false, Null, Some("bad input"), Some("DETAIL"))
  {
  }

  /** The builders do not tie `error` to `success`: an error envelope built without a detail
      string has no `error`, and `CreateApiResponse` with `success = false` keeps its payload. */
  lemma FailureWithoutError<T>(m: string, data: T)
    ensures !CreateErrorResponse(m).success && CreateErrorResponse(m).error == None
    ensures !CreateApiResponse(data, false).success && CreateApiResponse(data, false).data == data
    ensures CreateApiResponse(data, false).error == None
  {
  }
}

/**
 * The two error kinds of the application (app/main.py) and the JSON bodies that
 * its two exception handlers turn them into: `{"error": {"code", "message"}}`
 * sent with an HTTP status.
 */
module Errors {

  /** The application's own error: a machine-readable code, a message and an HTTP status. */
  datatype ApiError = ApiError(code: string, message: string, status: int)

  /** Builds an `ApiError`; as in the source, the status defaults to 400. */
  function MakeApiError(code: string, message: string, status: int := 400): (e: ApiError)
    ensures e.code == code && e.message == message && e.status == status
  {
    ApiError(code, message, status)
  }

  /** The `detail` of a framework HTTP exception: a string, or any other JSON value. */
  datatype Detail = TextDetail(text: string) | OtherDetail

  /** A framework HTTP exception: a status code and a detail. */
  datatype HttpException = HttpException(statusCode: int, detail: Detail)

  datatype ErrorBody = ErrorBody(code: string, message: string)

  /** A JSON error response: the HTTP status and the body's `error` object. */
  datatype ErrorResponse = ErrorResponse(status: int, error: ErrorBody)

  const HttpErrorCode: string := "http_error"

  /** `api_error_handler`: the body carries the error's own code and message, sent with its status. */
  function ApiErrorHandler(e: ApiError): (r: ErrorResponse)
    ensures r.status == e.status
    ensures r.error.code == e.code && r.error.message == e.message
  {
    ErrorResponse(e.status, ErrorBody(e.code, e.message))
  }

  /**
   * `http_exception_handler`: the code is always "http_error"; the message is the detail
   * when it is a string and "http_error" otherwise; the status is kept.
   */
  function HttpExceptionHandler(e: HttpException): (r: ErrorResponse)
    ensures r.status == e.statusCode
    ensures r.error.code == HttpErrorCode
    ensures e.detail.TextDetail? ==> r.error.message == e.detail.text
    ensures e.detail.OtherDetail? ==> r.error.message == HttpErrorCode
  {
    var message := if e.detail.TextDetail? then e.detail.text else HttpErrorCode;
    ErrorResponse(e.statusCode, ErrorBody(HttpErrorCode, message))
  }

  /** Reads an `ApiError` back out of a response body. */
  function ApiErrorOf(r: ErrorResponse): ApiError
  {
    ApiError(r.error.code, r.error.message, r.status)
  }

  /** Nothing of an `ApiError` is lost in its response: the handler is a bijection onto bodies. */
  lemma ApiErrorRoundTrip(e: ApiError, r: ErrorResponse)
    ensures ApiErrorOf(ApiErrorHandler(e)) == e
    ensures ApiErrorHandler(ApiErrorOf(r)) == r
  {
  }

  /**
   * Two HTTP exceptions with string details get the same response exactly when they are
   * equal; every non-string detail with the same status gets one and the same response.
   */
  lemma HttpExceptionResponses(e1: HttpException, e2: HttpException)
    ensures e1.detail.TextDetail? && e2.detail.TextDetail? ==>
              (HttpExceptionHandler(e1) == HttpExceptionHandler(e2) <==> e1 == e2)
    ensures e1.detail.OtherDetail? && e2.detail.OtherDetail? ==>
              (HttpExceptionHandler(e1) == HttpExceptionHandler(e2) <==> e1.statusCode == e2.statusCode)
  {
  }
}

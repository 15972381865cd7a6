/** Classification of an HTTP response into the client's result
    (src/utils/api-response.ts): read the body, turn a non-ok status into an
    `API_ERROR` or `AUTH_ERROR`, parse an ok body as JSON, and turn anything
    thrown on the way into a `NETWORK_ERROR`. */
module ApiResponse {
  import opened Wrappers
  import opened CommonTypes

  /** The part of a fetch `Response` the classifier looks at. `body` is the
      outcome of `response.text()`: the text, or what reading it threw. */
  datatype Response = Response(status: int, statusText: string, body: Completion<string>) {
    /** `response.ok`: the status is in the range 200-299. */
    predicate Ok() {
      200 <= status <= 299
    }
  }

  const UnknownErrorMessage: string := "Unknown error"

  /** The message of a caught value: its `message` when it is an `Error`
      instance, and `"Unknown error"` otherwise. */
  function ThrownMessage(t: Thrown): (m: string)
    ensures t.ErrorInstance? ==> m == t.message
    ensures t.OtherValue? ==> m == UnknownErrorMessage
  {
    match t
    case ErrorInstance(msg) => msg
    case OtherValue(_) => UnknownErrorMessage
  }

  /** The error returned for a failed HTTP status. */
  function StatusError(status: int, text: string, statusText: string): DiscogsApiError {
    DiscogsApiError(
      if status == 401 then AuthError else ApiError,
      if text != "" then text else statusText,
      Some(status),
      None)
  }

  /** The error returned for a value thrown inside the `try` block. */
  function NetworkFailure(t: Thrown): DiscogsApiError {
    DiscogsApiError(NetworkError, ThrownMessage(t), None, None)
  }

  /** `handleApiResponse(response)`, with `JSON.parse` as `parse`. */
  function HandleApiResponse<T>(response: Response, parse: string -> Completion<T>): (r: Result<T, DiscogsApiError>)
    // A failed body read is a network error with the thrown value's message.
    ensures response.body.Throw? ==>
      r.Err? && r.error.kind == NetworkError && r.error.statusCode == None
      && r.error.message == ThrownMessage(response.body.thrown)
    // A non-ok status is an error carrying that status: AUTH_ERROR exactly
    // for 401, API_ERROR for every other status; the message is the body
    // text, or the status text when the body is empty.
    ensures response.body.Normal? && !response.Ok() ==>
      r.Err? && r.error.statusCode == Some(response.status)
      && (r.error.kind == AuthError <==> response.status == 401)
      && (r.error.kind == ApiError <==> response.status != 401)
      && (response.body.value != "" ==> r.error.message == response.body.value)
      && (response.body.value == "" ==> r.error.message == response.statusText)
    // An ok status returns the parsed body, or a network error without a
    // status code when parsing throws.
    ensures response.body.Normal? && response.Ok() ==>
      match parse(response.body.value)
      case Normal(data) => r == Ok(data)
      case Throw(t) =>
        r.Err? && r.error.kind == NetworkError && r.error.statusCode == None
        && r.error.message == ThrownMessage(t)
    // The validation error is never produced, and no error has details.
    ensures r.Err? ==> r.error.kind != ValidationError && r.error.details == None
    // A status code is attached exactly to the errors of a failed status.
    ensures r.Err? ==> (r.error.statusCode.Some? <==> response.body.Normal? && !response.Ok())
  {
    match response.body
    case Throw(t) => Err(NetworkFailure(t))
    case Normal(text) =>
      if !response.Ok() then Err(StatusError(response.status, text, response.statusText))
      else
        match parse(text)
        case Normal(data) => Ok(data)
        case Throw(t) => Err(NetworkFailure(t))
  }

  /** A non-ok response never reaches the parser: any two parsers give the
      same result, so even a body no parser accepts is an `API_ERROR` (for a
      status other than 401) and not a `NETWORK_ERROR`. */
  lemma NotOkIgnoresParser<T>(response: Response, parse1: string -> Completion<T>, parse2: string -> Completion<T>)
    requires !response.Ok()
    ensures HandleApiResponse(response, parse1) == HandleApiResponse(response, parse2)
    ensures response.body.Normal? && response.status != 401 ==>
      HandleApiResponse(response, parse1).error.kind == ApiError
  {
  }

  /** Every error kind is tied to the step that failed: `NETWORK_ERROR` to a
      throw (of the body read or of the parser), `AUTH_ERROR` and `API_ERROR`
      to a failed status. */
  lemma ErrorKindOrigin<T>(response: Response, parse: string -> Completion<T>)
    requires HandleApiResponse(response, parse).Err?
    ensures HandleApiResponse(response, parse).error.kind == NetworkError <==>
      (response.body.Throw? || (response.Ok() && parse(response.body.value).Throw?))
    ensures HandleApiResponse(response, parse).error.kind in {AuthError, ApiError} <==>
      (response.body.Normal? && !response.Ok())
  {
  }

  /** An ok response is a success exactly when its body was read and parsed. */
  lemma SuccessCondition<T>(response: Response, parse: string -> Completion<T>)
    ensures HandleApiResponse(response, parse).Ok? <==>
      (response.body.Normal? && response.Ok() && parse(response.body.value).Normal?)
  {
  }
}

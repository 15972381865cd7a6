/** The older request function (src/discogs-client.ts). It is the same
    composition as in src/client/discogs-client.ts, except that query
    parameters are strings only. Its local `handleApiResponse`
    (src/discogs-client.ts:66-88) is the same text as
    src/utils/api-response.ts, so the shared `HandleApiResponse` stands for
    both. */
module LegacyDiscogsClient {
  import opened Wrappers
  import opened CommonTypes
  import opened JsString
  import opened UrlUtils
  import FormUrlencoded
  import opened ApiResponse
  import AuthTypes
  import DiscogsClient

  /** `RequestParams`: as the raw parameters, with string query values. */
  datatype RequestParams = RequestParams(
    httpMethod: HttpMethod,
    endpoint: string,
    pathParams: Option<Entries<Scalar>>,
    queryParams: Option<QueryParams>,
    headers: Option<QueryParams>)

  /** The path handed to the OAuth client: the built path, and the query
      string after a `?` when it is non-empty. */
  function SentPath(params: RequestParams): string {
    DiscogsClient.FullPath(
      ResolvedPath(params.endpoint, params.pathParams.GetOr([])),
      FormUrlencoded.Serialize(params.queryParams.GetOr([])))
  }

  /** The single call made to the OAuth client, with its arguments. */
  function OAuthCall(config: DiscogsClient.ClientConfig, params: RequestParams, apiBaseUrl: string,
                     oauth: DiscogsClient.OAuthRequest): Completion<Result<Response, AuthTypes.OAuthError>> {
    oauth(DiscogsClient.OAuthConfig(config, apiBaseUrl), params.httpMethod, SentPath(params),
          DiscogsClient.RequestOptions(DiscogsClient.MergeHeaders(config.userAgent, params.headers)))
  }

  /** `client.request(params)` of the older client. */
  function Request<T>(config: DiscogsClient.ClientConfig, params: RequestParams, apiBaseUrl: string,
                      oauth: DiscogsClient.OAuthRequest, parse: string -> Completion<T>): (r: Completion<Result<T, DiscogsApiError>>)
    ensures OAuthCall(config, params, apiBaseUrl, oauth).Throw? ==>
      r == Throw(OAuthCall(config, params, apiBaseUrl, oauth).thrown)
    ensures OAuthCall(config, params, apiBaseUrl, oauth).Normal? && OAuthCall(config, params, apiBaseUrl, oauth).value.Err? ==>
      r == Normal(Err(DiscogsApiError(AuthError, OAuthCall(config, params, apiBaseUrl, oauth).value.error.message, None, None)))
    ensures OAuthCall(config, params, apiBaseUrl, oauth).Normal? && OAuthCall(config, params, apiBaseUrl, oauth).value.Ok? ==>
      r == Normal(HandleApiResponse(OAuthCall(config, params, apiBaseUrl, oauth).value.value, parse))
  {
    match OAuthCall(config, params, apiBaseUrl, oauth)
    case Throw(t) => Throw(t)
    case Normal(Err(e)) => Normal(Err(DiscogsApiError(AuthError, e.message, None, None)))
    case Normal(Ok(response)) => Normal(HandleApiResponse(response, parse))
  }

  /** The `TypeError` a call of a missing method throws. */
  const MissingRequestError: Thrown := ErrorInstance("oauthClient.request is not a function")

  /** The OAuth client the older client actually holds: `createOAuthClient`
      of src/auth/oauth-client.ts returns an object with `createAuthHeader`
      only, so `oauthClient.request(...)` throws. */
  function MissingRequest(): DiscogsClient.OAuthRequest {
    (c: DiscogsClient.OAuthClientConfig, m: HttpMethod, path: string, o: DiscogsClient.RequestOptions) => Throw(MissingRequestError)
  }

  /** `client.request(params)` of the older client as written, with the
      OAuth client it is built with. */
  function RequestAsWritten<T>(config: DiscogsClient.ClientConfig, params: RequestParams, apiBaseUrl: string,
                               parse: string -> Completion<T>): Completion<Result<T, DiscogsApiError>> {
    Request(config, params, apiBaseUrl, MissingRequest(), parse)
  }

  /** As written, every request of the older client rejects with the
      `TypeError`, whatever the parameters and the response parser. */
  lemma AsWrittenAlwaysRejects<T>(config: DiscogsClient.ClientConfig, params: RequestParams, apiBaseUrl: string,
                                  parse: string -> Completion<T>)
    ensures RequestAsWritten(config, params, apiBaseUrl, parse) == Throw(MissingRequestError)
  {
    assert OAuthCall(config, params, apiBaseUrl, MissingRequest()) == Throw(MissingRequestError);
  }

  /** String query values seen as the newer client's string-or-number values. */
  function TextValues(query: QueryParams): (r: Entries<Scalar>)
    ensures |r| == |query|
    ensures forall i :: 0 <= i < |query| ==> r[i] == (query[i].0, Text(query[i].1))
  {
    if query == [] then [] else [(query[0].0, Text(query[0].1))] + TextValues(query[1..])
  }

  /** The newer client's parameters holding the same values. */
  function Widen(params: RequestParams): DiscogsClient.RawRequestParams {
    DiscogsClient.RawRequestParams(
      params.httpMethod, params.endpoint, params.pathParams,
      if params.queryParams.Some? then Some(TextValues(params.queryParams.value)) else None,
      params.headers)
  }

  /** Converting string values with `String` gives them back unchanged. */
  lemma QueryStringsOfText(query: QueryParams)
    ensures DiscogsClient.QueryStrings(TextValues(query)) == query
  {
  }

  /** The two clients behave alike on string parameters: the older client's
      request is the newer client's request on the same values. */
  lemma AgreesWithClient<T>(config: DiscogsClient.ClientConfig, params: RequestParams, apiBaseUrl: string,
                            oauth: DiscogsClient.OAuthRequest, parse: string -> Completion<T>)
    ensures SentPath(params) == DiscogsClient.SentPath(Widen(params))
    ensures Request(config, params, apiBaseUrl, oauth, parse)
         == DiscogsClient.Request(config, Widen(params), apiBaseUrl, oauth, parse)
  {
    QueryStringsOfText(params.queryParams.GetOr([]));
    assert TextValues([]) == [];
    assert DiscogsClient.RequestQuery(Widen(params)) == FormUrlencoded.Serialize(params.queryParams.GetOr([]));
  }
}

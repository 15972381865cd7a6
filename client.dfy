/** The request function of the client built by `createDiscogsClient`
    (src/client/discogs-client.ts): it fills the endpoint template, appends
    the query string, merges the headers over a default `User-Agent`, makes
    one call to the OAuth client and classifies what comes back. */
module DiscogsClient {
  import opened Wrappers
  import opened CommonTypes
  import opened AuthTypes
  import opened JsString
  import opened UrlUtils
  import FormUrlencoded
  import Utf8
  import opened ApiResponse

  /** `DiscogsClientConfig`: credentials, the default `User-Agent` and an
      optional base URL. */
  datatype ClientConfig = ClientConfig(credentials: Credentials, userAgent: string, baseUrl: Option<string>)

  /** `RequestRawParams`: method, endpoint template, and optional path
      parameters, query parameters (strings or numbers) and headers. */
  datatype RawRequestParams = RawRequestParams(
    httpMethod: HttpMethod,
    endpoint: string,
    pathParams: Option<Entries<Scalar>>,
    queryParams: Option<Entries<Scalar>>,
    headers: Option<QueryParams>)

  /** What the OAuth client is created with. */
  datatype OAuthClientConfig = OAuthClientConfig(credentials: Credentials, baseUrl: string)

  /** The options object handed to the OAuth client's `request`. */
  datatype RequestOptions = RequestOptions(headers: QueryParams)

  /** The `request` of the OAuth client created from the given configuration:
      it resolves to a response or an OAuth error, or it rejects. */
  type OAuthRequest = (OAuthClientConfig, HttpMethod, string, RequestOptions) -> Completion<Result<Response, OAuthError>>

  const UserAgentHeader: string := "User-Agent"

  /** `config.baseUrl || API_BASE_URL`: an absent or empty base URL falls
      back to the library's default. */
  function BaseUrl(configured: Option<string>, apiBaseUrl: string): (b: string)
    ensures configured.Some? && configured.value != "" ==> b == configured.value
    ensures configured.None? || configured.value == "" ==> b == apiBaseUrl
  {
    if configured.Some? && configured.value != "" then configured.value else apiBaseUrl
  }

  /** The configuration the OAuth client is created with. */
  function OAuthConfig(config: ClientConfig, apiBaseUrl: string): OAuthClientConfig {
    OAuthClientConfig(config.credentials, BaseUrl(config.baseUrl, apiBaseUrl))
  }

  /** The query parameters as `URLSearchParams.append` stores them: each
      value converted with `String`. */
  function QueryStrings(query: Entries<Scalar>): (r: QueryParams)
    ensures |r| == |query|
    ensures forall i :: 0 <= i < |query| ==> r[i] == (query[i].0, ToText(query[i].1))
  {
    if query == [] then [] else [(query[0].0, ToText(query[0].1))] + QueryStrings(query[1..])
  }

  /** The path and its query string joined by `?`, or the path alone when
      the query string is empty. */
  function FullPath(path: string, query: string): string {
    if query == "" then path else path + "?" + query
  }

  /** The headers sent: `{"User-Agent": userAgent, ...headers}`. */
  function MergeHeaders(userAgent: string, headers: Option<QueryParams>): QueryParams {
    Spread([(UserAgentHeader, userAgent)], headers.GetOr([]))
  }

  /** The path with parameters, as `buildPath(endpoint, pathParams || {})`
      returns it. */
  function RequestPath(params: RawRequestParams): string {
    ResolvedPath(params.endpoint, params.pathParams.GetOr([]))
  }

  /** The query string, as `buildQueryString(queryParams || {})` returns it. */
  function RequestQuery(params: RawRequestParams): string {
    FormUrlencoded.Serialize(QueryStrings(params.queryParams.GetOr([])))
  }

  /** The path handed to the OAuth client. */
  function SentPath(params: RawRequestParams): string {
    FullPath(RequestPath(params), RequestQuery(params))
  }

  /** The single call made to the OAuth client, with its arguments. */
  function OAuthCall(config: ClientConfig, params: RawRequestParams, apiBaseUrl: string, oauth: OAuthRequest): Completion<Result<Response, OAuthError>> {
    oauth(OAuthConfig(config, apiBaseUrl), params.httpMethod, SentPath(params),
          RequestOptions(MergeHeaders(config.userAgent, params.headers)))
  }

  /** `client.request(params)`, with the OAuth client's `request` as `oauth`
      and `JSON.parse` as `parse`. A rejected call propagates as a throw. */
  function Request<T>(config: ClientConfig, params: RawRequestParams, apiBaseUrl: string,
                      oauth: OAuthRequest, parse: string -> Completion<T>): (r: Completion<Result<T, DiscogsApiError>>)
    // A rejection of the OAuth call is not caught.
    ensures OAuthCall(config, params, apiBaseUrl, oauth).Throw? ==>
      r == Throw(OAuthCall(config, params, apiBaseUrl, oauth).thrown)
    // Any OAuth error, whatever its code, becomes AUTH_ERROR with the same
    // message and no status code; the response handling is skipped.
    ensures OAuthCall(config, params, apiBaseUrl, oauth).Normal? && OAuthCall(config, params, apiBaseUrl, oauth).value.Err? ==>
      r == Normal(Err(DiscogsApiError(AuthError, OAuthCall(config, params, apiBaseUrl, oauth).value.error.message, None, None)))
    // A response is classified by the shared response handler.
    ensures OAuthCall(config, params, apiBaseUrl, oauth).Normal? && OAuthCall(config, params, apiBaseUrl, oauth).value.Ok? ==>
      r == Normal(HandleApiResponse(OAuthCall(config, params, apiBaseUrl, oauth).value.value, parse))
    // Whatever happens, the error is never a validation error.
    ensures r.Normal? && r.value.Err? ==> r.value.error.kind != ValidationError
  {
    match OAuthCall(config, params, apiBaseUrl, oauth)
    case Throw(t) => Throw(t)
    case Normal(Err(e)) => Normal(Err(DiscogsApiError(AuthError, e.message, None, None)))
    case Normal(Ok(response)) => Normal(HandleApiResponse(response, parse))
  }

  /** The OAuth client is called exactly once: two OAuth clients that answer
      the one call of this request alike give the same outcome, whatever
      they would answer to anything else. */
  lemma OneOAuthCall<T>(config: ClientConfig, params: RawRequestParams, apiBaseUrl: string,
                        oauth1: OAuthRequest, oauth2: OAuthRequest, parse: string -> Completion<T>)
    requires oauth1(OAuthConfig(config, apiBaseUrl), params.httpMethod, SentPath(params),
                    RequestOptions(MergeHeaders(config.userAgent, params.headers)))
          == oauth2(OAuthConfig(config, apiBaseUrl), params.httpMethod, SentPath(params),
                    RequestOptions(MergeHeaders(config.userAgent, params.headers)))
    ensures Request(config, params, apiBaseUrl, oauth1, parse) == Request(config, params, apiBaseUrl, oauth2, parse)
  {
  }

  /** The headers sent: `User-Agent` is the caller's when the caller gives
      one (the later spread wins) and the configured one otherwise; every
      other caller header passes through unchanged and nothing else is
      added; `User-Agent` is the first key; no key is repeated. */
  lemma MergeHeadersProperties(userAgent: string, headers: Option<QueryParams>)
    ensures Get(MergeHeaders(userAgent, headers), UserAgentHeader)
         == (if UserAgentHeader in Keys(headers.GetOr([])) then Get(headers.GetOr([]), UserAgentHeader) else Some(userAgent))
    ensures forall k :: k != UserAgentHeader ==> Get(MergeHeaders(userAgent, headers), k) == Get(headers.GetOr([]), k)
    ensures Keys(MergeHeaders(userAgent, headers)) == {UserAgentHeader} + Keys(headers.GetOr([]))
    ensures MergeHeaders(userAgent, headers) != [] && MergeHeaders(userAgent, headers)[0].0 == UserAgentHeader
    ensures DistinctKeys(MergeHeaders(userAgent, headers))
  {
    var target := [(UserAgentHeader, userAgent)];
    var source := headers.GetOr([]);
    SpreadGet(target, source);
    SpreadKeys(target, source);
    SpreadFirst(target, source);
    SpreadDistinct(target, source);
    assert target == [] + [target[0]];
    GetAppend([], target[0]);
  }

  /** The number of `?` characters in `s`. */
  function QuestionMarks(s: string): nat {
    multiset(s)['?']
  }

  /** Joining adds exactly one `?` when the query string is non-empty and
      holds none itself, and the path can be read back as the prefix. */
  lemma FullPathShape(path: string, query: string)
    requires '?' !in query
    ensures FullPath(path, query)[..|path|] == path
    ensures query != "" ==> FullPath(path, query)[|path|] == '?' && FullPath(path, query)[|path| + 1..] == query
    ensures QuestionMarks(FullPath(path, query)) == QuestionMarks(path) + (if query == "" then 0 else 1)
  {
    if query != "" {
      assert FullPath(path, query) == path + ("?" + query);
      assert multiset("?" + query) == multiset{'?'} + multiset(query);
    }
  }

  /** The query string is empty exactly when there are no query parameters,
      holds no `?`, and parses back to the parameters (their values as
      `String` writes them). */
  lemma RequestQueryProperties(params: RawRequestParams)
    ensures RequestQuery(params) == "" <==> params.queryParams.None? || params.queryParams.value == []
    ensures '?' !in RequestQuery(params)
    ensures FormUrlencoded.Parse(Utf8.Encode(RequestQuery(params))) == Some(QueryStrings(params.queryParams.GetOr([])))
  {
    var query := QueryStrings(params.queryParams.GetOr([]));
    FormUrlencoded.ParseSerialize(query);
    FormUrlencoded.SerializeAlphabet(query);
    if query != [] {
      FormUrlencoded.SerializeNonEmpty(query);
    }
  }

  /** The path sent is the built path, followed, exactly when there are query
      parameters, by one `?` and the query string; exactly one `?` is added. */
  lemma SentPathShape(params: RawRequestParams)
    ensures RequestQuery(params) == "" ==> SentPath(params) == RequestPath(params)
    ensures RequestQuery(params) != "" ==> SentPath(params) == RequestPath(params) + "?" + RequestQuery(params)
    ensures QuestionMarks(SentPath(params)) == QuestionMarks(RequestPath(params)) + (if RequestQuery(params) == "" then 0 else 1)
  {
    RequestQueryProperties(params);
    FullPathShape(RequestPath(params), RequestQuery(params));
  }

  /** The release request of the client's tests: `GET /releases/:release_id`
      with `{release_id: id}` and nothing else sends `"/releases/" + id`
      with the configured `User-Agent` as the only header. */
  lemma ReleaseRequest(config: ClientConfig, id: string)
    requires '$' !in id
    ensures SentPath(RawRequestParams(GET, "/releases/:release_id", Some([("release_id", Text(id))]), None, None))
         == "/releases/" + id
    ensures MergeHeaders(config.userAgent, None) == [(UserAgentHeader, config.userAgent)]
  {
    var params := RawRequestParams(GET, "/releases/:release_id", Some([("release_id", Text(id))]), None, None);
    ReleasePathExample(id);
    assert QueryStrings([]) == [];
    assert RequestQuery(params) == "";
  }
}

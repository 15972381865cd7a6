/** The OAuth helpers of src/auth/utils.ts: a guard on the consumer
    credentials, the choice between two- and three-legged signing, the URL
    that is signed, and the wrapping of anything the library throws into a
    `SIGNATURE_GENERATION_FAILED` error. */
module AuthUtils {
  import opened Wrappers
  import opened CommonTypes
  import opened AuthTypes
  import FormUrlencoded
  import Utf8
  import opened WebUrl

  const MissingCredentialsMessage: string := "Consumer Key and Consumer Secret are required for OAuth signature."
  const SignatureFailedMessage: string := "Failed to generate OAuth signature"
  const HeaderFailedMessage: string := "Failed to create authorization header"

  /** `consumerKey && consumerSecret`: both are non-empty. */
  predicate HasConsumerCredentials(c: Credentials) {
    c.consumerKey != "" && c.consumerSecret != ""
  }

  /** The consumer pair the library client is created with. */
  function ConsumerOf(c: Credentials): KeyPair {
    KeyPair(c.consumerKey, c.consumerSecret)
  }

  /** `token && tokenSecret ? {key, secret} : undefined`: the token pair
      when both parts are present and non-empty, and nothing otherwise. */
  function TokenFor(c: Credentials): (t: Option<KeyPair>)
    ensures t.Some? <==> c.token.Some? && c.token.value != "" && c.tokenSecret.Some? && c.tokenSecret.value != ""
    ensures t.Some? ==> t.value == KeyPair(c.token.value, c.tokenSecret.value)
  {
    match (c.token, c.tokenSecret)
    case (Some(token), Some(secret)) =>
      if token != "" && secret != "" then Some(KeyPair(token, secret)) else None
    case _ => None
  }

  /** The error returned when the consumer credentials are missing. */
  function InvalidCredentialsError(): OAuthError {
    OAuthError(InvalidCredentials, MissingCredentialsMessage, None)
  }

  /** The error a caught value becomes, with that value as `details`. */
  function Failure(message: string, t: Thrown): OAuthError {
    OAuthError(SignatureGenerationFailed, message, Some(t))
  }

  /** `client.sign(method, url, {token})` for a client holding the consumer pair. */
  function SignCall(p: SignatureParams, lib: OAuthLibrary, url: string): Completion<SignResult> {
    lib.sign(ConsumerOf(p.credentials), p.httpMethod, url, TokenFor(p.credentials))
  }

  /** Signing `url` and formatting the result with `toAuthHeader`. */
  function SignAndFormat(p: SignatureParams, lib: OAuthLibrary, url: string): (h: Completion<string>)
    ensures h.Normal? <==> SignCall(p, lib, url).Normal? && lib.toAuthHeader(SignCall(p, lib, url).value).Normal?
    ensures h.Normal? ==> h.value == lib.toAuthHeader(SignCall(p, lib, url).value).value
    // A throw from signing is passed on as it is; otherwise formatting decides.
    ensures SignCall(p, lib, url).Throw? ==> h == Throw(SignCall(p, lib, url).thrown)
    ensures SignCall(p, lib, url).Normal? ==> h == lib.toAuthHeader(SignCall(p, lib, url).value)
  {
    match SignCall(p, lib, url)
    case Throw(t) => Throw(t)
    case Normal(res) => lib.toAuthHeader(res)
  }

  /** A helper that builds the URL to sign from a URL and the parameters,
      returning its text or throwing. */
  type UrlBuilder = (string, Option<QueryParams>) -> Completion<string>

  /** `generateOAuthSignature(params)`, with `buildUrlWithParams(...).toString()`
      as `buildUrl`. */
  function GenerateOAuthSignature(p: SignatureParams, lib: OAuthLibrary, buildUrl: UrlBuilder): (r: Result<string, OAuthError>)
    // Missing consumer credentials are reported before anything else runs.
    ensures !HasConsumerCredentials(p.credentials) ==> r == Err(InvalidCredentialsError())
    ensures r.Err? && r.error.code == InvalidCredentials ==> !HasConsumerCredentials(p.credentials)
    // Only two error codes can come out, and a signing failure carries
    // what was thrown.
    ensures r.Err? ==> r.error.code == InvalidCredentials || r.error.code == SignatureGenerationFailed
    ensures r.Err? && r.error.code == SignatureGenerationFailed ==>
      r.error.message == SignatureFailedMessage && r.error.details.Some? && HasConsumerCredentials(p.credentials)
    ensures HasConsumerCredentials(p.credentials) && buildUrl(p.url, p.parameters).Throw? ==>
      r == Err(Failure(SignatureFailedMessage, buildUrl(p.url, p.parameters).thrown))
    ensures HasConsumerCredentials(p.credentials) && buildUrl(p.url, p.parameters).Normal?
            && SignCall(p, lib, buildUrl(p.url, p.parameters).value).Throw? ==>
      r == Err(Failure(SignatureFailedMessage, SignCall(p, lib, buildUrl(p.url, p.parameters).value).thrown))
    // Success is exactly the signature of the built URL.
    ensures r.Ok? <==> HasConsumerCredentials(p.credentials) && buildUrl(p.url, p.parameters).Normal?
                       && SignCall(p, lib, buildUrl(p.url, p.parameters).value).Normal?
    ensures r.Ok? ==> r.value == SignCall(p, lib, buildUrl(p.url, p.parameters).value).value.signature
  {
    if !HasConsumerCredentials(p.credentials) then Err(InvalidCredentialsError())
    else
      match buildUrl(p.url, p.parameters)
      case Throw(t) => Err(Failure(SignatureFailedMessage, t))
      case Normal(url) =>
        match SignCall(p, lib, url)
        case Throw(t) => Err(Failure(SignatureFailedMessage, t))
        case Normal(res) => Ok(res.signature)
  }

  /** The query of the URL after the parameters are appended one by one:
      unchanged when there are none, and otherwise a query that parses back
      to the pairs already in the URL followed by the parameters in entry
      order. */
  function SignedQuery(rec: UrlRecord, parameters: Option<QueryParams>): Option<string> {
    if parameters.None? || parameters.value == [] then rec.query
    else QueryOf(rec.searchList + parameters.value)
  }

  /** Appending keeps the pairs already in the URL: the signed query is the
      parsed one when there are no parameters, and otherwise it parses back
      to the URL's pairs followed by every parameter in entry order. */
  lemma SignedQueryKeepsExisting(rec: UrlRecord, parameters: Option<QueryParams>)
    ensures parameters.None? || parameters.value == [] ==> SignedQuery(rec, parameters) == rec.query
    ensures parameters.Some? && parameters.value != [] ==>
      SignedQuery(rec, parameters).Some?
      && FormUrlencoded.Parse(Utf8.Encode(SignedQuery(rec, parameters).value)) == Some(rec.searchList + parameters.value)
  {
    if parameters.Some? && parameters.value != [] {
      QueryOfParses(rec.searchList + parameters.value);
    }
  }

  /** The text of the URL that is signed. */
  function SignedHref(rec: UrlRecord, parameters: Option<QueryParams>): string {
    Serialization(rec.head, SignedQuery(rec, parameters), rec.fragment)
  }

  /** What `createAuthorizationHeader(params)` returns, with `new URL` as
      `parseUrl`. */
  function AuthorizationHeaderOf(p: SignatureParams, lib: OAuthLibrary, parseUrl: string -> Completion<UrlRecord>): (r: Result<string, OAuthError>)
    // The credential guard comes first: even a URL that does not parse
    // gives INVALID_CREDENTIALS when a consumer credential is missing.
    ensures !HasConsumerCredentials(p.credentials) ==> r == Err(InvalidCredentialsError())
    ensures r.Err? && r.error.code == InvalidCredentials ==> !HasConsumerCredentials(p.credentials)
    ensures r.Err? ==> r.error.code == InvalidCredentials || r.error.code == SignatureGenerationFailed
    ensures r.Err? && r.error.code == SignatureGenerationFailed ==>
      r.error.message == HeaderFailedMessage && r.error.details.Some? && HasConsumerCredentials(p.credentials)
    // A throw from parsing, signing or formatting becomes
    // SIGNATURE_GENERATION_FAILED with the thrown value as `details`.
    ensures HasConsumerCredentials(p.credentials) && parseUrl(p.url).Throw? ==>
      r == Err(Failure(HeaderFailedMessage, parseUrl(p.url).thrown))
    ensures HasConsumerCredentials(p.credentials) && parseUrl(p.url).Normal?
            && SignAndFormat(p, lib, SignedHref(parseUrl(p.url).value, p.parameters)).Throw? ==>
      r == Err(Failure(HeaderFailedMessage, SignAndFormat(p, lib, SignedHref(parseUrl(p.url).value, p.parameters)).thrown))
    // Success is exactly the formatted header of the signed URL.
    ensures r.Ok? <==> HasConsumerCredentials(p.credentials) && parseUrl(p.url).Normal?
                       && SignAndFormat(p, lib, SignedHref(parseUrl(p.url).value, p.parameters)).Normal?
    ensures r.Ok? ==> r.value == SignAndFormat(p, lib, SignedHref(parseUrl(p.url).value, p.parameters)).value
  {
    if !HasConsumerCredentials(p.credentials) then Err(InvalidCredentialsError())
    else
      match parseUrl(p.url)
      case Throw(t) => Err(Failure(HeaderFailedMessage, t))
      case Normal(rec) =>
        match SignAndFormat(p, lib, SignedHref(rec, p.parameters))
        case Throw(t) => Err(Failure(HeaderFailedMessage, t))
        case Normal(header) => Ok(header)
  }

  /** `new URL(input)` followed by the `forEach` that appends every
      parameter to its `searchParams`, then `url.toString()`. */
  method SignedUrl(rec: UrlRecord, parameters: Option<QueryParams>) returns (href: string)
    ensures href == SignedHref(rec, parameters)
  {
    var url := new Url(rec);
    if parameters.Some? {
      var params := parameters.value;
      for i := 0 to |params|
        invariant fresh(url) && fresh(url.searchParams)
        invariant url.searchParams.list == rec.searchList + params[..i]
        invariant url.query == (if i == 0 then rec.query else QueryOf(rec.searchList + params[..i]))
      {
        url.AppendSearchParam(params[i].0, params[i].1);
        assert params[..i + 1] == params[..i] + [params[i]];
      }
      assert params[..|params|] == params;
    }
    href := url.Href();
  }

  /** `createAuthorizationHeader(params)`: after the guard, a `URL` object is
      built from `params.url`, every parameter is appended to its
      `searchParams`, and its text is signed and formatted. */
  method CreateAuthorizationHeader(p: SignatureParams, lib: OAuthLibrary, parseUrl: string -> Completion<UrlRecord>)
    returns (r: Result<string, OAuthError>)
    ensures r == AuthorizationHeaderOf(p, lib, parseUrl)
  {
    if !HasConsumerCredentials(p.credentials) {
      return Err(InvalidCredentialsError());
    }
    var token := TokenFor(p.credentials);
    match parseUrl(p.url) {
      case Throw(t) =>
        return Err(Failure(HeaderFailedMessage, t));
      case Normal(rec) =>
        var href := SignedUrl(rec, p.parameters);
        match lib.sign(ConsumerOf(p.credentials), p.httpMethod, href, token) {
          case Throw(t) =>
            return Err(Failure(HeaderFailedMessage, t));
          case Normal(res) =>
            match lib.toAuthHeader(res) {
              case Throw(t) =>
                return Err(Failure(HeaderFailedMessage, t));
              case Normal(header) =>
                return Ok(header);
            }
        }
    }
  }

  /** The credentials with the token pair removed. */
  function WithoutToken(c: Credentials): Credentials {
    Credentials(c.consumerKey, c.consumerSecret, None, None)
  }

  /** A token without its secret, or a secret without its token, is ignored:
      signing is then two-legged, exactly as with no token at all. */
  lemma UnpairedTokenIgnored(p: SignatureParams, lib: OAuthLibrary, buildUrl: UrlBuilder, parseUrl: string -> Completion<UrlRecord>)
    requires !(p.credentials.token.Some? && p.credentials.token.value != ""
               && p.credentials.tokenSecret.Some? && p.credentials.tokenSecret.value != "")
    ensures GenerateOAuthSignature(p, lib, buildUrl)
         == GenerateOAuthSignature(p.(credentials := WithoutToken(p.credentials)), lib, buildUrl)
    ensures AuthorizationHeaderOf(p, lib, parseUrl)
         == AuthorizationHeaderOf(p.(credentials := WithoutToken(p.credentials)), lib, parseUrl)
  {
    var q := p.(credentials := WithoutToken(p.credentials));
    assert TokenFor(p.credentials) == None == TokenFor(q.credentials);
    assert forall url :: SignCall(p, lib, url) == SignCall(q, lib, url);
  }

  /** Without parameters the URL is signed as the parser read it. */
  lemma NoParametersSignsParsedUrl(rec: UrlRecord, parameters: Option<QueryParams>)
    requires parameters.None? || parameters.value == []
    ensures SignedHref(rec, parameters) == Serialization(rec.head, rec.query, rec.fragment)
  {
  }
}

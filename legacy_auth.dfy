/** The older OAuth helpers (src/auth.ts). Their guard, token pairing and
    error wrapping are those of src/auth/utils.ts; the URL that is signed is
    `buildRequestUrl(url, parameters)`, a helper of src/url.ts, which is not
    part of this model and is a parameter here. Its `generateOAuthSignature`
    is the shared `AuthUtils.GenerateOAuthSignature` with that helper as the
    URL builder. */
module LegacyAuth {
  import opened Wrappers
  import opened CommonTypes
  import opened AuthTypes
  import opened AuthUtils

  /** `createAuthorizationHeader(params)` of src/auth.ts. */
  function CreateAuthorizationHeader(p: SignatureParams, lib: OAuthLibrary, buildRequestUrl: UrlBuilder): (r: Result<string, OAuthError>)
    // The guard comes first.
    ensures !HasConsumerCredentials(p.credentials) ==> r == Err(InvalidCredentialsError())
    ensures r.Err? && r.error.code == InvalidCredentials ==> !HasConsumerCredentials(p.credentials)
    // Only two error codes; a failure inside the `try` carries what was thrown.
    ensures r.Err? ==> r.error.code == InvalidCredentials || r.error.code == SignatureGenerationFailed
    ensures r.Err? && r.error.code == SignatureGenerationFailed ==>
      r.error.message == HeaderFailedMessage && r.error.details.Some? && HasConsumerCredentials(p.credentials)
    ensures HasConsumerCredentials(p.credentials) && buildRequestUrl(p.url, p.parameters).Throw? ==>
      r == Err(Failure(HeaderFailedMessage, buildRequestUrl(p.url, p.parameters).thrown))
    ensures HasConsumerCredentials(p.credentials) && buildRequestUrl(p.url, p.parameters).Normal?
            && SignAndFormat(p, lib, buildRequestUrl(p.url, p.parameters).value).Throw? ==>
      r == Err(Failure(HeaderFailedMessage, SignAndFormat(p, lib, buildRequestUrl(p.url, p.parameters).value).thrown))
    // Success is exactly `toAuthHeader` of the signature of the request URL.
    ensures r.Ok? <==> HasConsumerCredentials(p.credentials) && buildRequestUrl(p.url, p.parameters).Normal?
                       && SignAndFormat(p, lib, buildRequestUrl(p.url, p.parameters).value).Normal?
    ensures r.Ok? ==> r.value == SignAndFormat(p, lib, buildRequestUrl(p.url, p.parameters).value).value
  {
    if !HasConsumerCredentials(p.credentials) then Err(InvalidCredentialsError())
    else
      match buildRequestUrl(p.url, p.parameters)
      case Throw(t) => Err(Failure(HeaderFailedMessage, t))
      case Normal(url) =>
        match SignAndFormat(p, lib, url)
        case Throw(t) => Err(Failure(HeaderFailedMessage, t))
        case Normal(header) => Ok(header)
  }

  /** `createAuthHeader(credentials, method, url, parameters)`: the header
      for those four values; empty consumer credentials are an error whatever
      the library and the URL. */
  function CreateAuthHeader(credentials: Credentials, httpMethod: HttpMethod, url: string, parameters: Option<QueryParams>,
                            lib: OAuthLibrary, buildRequestUrl: UrlBuilder): (r: Result<string, OAuthError>)
    ensures r == CreateAuthorizationHeader(SignatureParams(credentials, httpMethod, url, parameters), lib, buildRequestUrl)
    ensures credentials.consumerKey == "" || credentials.consumerSecret == "" ==>
      r.Err? && r.error.code == InvalidCredentials
  {
    CreateAuthorizationHeader(SignatureParams(credentials, httpMethod, url, parameters), lib, buildRequestUrl)
  }

  /** Both functions sign the same URL with the same token: whenever the
      header is produced, the signature is too, and it is the signature of
      the result the header was formatted from. */
  lemma HeaderAndSignatureSignSameUrl(p: SignatureParams, lib: OAuthLibrary, buildRequestUrl: UrlBuilder)
    requires CreateAuthorizationHeader(p, lib, buildRequestUrl).Ok?
    ensures GenerateOAuthSignature(p, lib, buildRequestUrl).Ok?
    ensures CreateAuthorizationHeader(p, lib, buildRequestUrl).value
         == lib.toAuthHeader(SignCall(p, lib, buildRequestUrl(p.url, p.parameters).value).value).value
    ensures GenerateOAuthSignature(p, lib, buildRequestUrl).value
         == SignCall(p, lib, buildRequestUrl(p.url, p.parameters).value).value.signature
  {
  }

  /** With valid credentials, a URL helper and a signer that succeed, and a
      formatter whose headers start with `"OAuth "`, the header starts with
      `"OAuth "`. */
  lemma HeaderHasOAuthScheme(credentials: Credentials, httpMethod: HttpMethod, url: string, parameters: Option<QueryParams>,
                             lib: OAuthLibrary, buildRequestUrl: UrlBuilder)
    requires HasConsumerCredentials(credentials)
    requires buildRequestUrl(url, parameters).Normal?
    requires lib.sign(ConsumerOf(credentials), httpMethod, buildRequestUrl(url, parameters).value, TokenFor(credentials)).Normal?
    requires forall res :: lib.toAuthHeader(res).Normal? && "OAuth " <= lib.toAuthHeader(res).value
    ensures CreateAuthHeader(credentials, httpMethod, url, parameters, lib, buildRequestUrl).Ok?
    ensures "OAuth " <= CreateAuthHeader(credentials, httpMethod, url, parameters, lib, buildRequestUrl).value
  {
    var p := SignatureParams(credentials, httpMethod, url, parameters);
    var res := SignCall(p, lib, buildRequestUrl(url, parameters).value);
    assert lib.toAuthHeader(res.value).Normal?;
  }
}

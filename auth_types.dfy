/** Credentials, signing requests and OAuth errors (src/types/auth.ts), and
    the interface of the oauth-1a library the signer delegates to. */
module AuthTypes {
  import opened Wrappers
  import opened CommonTypes

  /** Consumer key and secret, and an optional access token and token secret. */
  datatype Credentials = Credentials(
    consumerKey: string,
    consumerSecret: string,
    token: Option<string>,
    tokenSecret: Option<string>)

  /** The complete input to signing: credentials, method, URL and optional parameters. */
  datatype SignatureParams = SignatureParams(
    credentials: Credentials,
    httpMethod: HttpMethod,
    url: string,
    parameters: Option<QueryParams>)

  datatype OAuthErrorCode = SignatureGenerationFailed | NetworkFailure | InvalidCredentials

  datatype OAuthError = OAuthError(code: OAuthErrorCode, message: string, details: Option<Thrown>)

  /** What the library returns from `sign`: the `oauth_*` parameters and the signature. */
  datatype SignResult = SignResult(
    signature: string,
    consumerKey: string,
    nonce: Option<string>,
    signatureMethod: Option<string>,
    timestamp: Option<int>,
    version: Option<string>,
    token: Option<string>)

  /** The library's `{key, secret}` pairs for the consumer and for the token. */
  datatype KeyPair = KeyPair(key: string, secret: string)

  /** The oauth-1a library as the model sees it: `sign` (nonce, timestamp,
      base string and HMAC-SHA1 inside) and `toAuthHeader`, each of which may throw. */
  datatype OAuthLibrary = OAuthLibrary(
    sign: (KeyPair, HttpMethod, string, Option<KeyPair>) -> Completion<SignResult>,
    toAuthHeader: SignResult -> Completion<string>)
}

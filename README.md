# Discogs client core: a verified Dafny model

This project models the deterministic core of the TypeScript Discogs API client (Deno/npm). That core sits around the OAuth 1.0a library and the HTTP transport:

- **URL helpers** (`src/utils/url.ts`)
  - `buildPath` fills `{name}` and `:name` placeholders of an endpoint template. It does this one entry at a time with `String.prototype.replace`.
  - `buildQueryString` serializes query parameters through `URLSearchParams`.
- **Response classification** (`src/utils/api-response.ts`, copied in `src/discogs-client.ts:66-88`). It maps a fetch response onto the client's error taxonomy: `NETWORK_ERROR`, `AUTH_ERROR`, `API_ERROR` and `VALIDATION_ERROR`.
- **The request function of both client variants** (`src/client/discogs-client.ts`, `src/discogs-client.ts`):
  - path and query assembly;
  - the `User-Agent` header merge;
  - a single call to the OAuth client;
  - mapping of OAuth failures to `AUTH_ERROR`.
- **The OAuth helpers** (`src/auth/utils.ts`, `src/auth.ts`):
  - the consumer-credential guard;
  - the rule that a token is used only when it is paired with its secret;
  - the URL that is signed;
  - wrapping of every thrown value into `SIGNATURE_GENERATION_FAILED`.

The model also specifies the two standard behaviours the URL helpers depend on:

- `String.prototype.replace` with a string pattern (ECMAScript GetSubstitution). A replacement value is not literal: `$$`, `$&`, `` $` `` and `$'` are interpreted.
- The application/x-www-form-urlencoded serializer of the WHATWG URL Standard (section 5.2), including UTF-8 encoding. The matching parser (section 5.1) is written out as its inverse.

Code that the repository does not contain is passed in as function parameters:

- the oauth-1a library's `sign` and `toAuthHeader`;
- the OAuth client's `request`;
- the URL parser behind `new URL`;
- `buildUrlWithParams` and `buildRequestUrl`;
- `JSON.parse`;
- `API_BASE_URL`.

Any of these that may throw returns a `Completion`: either a value or a thrown value.

Behaviours of the code worth noting:

- **`buildPath`** (src/utils/url.ts:9-10). Each entry replaces only the first `{key}` and then the first `:key`. The matching is textual, so a key can match the start of a longer placeholder, and the entry order matters.
- **Error kinds** (src/utils/api-response.ts:11-26). A response is classified as `AUTH_ERROR`, `API_ERROR` or `NETWORK_ERROR`. `VALIDATION_ERROR` is never produced.
- **OAuth failures** (src/client/discogs-client.ts:61-66). Every error the OAuth client returns becomes `AUTH_ERROR`, whatever its code.
- **Thrown values** (src/client/discogs-client.ts:54). A rejection of the OAuth client's `request` is not caught: it propagates out of the client's `request`.
- **Unpaired tokens** (src/auth/utils.ts:71-76). A token without its secret, or a secret without its token, is ignored, and signing is then two-legged.

JavaScript objects (`Record<string, …>`) are modelled as sequences of `(key, value)` entries in `Object.entries` order. Property assignment and object spread are written out as `CommonTypes.Set` and `CommonTypes.Spread`.

Files:

| file | module | models |
|---|---|---|
| `wrappers.dfy` | `Wrappers` | `Option`, neverthrow `Result`, thrown values |
| `common_types.dfy` | `CommonTypes` | HTTP method, error taxonomy, records, property assignment and spread |
| `auth_types.dfy` | `AuthTypes` | credentials, signature parameters, OAuth errors, the oauth-1a interface |
| `js_string.dfy` | `JsString` | `String.prototype.replace`, `String(value)` |
| `utf8.dfy` | `Utf8` | UTF-8 encoding and a strict decoder |
| `form_urlencoded.dfy` | `FormUrlencoded` | form-urlencoded serializer and parser, `URLSearchParams` |
| `web_url.dfy` | `WebUrl` | the `URL` object: query, `searchParams.append`, `href` |
| `url_utils.dfy` | `UrlUtils` | `src/utils/url.ts` |
| `api_response.dfy` | `ApiResponse` | `src/utils/api-response.ts` |
| `client.dfy` | `DiscogsClient` | `src/client/discogs-client.ts` |
| `legacy_client.dfy` | `LegacyDiscogsClient` | `src/discogs-client.ts` |
| `auth_utils.dfy` | `AuthUtils` | `src/auth/utils.ts` |
| `legacy_auth.dfy` | `LegacyAuth` | `src/auth.ts` |

## Model

| member | source | states |
|---|---|---|
| UrlUtils.BuildPath | src/utils/url.ts:1-14 | The loop leaves `path` equal to the entries applied one after the other, in entry order, to the template; with no entries the template comes back unchanged |
| UrlUtils.ResolvedPathAppend | src/utils/url.ts:8-11 | Applying two lists of entries one after the other equals applying their concatenation (the loop is a left fold over the entries) |
| UrlUtils.UnmentionedKeysLeaveTemplate | src/utils/url.ts:8-13 | Entries whose `{key}` and `:key` do not occur leave the template unchanged; unresolved placeholders stay, with no error |
| UrlUtils.ResolveColonPlaceholder | src/utils/url.ts:10 | Only the first `:key` is replaced, by the value, and everything after it (including later `:key`) is kept verbatim |
| UrlUtils.ResolveBracePlaceholder | src/utils/url.ts:9 | The first `{key}` is replaced by the value and the rest of the template is kept |
| UrlUtils.LaterDuplicateStays | src/utils/url.ts:8-11 | In `/lists/:id/:id` only the first `:id` is replaced; the second stays verbatim |
| UrlUtils.ReleasePathExample | tests/integration/discogs-client.test.ts:60-64 | `/releases/:release_id` with `{release_id: id}` yields `/releases/` followed by `id` |
| UrlUtils.ShorterKeyFirst | src/utils/url.ts:9-10 | Key `user` applied before `username` rewrites the prefix of `:username`, giving `/users/<user>name` |
| UrlUtils.PrefixKeyCaptures | src/utils/url.ts:9-10 | For any key that is a proper prefix of a later key, applying the shorter key first rewrites the start of the longer placeholder and leaves its tail verbatim |
| UrlUtils.FullKeyReplaces | src/utils/url.ts:9-10 | When the first entry's `:key` is the template's only placeholder, it is replaced by the value and any later entry finds nothing left to replace |
| UrlUtils.LongerKeyFirst | src/utils/url.ts:9-10 | Key `username` applied first replaces the whole placeholder, and `user` then finds nothing |
| UrlUtils.EntryOrderMatters | src/utils/url.ts:8-11 | The two entry orders give `/users/<user>name` and `/users/<username>`, and these agree exactly when the `username` value is the `user` value followed by `name`: the result depends on entry order through textual prefix matching |
| UrlUtils.DollarAmpersandKeepsPlaceholder | src/utils/url.ts:10 | A value `$&` re-inserts the matched placeholder, so the template comes back unchanged (replacement values are not literal) |
| UrlUtils.BuildQueryString | src/utils/url.ts:16-27 | Returns `""` exactly when the parameters are absent or have no keys; otherwise the form-urlencoded serialization of the entries in order, and parsing it gives the entries back |
| JsString.Replace | src/utils/url.ts:9-10 | `replace` with a string pattern: no occurrence gives the string unchanged; otherwise only the first occurrence is replaced by the substitution text |
| JsString.IndexOf | src/utils/url.ts:9-10 | The index found is the first occurrence of the pattern, and none is found exactly when the pattern does not occur |
| JsString.LiteralSubstitution | src/utils/url.ts:9-10 | A replacement value without `$` is inserted literally |
| JsString.NumberTextRoundTrip | src/utils/url.ts:9-10 | `String(n)` of an integer reads back as `n` and contains no `$`, so a numeric value is inserted literally |
| Utf8.DecodeEncode | src/utils/url.ts:21-26 | Decoding the UTF-8 encoding of a string gives it back (the bytes the query serializer percent-encodes determine the text) |
| FormUrlencoded.ParseSerialize | src/utils/url.ts:21-26 | Form-urlencoded parsing of the serialization of any list of pairs gives the same pairs back, in order |
| FormUrlencoded.SerializeAlphabet | src/utils/url.ts:26 | The serialization holds only alphanumerics and `*-._+%&=`, in particular never `?` or `#` |
| FormUrlencoded.SerializeNonEmpty | src/utils/url.ts:19-26 | A non-empty list serializes to a non-empty string containing `=` |
| FormUrlencoded.SearchParams.constructor | src/utils/url.ts:21 | `new URLSearchParams()` holds the empty list |
| FormUrlencoded.SearchParams.FromList | src/auth/utils.ts:79 | The search parameters of a parsed URL hold the parser's list |
| FormUrlencoded.SearchParams.Append | src/utils/url.ts:22-24 | `append` adds the pair at the end and keeps every earlier pair, including ones with the same name |
| FormUrlencoded.SearchParams.ToString | src/utils/url.ts:26 | `toString()` returns a string that parses back to the current list |
| ApiResponse.HandleApiResponse | src/utils/api-response.ts:5-27 | A failed body read gives NETWORK_ERROR without status. A non-ok status gives an error with `statusCode` = status, AUTH_ERROR exactly for 401 and API_ERROR otherwise, and message = body text or `statusText` when the body is empty. An ok response gives `ok(parsed)`, or NETWORK_ERROR without status when parsing throws. VALIDATION_ERROR and `details` never appear |
| ApiResponse.ThrownMessage | src/utils/api-response.ts:23 | The message of an `Error` instance, and `"Unknown error"` for any other thrown value |
| ApiResponse.NotOkIgnoresParser | src/utils/api-response.ts:11-19 | A non-ok response never reaches the parser: any two parsers give the same result, and an unparseable 500 body is API_ERROR, not NETWORK_ERROR |
| ApiResponse.ErrorKindOrigin | src/utils/api-response.ts:9-26 | NETWORK_ERROR arises exactly from a throw (body read or parse); AUTH_ERROR/API_ERROR exactly from a non-ok status |
| ApiResponse.SuccessCondition | src/utils/api-response.ts:19-20 | The result is `ok` exactly when the body was read, the status is ok and the body parses |
| CommonTypes.Keys | src/client/discogs-client.ts:48-51 | The keys of a record are exactly the keys of its entries |
| CommonTypes.Get | src/client/discogs-client.ts:48-51 | A key has a value exactly when it is a key of the record (the later entry wins) |
| CommonTypes.SetGet | src/client/discogs-client.ts:48-51 | After a property assignment the key holds the new value and every other key keeps its value |
| CommonTypes.SetKeys | src/client/discogs-client.ts:48-51 | A property assignment adds its key and no other |
| CommonTypes.SetFirst | src/client/discogs-client.ts:48-51 | A property assignment never moves the first key |
| CommonTypes.SetDistinct | src/client/discogs-client.ts:48-51 | A property assignment keeps keys distinct |
| CommonTypes.SpreadGet | src/client/discogs-client.ts:48-51 | In `{...target, ...source}` a key takes the value from `source` when `source` has it (later spread wins) and from `target` otherwise |
| CommonTypes.SpreadKeys | src/client/discogs-client.ts:48-51 | The spread object's keys are those of both objects |
| CommonTypes.SpreadFirst | src/client/discogs-client.ts:48-51 | The first key of `target` stays first in the spread object |
| CommonTypes.SpreadDistinct | src/client/discogs-client.ts:48-51 | Spreading into an object with distinct keys keeps them distinct |
| DiscogsClient.BaseUrl | src/client/discogs-client.ts:23-26 | The OAuth client's base URL is `config.baseUrl` when present and non-empty, and `API_BASE_URL` otherwise |
| DiscogsClient.QueryStrings | src/utils/url.ts:22-24 | Each query value is stored as `String(value)`, with keys and order kept |
| DiscogsClient.Request | src/client/discogs-client.ts:29-72 | A rejected OAuth call propagates; any OAuth error (whatever its code) becomes AUTH_ERROR with the same message and no status code, skipping response handling; a response is classified by `handleApiResponse`; VALIDATION_ERROR never appears |
| DiscogsClient.OneOAuthCall | src/client/discogs-client.ts:54-58 | The OAuth client is consulted once, with the caller's method unchanged, the full path and options holding only the merged headers: two OAuth clients agreeing on that one call give the same outcome |
| DiscogsClient.MergeHeadersProperties | src/client/discogs-client.ts:48-51 | `User-Agent` is the caller's when given and `config.userAgent` otherwise; other caller headers pass through unchanged; no other key is added; `User-Agent` is the first key; keys are distinct |
| DiscogsClient.FullPathShape | src/client/discogs-client.ts:45 | With a query free of `?`, the full path is the path, then (when the query is non-empty) one `?` and the query; exactly one `?` is added |
| DiscogsClient.RequestQueryProperties | src/client/discogs-client.ts:44 | The query string is empty exactly when there are no query parameters, holds no `?`, and parses back to the parameters as `String` wrote them |
| DiscogsClient.SentPathShape | src/client/discogs-client.ts:38-45 | The path sent is `buildPath(endpoint, pathParams or {})`, plus `?` and the query string exactly when that is non-empty; at most one `?` is added |
| DiscogsClient.ReleaseRequest | tests/integration/discogs-client.test.ts:60-64 | `GET /releases/:release_id` with `{release_id: id}` sends `/releases/` followed by `id`, with the configured `User-Agent` as its only header |
| LegacyDiscogsClient.Request | src/discogs-client.ts:24-62 | Same outcome rules as the newer client: propagation of a rejection, AUTH_ERROR with the OAuth message and no status for any OAuth error, otherwise the response classification of the local `handleApiResponse` (lines 66-88) |
| LegacyDiscogsClient.TextValues | src/discogs-client.ts:38 | String query values seen as string-or-number values, one per entry, in order |
| LegacyDiscogsClient.QueryStringsOfText | src/discogs-client.ts:38 | Converting string values with `String` leaves them unchanged |
| LegacyDiscogsClient.AgreesWithClient | src/discogs-client.ts:33-61 | The older client sends the same path and returns the same result as the newer client on the same string parameters |
| LegacyDiscogsClient.AsWrittenAlwaysRejects | src/discogs-client.ts:46-50 | With the OAuth client it is built with (src/auth/oauth-client.ts:36-38, which has no `request`), every request of the older client rejects with a `TypeError`, whatever the parameters |
| WebUrl.QueryOf | src/auth/utils.ts:82 | After an update the URL has no query exactly when the list is empty |
| WebUrl.QueryOfParses | src/auth/utils.ts:82 | The query written back after an update parses back to the whole list |
| WebUrl.Url.constructor | src/auth/utils.ts:79 | `new URL` holds the parsed head, query, fragment and a fresh search-params list |
| WebUrl.Url.AppendSearchParam | src/auth/utils.ts:82 | `url.searchParams.append` adds the pair at the end and rewrites the URL's query to the serialization of the whole list (so the query is present) |
| WebUrl.Url.Href | src/auth/utils.ts:86 | `url.toString()` starts with the URL's head |
| AuthUtils.TokenFor | src/auth/utils.ts:27-32 | A token pair is passed exactly when both `token` and `tokenSecret` are present and non-empty, and it is made of those two |
| AuthUtils.SignAndFormat | src/auth/utils.ts:86-91 | The header exists exactly when signing and formatting both return, and it is `toAuthHeader` of the sign result; a throw from signing is passed on unchanged, and otherwise the outcome (value or throw) is that of `toAuthHeader` |
| AuthUtils.GenerateOAuthSignature | src/auth/utils.ts:6-48 | An empty consumer key or secret gives INVALID_CREDENTIALS before any other call. INVALID_CREDENTIALS arises only from that guard. Only INVALID_CREDENTIALS or SIGNATURE_GENERATION_FAILED can come out, the latter with the thrown value as `details`. Success happens exactly when URL building and signing return, and then yields `oauth_signature` |
| AuthUtils.SignedQueryKeepsExisting | src/auth/utils.ts:79-84 | Without parameters the URL's query is unchanged; with parameters it parses back to the URL's existing pairs followed by every parameter in entry order |
| AuthUtils.AuthorizationHeaderOf | src/auth/utils.ts:50-99 | The credential guard comes first, so even an unparseable URL gives INVALID_CREDENTIALS, and INVALID_CREDENTIALS arises only from the guard. A throw from URL parsing, signing or formatting gives SIGNATURE_GENERATION_FAILED with the thrown value as `details`. Success is exactly `toAuthHeader(sign(url with parameters appended))` |
| AuthUtils.SignedUrl | src/auth/utils.ts:79-86 | The appending loop on a `URL` object yields the URL text whose query holds the existing pairs followed by the parameters |
| AuthUtils.CreateAuthorizationHeader | src/auth/utils.ts:50-99 | The header is produced step by step, mutating a `URL` object, and equals `AuthorizationHeaderOf` |
| AuthUtils.UnpairedTokenIgnored | src/auth/utils.ts:71-76 | A token without its secret (or the reverse) is ignored: both functions give what they give with no token at all |
| AuthUtils.NoParametersSignsParsedUrl | src/auth/utils.ts:80 | Without parameters the URL is signed as parsed |
| LegacyAuth.CreateAuthorizationHeader | src/auth.ts:58-103 | Guard first, and INVALID_CREDENTIALS only from the guard; only INVALID_CREDENTIALS or SIGNATURE_GENERATION_FAILED; a throw from URL building, signing or formatting gives SIGNATURE_GENERATION_FAILED with the thrown value as `details`; success is exactly `toAuthHeader(sign(buildRequestUrl(url, parameters)))` |
| LegacyAuth.CreateAuthHeader | src/auth.ts:105-117 | Equals `createAuthorizationHeader` on the four values; empty consumer credentials give INVALID_CREDENTIALS |
| LegacyAuth.HeaderAndSignatureSignSameUrl | src/auth.ts:13-103 | `generateOAuthSignature` and `createAuthorizationHeader` both sign `buildRequestUrl(url, parameters)` with the same consumer pair and token: when the header is produced, the signature is too, and both are stated in terms of that one `sign` call |
| LegacyAuth.HeaderHasOAuthScheme | tests/unit/auth/oauth-client.test.ts:31-51 | With valid credentials, a URL and a signer that return, and a formatter that writes `OAuth ` headers, `createAuthHeader` succeeds with a header starting with `OAuth ` |

## Left out

- The oauth-1a library (nonce, timestamp, signature base string, HMAC-SHA1, header formatting; sections 3.4 and 3.5.1 of RFC 5849) is not part of this repository. `sign` and `toAuthHeader` are opaque functions that may throw. Two calls with the same inputs are taken to give the same outcome, so nonce randomness and the clock are not modelled.
- `new oauth.OAuthClient(...)` is assumed not to throw.
- `buildUrlWithParams` (imported by src/auth/utils.ts) and `buildRequestUrl` (src/url.ts) are not part of this model. They are parameters that return the URL text or throw.
- The `@/auth/client.ts` OAuth client, its `request` and `API_BASE_URL` are not part of this model; they are parameters.
- The src/auth/oauth-client.ts that src/discogs-client.ts imports exposes only `createAuthHeader`, with no `request` (see Findings). `LegacyDiscogsClient.Request` gives the older client the same abstract `request` as the newer one.
- The URL parser behind `new URL` is a parameter. It returns the head (scheme, authority, path), the query, the fragment and its search list, or it throws.
- `fetch`, `Response.text()` and `JSON.parse` are abstracted. A response is its status, status text and body-read outcome, and parsing is a function that returns a value or throws.
- `response.ok` is taken as "status in 200-299", as the Fetch standard defines it.
- Promises and `async`/`await` are flattened into return values.
- `DiscogsClientOptions` (`timeout`, `retries`) is accepted by the source but unused, and it is not modelled.
- `Object.entries` order is taken as the entry sequence given. JavaScript's reordering of integer-like keys to the front is not modelled.
- `JsString.ToText`: only integral numbers are modelled. Fractions, exponent notation, `NaN` and `Infinity` are not.
- `Utf8.Encode`: strings are sequences of Unicode scalar values. Lone surrogates, which `URLSearchParams` replaces with U+FFFD, are not modelled.
- `FormUrlencoded.Parse`: it uses a strict UTF-8 decoder. The standard's parser uses decoding with replacement. Both agree on the serializer's output, which is the only place the parser is used.
- Header names are compared exactly. HTTP's case-insensitivity of header names is not modelled: the spread in the source is case-sensitive too.
- The local `handleApiResponse` of src/discogs-client.ts (lines 66-88) is the same text as src/utils/api-response.ts. It is modelled once, as `ApiResponse.HandleApiResponse`.
- `generateOAuthSignature` of src/auth.ts (lines 13-56) differs from the one in src/auth/utils.ts only in its URL helper. It is `AuthUtils.GenerateOAuthSignature` with `buildRequestUrl` as the URL builder.
- Not modelled:
  - build scripts;
  - type-only files, including the endpoint-to-response map, which exists only at compile time;
  - re-export modules;
  - the tests, which serve only as evidence for properties.

## Findings

| source | as written | input that shows it | evidently intended | confidence | as-written member | corrected member |
|---|---|---|---|---|---|---|
| src/discogs-client.ts:46-50 | calls `oauthClient.request(...)` on the object `createOAuthClient` returns (src/auth/oauth-client.ts:36-38), which has only `createAuthHeader`, so the call throws a `TypeError` | any request, e.g. `GET /releases/:release_id` with `{release_id: 249504}` | an OAuth client whose `request` signs and sends the request, as in src/client/discogs-client.ts:54-58 | not executed | LegacyDiscogsClient.AsWrittenAlwaysRejects | LegacyDiscogsClient.AgreesWithClient |

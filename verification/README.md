# Rehyved HTTP client, modelled in Dafny

The model covers the core of the Rehyved PHP HTTP client. That core has five parts:

- `HttpRequest`: a fluent builder for a request. It holds headers, query parameters, cookies, credentials, a timeout and the SSL flag. It turns them into a URL, header lines, a cookie string and an encoded body.
- `HttpResponse`: built from what the transfer reports. It holds the header callback's collected headers, the `Set-Cookie` headers parsed into cookies, and the body with the header block cut off. It also holds lookups for headers, cookies and decoded content.
- `HttpCookie`: the `Set-Cookie` parser.
- `HttpStatus`: the table of reason phrases and the status-class predicates.
- The legacy `HttpResponse` kept at the top of the repository.

Each PHP builder method becomes a pure function from request to request. PHP's ordered arrays become association lists (`OrderedMap`). The PHP string built-ins the core relies on are modelled in `PhpStrings`:

- `empty`, `trim`, `explode`, `implode`, `stripos` and `strpos`, and `substr`.

Other PHP built-ins are modelled in their own modules:

- `urlencode` and `http_build_query` in `QueryString`;
- the two `preg_replace` clean-ups of `buildUrl` in `Rewrites`;
- the boundary regular expression in `RequestBody`.

Some things the library cannot see become function parameters: the transfer's result and `curl_getinfo` data, `strtotime`, `json_encode`/`json_decode`, `simplexml_load_string` and `uniqid`.

A string is a sequence of Unicode code points (`seq<char>`). PHP holds the same text as its UTF-8 bytes. The delimiters, the trim set and the case folding the library uses are all ASCII, so both readings agree on them. `urlencode` works on the UTF-8 bytes, and `QueryString.Utf8` models that encoding step.

Exceptions become the `Failure` side of a `Result`. `InvalidArgument` stands for `\InvalidArgumentException` and `RequestFailed` for `HttpRequestException`.

Files:

| file | module | contents |
|---|---|---|
| results.dfy | Results | `Option`, `Result`, the two exception kinds |
| php_strings.dfy | PhpStrings | PHP string built-ins |
| ordered_map.dfy | OrderedMap | PHP arrays keyed by string: single-valued and list-valued |
| rewrites.dfy | Rewrites | the two URL clean-up rewrites |
| query_string.dfy | QueryString | `urlencode`, `http_build_query` and their decoders |
| http_status.dfy | HttpStatus | `HttpStatus` |
| http_cookie.dfy | HttpCookie | `HttpCookie` |
| request_body.dfy | RequestBody | `processBody`, the boundary regex, multipart bodies |
| http_request.dfy | HttpRequest | the builder, `buildUrl`, header and cookie lines, credentials |
| header_callback.dfy | HeaderCallback | the response-header callback of `send` |
| http_response.dfy | HttpResponse | `send`'s outcome and the current `HttpResponse` |
| legacy_http_response.dfy | LegacyHttpResponse | the legacy `HttpResponse` |

## Model

| member | source | states |
|---|---|---|
| HttpStatus.GetReasonPhrase | src/rehyved/Http/HttpStatus.php:183-189 | succeeds exactly for codes in the reason-phrase table and returns that phrase; every other code fails with an invalid-argument error "Invalid status code" |
| HttpStatus.ReasonPhrase | src/rehyved/Http/HttpStatus.php:69-115 | the reason-phrase table, code by code; TabledCodesAreClassified and KnownReasonPhrases state what it holds |
| HttpStatus.IsInformational | src/rehyved/Http/HttpStatus.php:122-125 | `100 <= code < 200`; related to the hundreds class by ClassifiersMatchClassOf |
| HttpStatus.IsSuccessful | src/rehyved/Http/HttpStatus.php:132-135 | `200 <= code < 300`; related to the hundreds class by ClassifiersMatchClassOf |
| HttpStatus.IsRedirection | src/rehyved/Http/HttpStatus.php:142-145 | `300 <= code < 400`; related to the hundreds class by ClassifiersMatchClassOf |
| HttpStatus.IsClientError | src/rehyved/Http/HttpStatus.php:152-155 | `400 <= code < 500`; related to the hundreds class by ClassifiersMatchClassOf |
| HttpStatus.IsServerError | src/rehyved/Http/HttpStatus.php:162-165 | `500 <= code < 600`; related to the hundreds class by ClassifiersMatchClassOf |
| HttpStatus.IsError | src/rehyved/Http/HttpStatus.php:172-175 | `400 <= code < 600`; shown equal to the union of the two error classes by IsErrorIsUnion |
| HttpStatus.ClassifiersMatchClassOf | src/rehyved/Http/HttpStatus.php:122-165 | each of the five class predicates holds exactly when the code's hundreds class (1xx..5xx) is that class |
| HttpStatus.ClassifiersPartition | src/rehyved/Http/HttpStatus.php:122-165 | every code in 100..599 satisfies exactly one class predicate; codes outside it satisfy none |
| HttpStatus.IsErrorIsUnion | src/rehyved/Http/HttpStatus.php:172-175 | `isError` is exactly "client error or server error" |
| HttpStatus.ClassifierBoundaries | src/rehyved/Http/HttpStatus.php:122-175 | the range ends are inclusive below and exclusive above: 100 and 199 are informational, 200 is not, 599 is a server error, 600 is not, 399 is no error, 400 is |
| HttpStatus.TabledCodesAreClassified | src/rehyved/Http/HttpStatus.php:69-115 | a code has a reason phrase exactly when it is one of the tabled codes, and every tabled code lies in exactly one class |
| HttpStatus.TabledCodesAscending | src/rehyved/Http/HttpStatus.php:13-67 | the table holds 40 codes in strictly ascending order, so none is repeated |
| HttpStatus.ReasonPhraseOnlyForClassified | src/rehyved/Http/HttpStatus.php:183-189 | a code outside every class never has a reason phrase |
| HttpStatus.KnownReasonPhrases | src/rehyved/Http/HttpStatus.php:93-97 | 404 reads "Not Found" and 408 reads "Request Time-out", the table's spelling |
| HttpStatus.UnknownCodesFail | src/rehyved/Http/HttpStatus.php:183-189 | 306, 208, 418, 99 and 600 have no phrase, so the lookup fails |
| HttpCookie.ParseSegment | src/rehyved/Http/HttpCookie.php:21-23 | one `;`-part becomes a trimmed key without `=`; the value is `false` exactly when the part has no `=`, and otherwise is the trimmed text up to the next `=` |
| HttpCookie.Classify | src/rehyved/Http/HttpCookie.php:24-41 | the `stripos` chain: the first keyword, in the source's order, occurring in the key in any case, else a name part; see SubstringKeyIsAttribute and EmptyKeyIsName |
| HttpCookie.Parse | src/rehyved/Http/HttpCookie.php:17-43 | the constructor: split at `;`, trim, and apply each part in order from the defaults; its results are stated by ApplyAllLastValue, ApplyAllLastName, ApplyAllLastExpires, ApplyAllFlags and the Parse lemmas below |
| HttpCookie.StepField | src/rehyved/Http/HttpCookie.php:24-41 | one part sets exactly the field its key selects and leaves every other stored field alone |
| HttpCookie.ApplyAllLastValue | src/rehyved/Http/HttpCookie.php:19-42 | after all parts, each value-carrying attribute (Max-Age, Domain, Path, SameSite, value) holds the value of the last part of that kind, or its default if there is none |
| HttpCookie.ApplyAllLastName | src/rehyved/Http/HttpCookie.php:38-41 | the cookie's name is the key of the last part that matches no attribute keyword |
| HttpCookie.ApplyAllLastExpires | src/rehyved/Http/HttpCookie.php:24-25 | `expires` is `strtotime` of the last Expires part's value |
| HttpCookie.ApplyAllFlags | src/rehyved/Http/HttpCookie.php:32-35 | `secure` and `httpOnly` are set exactly when a part of that kind occurs, or when they were already set |
| HttpCookie.ParseIsHttpOnly | src/rehyved/Http/HttpCookie.php:14 | since the default is `true` and parts only ever set it, every parsed cookie is HttpOnly |
| HttpCookie.ParseSecureIff | src/rehyved/Http/HttpCookie.php:13 | a parsed cookie is secure exactly when some part classifies as Secure |
| HttpCookie.ParseWithoutAttributes | src/rehyved/Http/HttpCookie.php:7-15 | a header of plain name=value parts keeps every default: path `/`, not secure, HttpOnly, no expiry, max-age, domain or SameSite |
| HttpCookie.EmptyKeyIsName | src/rehyved/Http/HttpCookie.php:24-41 | an empty key matches no keyword and so names the cookie |
| HttpCookie.ParseTrailingSemicolon | src/rehyved/Http/HttpCookie.php:19-41 | a trailing `;` adds an empty last part that resets the name to "" and the value to `false` |
| HttpCookie.SegmentValueIsSecondPiece | src/rehyved/Http/HttpCookie.php:21-23 | in `k=v=rest` the value is the trimmed `v`; the text after the second `=` is dropped |
| HttpCookie.SegmentWithoutValue | src/rehyved/Http/HttpCookie.php:23 | a part without `=` has the trimmed part as its key and `false` as its value |
| HttpCookie.ValueStopsAtSecondEquals | src/rehyved/Http/HttpCookie.php:21-23 | `a=b=c` reads as key `a`, value `b` |
| HttpCookie.SubstringKeyIsAttribute | src/rehyved/Http/HttpCookie.php:30 | keys are matched by case-insensitive substring, so a key `xpath` sets the path |
| HttpCookie.ParseNamePathFlag | src/rehyved/Http/HttpCookie.php:17-43 | `n=v; pk=pv; flag` with a Path key and an HttpOnly flag gives name `n`, value `v`, path `pv`, HttpOnly, not secure, and no expiry or domain |
| HttpCookie.ExampleSessionCookie | src/rehyved/Http/HttpCookie.php:17-43 | `session=abc; Path=/; HttpOnly` parses to name `session`, value `abc`, path `/`, HttpOnly |
| RequestBody.ParseBoundary | src/rehyved/Http/HttpRequest.php:404-411 | succeeds exactly when `boundary="` followed by a non-empty quote-free run and a closing quote occurs, matched case-insensitively; the result is non-empty and quote-free; otherwise it fails with the missing-boundary invalid-argument error |
| RequestBody.ParseBoundaryOf | src/rehyved/Http/HttpRequest.php:407-408 | when no earlier key occurrence exists, the captured text is exactly the quoted boundary |
| RequestBody.NoKeyNoBoundary | src/rehyved/Http/HttpRequest.php:407-410 | a content type without `boundary="` in any case is rejected |
| RequestBody.EmptyBoundaryRejected | src/rehyved/Http/HttpRequest.php:407-410 | `boundary=""` does not match, because the pattern needs at least one character |
| RequestBody.PartOfShape | src/rehyved/Http/HttpRequest.php:417-430 | a field yields text exactly when it is an array or a non-empty scalar; the text opens with `--boundary`, carries the `form-data; name="…"` disposition and ends with the data and a newline |
| RequestBody.FilenameIffSet | src/rehyved/Http/HttpRequest.php:419-425 | an array field carries `;filename="` (left unclosed, as written) exactly when it has a `filename` entry |
| RequestBody.Multipart | src/rehyved/Http/HttpRequest.php:433-434 | every multipart body ends with the closing delimiter `--boundary--` |
| RequestBody.PartsConcat | src/rehyved/Http/HttpRequest.php:417-431 | the parts of a concatenation of fields are the concatenation of the parts |
| RequestBody.MultipartOfKept | src/rehyved/Http/HttpRequest.php:428 | dropping the fields that produce nothing (empty scalars) does not change the body |
| RequestBody.KeptPartsDelimited | src/rehyved/Http/HttpRequest.php:422-429 | every field that produces text contributes a part that starts with the delimiter |
| RequestBody.MultipartOfNothing | src/rehyved/Http/HttpRequest.php:415-434 | with no productive field the body is just `--boundary--` |
| RequestBody.KeptAreFromFields | src/rehyved/Http/HttpRequest.php:417 | the productive fields are drawn from the input fields |
| RequestBody.NestedKeyEncoding | src/rehyved/Http/HttpRequest.php:393 | a nested field `name[sub]` is encoded with `%5B`/`%5D` around the encoded sub-key |
| RequestBody.FirstContentType | src/rehyved/Http/HttpRequest.php:388-389 | the content type used is the first `Content-Type` value when there is one, and none otherwise |
| RequestBody.EncodingFor | src/rehyved/Http/HttpRequest.php:390-397 | JSON wins when `application/json` occurs (any case), then form encoding, then multipart; otherwise the body is passed through |
| RequestBody.ProcessBody | src/rehyved/Http/HttpRequest.php:383-402 | no body sends nothing; a string body is sent unchanged; a structured body is passed through without a content type, encoded as the first content type says, and fails only for multipart without a boundary |
| RequestBody.ProcessBodyEncodes | src/rehyved/Http/HttpRequest.php:388-397 | the encodings are JSON via the encoder, the `http_build_query` of the form pairs, and the multipart body with the parsed boundary |
| QueryString.Utf8 | src/rehyved/Http/HttpRequest.php:349 | the UTF-8 encoding that `urlencode` percent-encodes: each code point becomes one to four bytes, and exactly the ASCII code points take a single byte, which equals the code point |
| QueryString.PercentByte | src/rehyved/Http/HttpRequest.php:349 | a byte becomes `%` and two hex digits whose value is the byte |
| QueryString.UrlEncode | src/rehyved/Http/HttpRequest.php:349 | `urlencode`: unreserved characters kept, space as `+`, everything else as `%XX` of its UTF-8 bytes; stated by the UrlEncode lemmas and DecodeUrlEncode |
| QueryString.UrlEncodeAlphabet | src/rehyved/Http/HttpRequest.php:349 | the encoding uses only ASCII letters, digits, `-_.`, `+` and `%` |
| QueryString.UrlEncodeHasNoSeparators | src/rehyved/Http/HttpRequest.php:349 | an encoded name or value holds no `&`, `=` or `/` |
| QueryString.UrlEncodeAppend | src/rehyved/Http/HttpRequest.php:349 | encoding distributes over concatenation |
| QueryString.UrlEncodeUnreserved | src/rehyved/Http/HttpRequest.php:349 | letters, digits and `-_.` pass through unchanged |
| QueryString.DecodeUrlEncode | src/rehyved/Http/HttpRequest.php:349 | decoding the encoding gives back the UTF-8 bytes of the input |
| QueryString.UrlEncodeInjective | src/rehyved/Http/HttpRequest.php:349 | two strings with the same encoding have the same UTF-8 bytes |
| QueryString.BuildQuery | src/rehyved/Http/HttpRequest.php:349 | `http_build_query` of a flat string map: encoded `key=value` pairs joined by `&`; stated by BuildQueryRoundTrip and BuildQueryHasNoSlash |
| QueryString.BuildQueryRoundTrip | src/rehyved/Http/HttpRequest.php:348-349 | splitting a built query at `&` and `=` and decoding gives back every key and value, in order |
| QueryString.BuildQueryHasNoSlash | src/rehyved/Http/HttpRequest.php:349-353 | a built query holds no `/`, so the slash clean-up cannot touch it |
| Rewrites.CollapseRunFree | src/rehyved/Http/HttpRequest.php:353 | after the rewrite, no run of two or more `/` follows a character other than `:` |
| Rewrites.CollapseFixedPoints | src/rehyved/Http/HttpRequest.php:353 | the rewrite leaves a URL unchanged exactly when it has no such run |
| Rewrites.CollapseIdempotent | src/rehyved/Http/HttpRequest.php:353 | rewriting twice equals rewriting once |
| Rewrites.StripIndexFree | src/rehyved/Http/HttpRequest.php:354 | after the rewrite no `%5B` digits `%5D` index remains |
| Rewrites.StripFixedPoints | src/rehyved/Http/HttpRequest.php:354 | the rewrite leaves a URL unchanged exactly when it holds no such index |
| Rewrites.StripKeepsRunFree | src/rehyved/Http/HttpRequest.php:353-354 | removing indexes creates no new run of slashes |
| Rewrites.CollapseRuns | src/rehyved/Http/HttpRequest.php:353 | `preg_replace('/([^:])(\/{2,})/', '$1/', $url)` as a left-to-right scan; its meaning is stated by CollapseRunFree, CollapseFixedPoints and CollapseKeepsOtherChars |
| Rewrites.CollapseKeepsOtherChars | src/rehyved/Http/HttpRequest.php:353 | the slash rewrite only removes slashes: any other character occurs after it exactly when it occurred before |
| Rewrites.StripIndexes | src/rehyved/Http/HttpRequest.php:354 | `preg_replace('/%5B[0-9]+%5D/simU', '%5B%5D', $url)` as a left-to-right scan; its meaning is stated by StripIndexFree, StripFixedPoints and StripKeepsOtherChars |
| Rewrites.StripKeepsOtherChars | src/rehyved/Http/HttpRequest.php:354 | the index rewrite only touches `%`, digits and the hex letters B and D: any other character occurs after it exactly when it occurred before |
| HttpRequest.MethodNameRoundTrip | src/rehyved/Http/HttpMethod.php:11-18 | the eight method names are distinct and read back to their method |
| HttpRequest.Create | src/rehyved/Http/HttpRequest.php:36-55 | a new request has the base URL, the default headers, timeout and SSL flag, no parameters, no cookies and no credentials |
| HttpRequest.Header | src/rehyved/Http/HttpRequest.php:63-71 | appends the value to the name's list, creating the name at the end if new; no other header or field changes |
| HttpRequest.HeadersCollect | src/rehyved/Http/HttpRequest.php:78-85 | adding many headers appends each name's values in order |
| HttpRequest.Headers | src/rehyved/Http/HttpRequest.php:78-85 | `headers($headers)`: `header` for each pair in order, changing no other field; the values are stated by HeadersCollect |
| HttpRequest.ContentType | src/rehyved/Http/HttpRequest.php:92-105 | appends one `Content-Type` value and changes nothing else |
| HttpRequest.ContentTypeOnlyTrims | src/rehyved/Http/HttpRequest.php:94-102 | a type that is not multipart, or already names a boundary, is stored trimmed and otherwise unchanged |
| HttpRequest.ContentTypeBoundaryRoundTrip | src/rehyved/Http/HttpRequest.php:92-105 | for a multipart type without a boundary, the synthesised parameter is exactly the one the body encoder later parses back |
| HttpRequest.MultipartTrailingSemicolon | src/rehyved/Http/HttpRequest.php:97-101 | `type;` gets `; boundary="id"` with the doubled `;` collapsed to one |
| HttpRequest.MultipartFormDataExample | src/rehyved/Http/HttpRequest.php:92-105 | `multipart/form-data;` becomes `multipart/form-data; boundary="id"` |
| HttpRequest.Accept | src/rehyved/Http/HttpRequest.php:112-117 | appends the trimmed type to `Accept` and changes nothing else |
| HttpRequest.Authorization | src/rehyved/Http/HttpRequest.php:125-134 | fails with "Scheme was null or empty" or "Value was null or empty", in that order of checks; otherwise appends `scheme value` to `Authorization` and changes nothing else |
| HttpRequest.Parameter | src/rehyved/Http/HttpRequest.php:142-147 | sets the parameter, replacing an earlier value in place; other parameters and fields are unchanged |
| HttpRequest.ParametersLastWins | src/rehyved/Http/HttpRequest.php:154-161 | after many parameters, each name holds its last value, and names not given keep their old value |
| HttpRequest.Parameters | src/rehyved/Http/HttpRequest.php:154-161 | `parameters($parameters)`: each pair set in order, changing no other field; stated by ParametersLastWins |
| HttpRequest.Cookie | src/rehyved/Http/HttpRequest.php:169-175 | a cookie named `Array` is ignored; any other sets the value and leaves everything else alone |
| HttpRequest.CookiesLastWins | src/rehyved/Http/HttpRequest.php:183-193 | after many cookies, each name other than `Array` holds its last value |
| HttpRequest.Cookies | src/rehyved/Http/HttpRequest.php:183-193 | `cookies($cookies)` for an explicit list: `cookie` for each pair in order, changing no other field; stated by CookiesLastWins |
| HttpRequest.BasicAuthentication | src/rehyved/Http/HttpRequest.php:201-206 | records the user name and password and nothing else |
| HttpRequest.Timeout | src/rehyved/Http/HttpRequest.php:213-217 | sets the timeout and nothing else |
| HttpRequest.VerifySslCertificate | src/rehyved/Http/HttpRequest.php:226-230 | sets the SSL flag and nothing else |
| HttpRequest.HeaderOption | src/rehyved/Http/HttpRequest.php:359-371 | header lines are passed to the transfer only when there is at least one |
| HttpRequest.HeaderLines | src/rehyved/Http/HttpRequest.php:361-366 | one `name: value` line per stored value, as many as the flattened headers; stated by HeaderLinesCarryValues and HeaderAddsOneLine |
| HttpRequest.HeaderLinesCarryValues | src/rehyved/Http/HttpRequest.php:361-366 | the lines carry each name's values in order, one `name: value` line each |
| HttpRequest.HeaderAddsOneLine | src/rehyved/Http/HttpRequest.php:63-71 | adding a header inserts exactly one line, after that name's existing lines, or at the end for a new name |
| HttpRequest.CookieStringRoundTrip | src/rehyved/Http/HttpRequest.php:373-381 | the `;`-joined cookie string reads back to the same cookies |
| HttpRequest.CookieString | src/rehyved/Http/HttpRequest.php:373-381 | the `name=value` pairs joined by `;`; stated by CookieStringRoundTrip |
| HttpRequest.UserPwd | src/rehyved/Http/HttpRequest.php:317-320 | credentials are sent exactly when the user name is set and not PHP-empty |
| HttpRequest.CredentialsRoundTrip | src/rehyved/Http/HttpRequest.php:317-320 | `user:password` splits back at its first `:` into the two parts |
| HttpRequest.CleanUrl | src/rehyved/Http/HttpRequest.php:352-354 | the cleaned URL has no slash run after a non-`:` character and no numeric `%5B…%5D` index |
| HttpRequest.CleanUrlFixedPoints | src/rehyved/Http/HttpRequest.php:352-354 | cleaning leaves a URL unchanged exactly when it is already free of both patterns |
| HttpRequest.CleanUrlIdempotent | src/rehyved/Http/HttpRequest.php:352-354 | cleaning twice equals cleaning once |
| HttpRequest.BuildUrl | src/rehyved/Http/HttpRequest.php:341-357 | every built URL is free of both clean-up patterns; what the path and the parameters add is stated by JoinUrlParts, BuildUrlEmptyPath, BuildUrlOfBase and BuildUrlQueryMark |
| HttpRequest.JoinUrl | src/rehyved/Http/HttpRequest.php:343-350 | the URL before cleaning: the base, then `/path` for a path that is not PHP-empty, then `?` and the query when there are parameters; stated by JoinUrlParts |
| HttpRequest.JoinUrlParts | src/rehyved/Http/HttpRequest.php:343-350 | the URL starts with the base; with no parameters it is the base alone exactly when the path is `""` or `"0"`; a PHP-empty path adds the same as `""`; for a base and path without `?`, a `?` appears exactly when there are parameters |
| HttpRequest.BuildUrlEmptyPath | src/rehyved/Http/HttpRequest.php:344-346 | a path of `""` or `"0"` gives the same URL as no path |
| HttpRequest.BuildUrlOfBase | src/rehyved/Http/HttpRequest.php:341-357 | with a PHP-empty path and no parameters the URL is the cleaned base |
| HttpRequest.BuildUrlQueryMark | src/rehyved/Http/HttpRequest.php:348-354 | for a base and path without `?`, the built URL holds a `?` exactly when there are parameters: cleaning neither adds nor removes one |
| HttpRequest.CleanUrlKeepsQueryMark | src/rehyved/Http/HttpRequest.php:352-354 | cleaning neither adds nor removes a `?` |
| HttpRequest.QueryWithoutPercent | src/rehyved/Http/HttpRequest.php:349-354 | plain parameters yield a query without `%`, so the index rewrite does not touch it |
| HttpRequest.BuildUrlShape | src/rehyved/Http/HttpRequest.php:341-357 | for `scheme://host`, a slash-free path and plain parameters, the URL is `scheme//host/path?query` with nothing rewritten |
| HttpRequest.HttpbinExample | src/rehyved/Http/HttpRequest.php:341-357 | `https://httpbin.org` with path `get` and parameters `param1=value1` and `param 2=value2` gives `https://httpbin.org/get?param1=value1&param+2=value2` |
| HttpRequest.TwoPairUrl | src/rehyved/Http/HttpRequest.php:341-357 | for `scheme://host`, a slash-free path and two pairs of unreserved words, the second key holding a space, the URL carries the words verbatim and the space as `+` |
| HttpRequest.TwoPairQuery | src/rehyved/Http/HttpRequest.php:349 | two pairs of unreserved words become `k1=v1&a+b=v2` |
| HttpRequest.SpaceJoinEncoding | src/rehyved/Http/HttpRequest.php:349 | a space between unreserved words is encoded as `+` |
| HttpRequest.Prepare | src/rehyved/Http/HttpRequest.php:275-320 | preparing fails exactly when the body fails; otherwise the transfer gets the built URL `buildUrl($path)`, the method name, the body payload, the header lines (or none), the cookie string, the timeout as connect timeout, the SSL flag and the credentials when a user name is set |
| HttpRequest.MultipartRequestUsesBoundary | src/rehyved/Http/HttpRequest.php:92-105 | a multipart type set through `contentType` yields a body delimited by the boundary that was synthesised there |
| HttpRequest.FormRequestRoundTrip | src/rehyved/Http/HttpRequest.php:383-402 | a form-encoded request body decodes back to its field pairs |
| HeaderCallback.SplitHeaderLine | src/rehyved/Http/HttpRequest.php:293-301 | a line is recorded exactly when it holds `:`; the name holds no `:` and the value is trimmed |
| HeaderCallback.SplitTruncates | src/rehyved/Http/HttpRequest.php:295 | the name ends at the first `:` and the value at the second, so a value holding `:` is cut there |
| HeaderCallback.SplitReadsHeaderLine | src/rehyved/Http/HttpRequest.php:294-300 | `Name: value` reads back as the pair, for a colon-free name and a trimmed colon-free value |
| HeaderCallback.CollectHeadersValues | src/rehyved/Http/HttpRequest.php:292-301 | each name holds exactly the values recorded for it, in arrival order, and each name appears once |
| HeaderCallback.CollectHeadersKeys | src/rehyved/Http/HttpRequest.php:296-298 | a name is present exactly when some line recorded a value for it |
| HeaderCallback.CollectHeaders | src/rehyved/Http/HttpRequest.php:292-301 | the callback over the header lines in arrival order; stated by CollectHeadersValues and CollectHeadersKeys |
| HeaderCallback.RepeatedHeaderAccumulates | src/rehyved/Http/HttpRequest.php:292-301 | after a status line, a header sent twice keeps both values in order |
| HttpResponse.Send | src/rehyved/Http/HttpRequest.php:322-332 | a non-empty transfer error fails with that message; otherwise the response is built from the collected headers |
| HttpResponse.CookieStringsFromHeaders | src/rehyved/Http/HttpResponse.php:54-59 | the cookie strings are exactly the values of headers whose name contains `Set-Cookie` in any case |
| HttpResponse.ProcessCookieHeaders | src/rehyved/Http/HttpResponse.php:52-64 | the cookie map has each name once |
| HttpResponse.CookieMapLastWins | src/rehyved/Http/HttpResponse.php:52-64 | each cookie name maps to the last cookie parsed with that name; a name never parsed is absent |
| HttpResponse.ProcessContent | src/rehyved/Http/HttpResponse.php:66-69 | the body is the text after the header block, and empty when the header size exceeds the text |
| HttpResponse.Construct | src/rehyved/Http/HttpResponse.php:32-50 | url, status, headers and error are copied; cookies come from the Set-Cookie headers; content type, header size, body and length are set only after a successful transfer, the length being the reported one or else the text's size minus the header size |
| HttpResponse.ContentLengthFallback | src/rehyved/Http/HttpResponse.php:44 | without a reported length, the length is that of the body |
| HttpResponse.ContentLength | src/rehyved/Http/HttpResponse.php:44 | the reported length, or else the text length minus the header size; stated by Construct and ContentLengthFallback |
| HttpResponse.GetHeader | src/rehyved/Http/HttpResponse.php:104-110 | the stored list when the name exists, and null otherwise |
| HttpResponse.GetHeaderOfCollected | src/rehyved/Http/HttpResponse.php:104-110 | the lookup on a response yields exactly the values the callback recorded for the name, in order |
| HttpResponse.GetCookie | src/rehyved/Http/HttpResponse.php:126-132 | returns the cookie stored under the name |
| HttpResponse.GetCookieLastWins | src/rehyved/Http/HttpResponse.php:126-132 | the cookie returned is the last one parsed under that name |
| HttpResponse.DecoderFor | src/rehyved/Http/HttpResponse.php:186-197 | JSON is chosen exactly when the type contains `application/json` (case-sensitive); XML exactly when it does not but contains `text/xml` or `application/xml` |
| HttpResponse.GetContent | src/rehyved/Http/HttpResponse.php:186-197 | the body goes through the chosen decoder, or is returned raw |
| HttpResponse.DecoderIgnoresSurroundings | src/rehyved/Http/HttpResponse.php:188-193 | a type with parameters or a prefix around the MIME type selects the same decoder |
| HttpResponse.UpperCaseTypeIsRaw | src/rehyved/Http/HttpResponse.php:188-193 | upper-case spellings of the types are not recognised |
| HttpResponse.FailedTransferIsRaw | src/rehyved/Http/HttpResponse.php:186-197 | after a failed transfer the content is raw and null |
| HttpResponse.IsErrorOfConstruct | src/rehyved/Http/HttpResponse.php:205-208 | a response is an error exactly when the error text is non-empty or the status is 400..599 |
| HttpResponse.SentResponseErrorIsStatus | src/rehyved/Http/HttpResponse.php:205-208 | a response that `send` returns is an error exactly when its status is |
| HttpResponse.IsError | src/rehyved/Http/HttpResponse.php:205-208 | a non-empty error text or an error status; stated by IsErrorOfConstruct and SentResponseErrorIsStatus |
| LegacyHttpResponse.Construct | HttpResponse.php:17-35 | the legacy constructor derives the same fields: cookies with unique names, the body after the header block, and the fallback length |
| LegacyHttpResponse.GetHeader | HttpResponse.php:72-78 | the stored list when the name exists, and `false` otherwise |
| LegacyHttpResponse.GetHeaderMatchesCurrent | HttpResponse.php:72-78 | the legacy and current lookups find the same lists and differ only in the absent marker |
| LegacyHttpResponse.DecoderFor | HttpResponse.php:120-129 | JSON exactly when the type equals `application/json`; XML exactly when it equals `text/xml` or `application/xml` |
| LegacyHttpResponse.GetContent | HttpResponse.php:120-129 | decodes exactly the three exact types and returns anything else raw |
| LegacyHttpResponse.ExactDispatchIsStricter | HttpResponse.php:120-129 | whatever the legacy class decodes, the current class decodes the same way |
| LegacyHttpResponse.CharsetParameterIsRaw | HttpResponse.php:122-124 | `application/json` with a parameter is raw in the legacy class but decoded as JSON in the current one |
| LegacyHttpResponse.IsErrorOfLegacyConstruct | HttpResponse.php:131-134 | the legacy `isError` is the same test: error text or a 400..599 status |

## Left out

- The transfer itself is a parameter: the response text, the `curl_getinfo` array and the error message. This covers cURL handles, options, redirects, timeouts on the wire and SSL checks. `Timeout` and `VerifySslCertificate` only record their values.
- `get`, `put`, `post` and `delete` (src/rehyved/Http/HttpRequest.php:237-273) only choose the method for `request`. `Prepare` takes the method as a parameter.
- `HttpMethod` is a class of string constants. It is modelled as a datatype with a name function.
- The `RPHC_DEFAULT_*` constants are a `Defaults` parameter of `Create`. `BuiltInDefaults` holds the class constants: no headers, 30 seconds, verify certificates.
- `cookies(null)` reads the `$_COOKIE` superglobal, and `importCookies` calls `setcookie`. Both are global I/O and are not modelled. An explicit cookie list is modelled.
- The current and legacy `getCookies`, `getHeaders` and other plain getters are not modelled separately. They return stored fields, which `Construct` states directly.
- `json_encode`, `json_decode`, `simplexml_load_string`, `strtotime` and `uniqid` are parameters. Their results are opaque.
- Structured bodies are string-valued fields with at most one level of nesting: an array field of `data` and `filename` entries, or nested form pairs. Objects, numbers and deeper nesting are not modelled.
- A structured body is passed to the transfer unencoded when no `Content-Type` header was set, or when the type matches none of the three encodings. The library's description calls for form encoding and setting the header in that case. The code does neither, and the model follows the code.
- `FilenameIffSet` models the unclosed `filename="` quote as written.
- `mb_stripos` in the cookie-header filter is modelled as ASCII case-insensitive matching. Multibyte case folding is not modelled.
- `strpos` and `==` on a missing content type read it as the empty string. So a failed transfer never selects a decoder.
- `curl_getinfo` reports no `content_length` key, so the length fallback is the path taken in practice. The model keeps the optional input so that both branches are stated.
- Byte counts: a string is a sequence of Unicode code points, while PHP holds its UTF-8 bytes. `urlencode` is modelled on the UTF-8 bytes. But `strlen`, `substr` and cURL's `header_size` count bytes in PHP and characters here. So the body cut of ProcessContent and the fallback length of ContentLength are exact only when the response text is ASCII.
- Integer widths are unbounded. Status codes, header sizes and lengths are not checked against PHP's 64-bit integers.
- HttpResponse.GetCookie: requires the name to be present. For an absent name the source returns null from a function declared to return `HttpCookie`, which PHP turns into a `TypeError`, so that case is an error the model excludes rather than a value.
- The legacy file refers to a cookie class and a status class outside its own namespace. They are not in the repository. The shared `HttpCookie` and `HttpStatus` models stand in for them.
- HttpRequest.HttpbinExample and HttpCookie.ExampleSessionCookie: the example strings are passed as parameters equal to the literals, so the solver does not unfold the literals eagerly.
- HttpStatus.KnownReasonPhrases: only two table entries are spelled out. The other 38 phrases are given only by the ReasonPhrase table itself; TabledCodesAreClassified fixes which codes have a phrase, not the phrases' text.

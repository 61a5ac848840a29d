/** The request builder: its state, the builder operations (each a pure
    `Request -> Request` or `Request -> Result<Request>` function), and the
    serialisations the builder hands to the transport: the URL, the header
    lines, the cookie string, the credentials and the encoded body. */
module HttpRequest {
  import opened Results
  import opened PhpStrings
  import opened OrderedMap
  import opened Rewrites
  import opened QueryString
  import opened RequestBody

  // ---------------------------------------------------------------------------
  // State
  // ---------------------------------------------------------------------------

  /** The request methods of the `HttpMethod` constant table. */
  datatype Method = HEAD | GET | PUT | POST | DELETE | TRACE | OPTIONS | CONNECT

  /** The method token sent on the request line. */
  function MethodName(m: Method): (name: string)
    ensures |name| >= 3
  {
    match m
    case HEAD => "HEAD"
    case GET => "GET"
    case PUT => "PUT"
    case POST => "POST"
    case DELETE => "DELETE"
    case TRACE => "TRACE"
    case OPTIONS => "OPTIONS"
    case CONNECT => "CONNECT"
  }

  /** The method a token names, if any (exact spelling). */
  function ParseMethod(name: string): (m: Option<Method>) {
    if name == "HEAD" then Some(HEAD)
    else if name == "GET" then Some(GET)
    else if name == "PUT" then Some(PUT)
    else if name == "POST" then Some(POST)
    else if name == "DELETE" then Some(DELETE)
    else if name == "TRACE" then Some(TRACE)
    else if name == "OPTIONS" then Some(OPTIONS)
    else if name == "CONNECT" then Some(CONNECT)
    else None
  }

  /** Every token reads back as its method, so distinct methods send distinct tokens. */
  lemma MethodNameRoundTrip(m: Method)
    ensures ParseMethod(MethodName(m)) == Some(m)
    ensures forall m' :: MethodName(m') == MethodName(m) ==> m' == m
  {
    forall m' | MethodName(m') == MethodName(m) ensures m' == m {
      assert ParseMethod(MethodName(m')) == Some(m');
    }
  }

  /** Settings a deployment may define globally; the built-in values are used otherwise. */
  datatype Defaults = Defaults(headers: Multi<string>, timeout: int, verifySslCertificate: bool)

  /** No headers, a 30-second timeout, certificates verified. */
  const BuiltInDefaults: Defaults := Defaults([], 30, true)

  datatype Request = Request(
    baseUrl: string,
    headers: Multi<string>,
    parameters: Entries<string>,
    cookies: Entries<string>,
    timeout: int,
    verifySslCertificate: bool,
    username: Option<string>,
    password: Option<string>)

  /** `HttpRequest::create($baseUrl)` under the given defaults. */
  function Create(baseUrl: string, defaults: Defaults): (r: Request)
    ensures r.baseUrl == baseUrl && r.headers == defaults.headers
    ensures r.parameters == [] && r.cookies == []
    ensures r.timeout == defaults.timeout && r.verifySslCertificate == defaults.verifySslCertificate
    ensures r.username.None? && r.password.None?
  {
    Request(baseUrl, defaults.headers, [], [], defaults.timeout, defaults.verifySslCertificate, None, None)
  }

  // ---------------------------------------------------------------------------
  // Headers
  // ---------------------------------------------------------------------------

  /** `header($name, $value)`: appends under the exact name (no case folding). */
  function Header(r: Request, name: string, value: string): (r': Request)
    ensures Values(r'.headers, name) == Values(r.headers, name) + [value]
    ensures forall k :: k != name ==> Get(r'.headers, k) == Get(r.headers, k)
    ensures UniqueKeys(r.headers) ==> UniqueKeys(r'.headers)
    ensures Keys(r'.headers) == if HasKey(r.headers, name) then Keys(r.headers) else Keys(r.headers) + [name]
    ensures r'.(headers := r.headers) == r
  {
    r.(headers := Append(r.headers, name, value))
  }

  /** `headers($pairs)`: `header` for each pair in order. */
  function Headers(r: Request, pairs: seq<(string, string)>): (r': Request)
    ensures r'.(headers := r.headers) == r
    decreases |pairs|
  {
    if |pairs| == 0 then r
    else
      var last := pairs[|pairs| - 1];
      Header(Headers(r, pairs[..|pairs| - 1]), last.0, last.1)
  }

  /** Each name collects, after its old values, the values paired with it, in order;
      names never mentioned keep their lists. */
  lemma {:induction false} HeadersCollect(r: Request, pairs: seq<(string, string)>, k: string)
    ensures Headers(r, pairs).headers == AppendAll(r.headers, pairs)
    ensures Values(Headers(r, pairs).headers, k) == Values(r.headers, k) + ValuesFor(pairs, k)
    decreases |pairs|
  {
    if |pairs| > 0 {
      HeadersCollect(r, pairs[..|pairs| - 1], k);
    }
    AppendAllCollects(r.headers, pairs, k);
  }

  /** The value `contentType` stores: trimmed, and for a multipart type without
      a boundary, `; boundary="<id>"` appended and runs of `;` collapsed.
      `id` stands for `uniqid(time())`. */
  function ContentTypeValue(contentType: string, id: string): string {
    var t := Trim(contentType);
    if ContainsCI(t, "multipart/") && !ContainsCI(t, "boundary") then
      CollapseRuns(t + BoundaryParameter(id), ';', '\n')
    else t
  }

  /** The parameter appended to a multipart type: `; boundary="<id>"`. */
  function BoundaryParameter(id: string): string {
    "; boundary=\"" + id + "\""
  }

  /** The parameter is a `;` and then, for an id without `;`, text the
      `;`-run rewrite leaves alone, holding the key the body encoder looks for. */
  lemma BoundaryParameterShape(id: string)
    ensures BoundaryParameter(id) == [';'] + BoundaryTail(id)
    ensures ';' !in id ==> ';' !in BoundaryTail(id)
  {
    var p := BoundaryParameter(id);
    assert p[1..] == BoundaryTail(id);
  }

  /** What follows the `;` of the boundary parameter. */
  function BoundaryTail(id: string): string {
    " " + BoundaryKey + id + "\""
  }

  lemma BoundaryTailAfter(c: string, id: string)
    ensures c + BoundaryTail(id) == c + " " + BoundaryKey + id + "\""
  {
  }

  /** `contentType($contentType)` */
  function ContentType(r: Request, contentType: string, id: string): (r': Request)
    ensures Values(r'.headers, "Content-Type") == Values(r.headers, "Content-Type") + [ContentTypeValue(contentType, id)]
    ensures r'.(headers := r.headers) == r
  {
    Header(r, "Content-Type", ContentTypeValue(contentType, id))
  }

  /** `accept($contentType)` */
  function Accept(r: Request, contentType: string): (r': Request)
    ensures Values(r'.headers, "Accept") == Values(r.headers, "Accept") + [Trim(contentType)]
    ensures r'.(headers := r.headers) == r
  {
    Header(r, "Accept", Trim(contentType))
  }

  /** A type that is not multipart, or already names a boundary, is only trimmed. */
  lemma ContentTypeOnlyTrims(contentType: string, id: string)
    requires !ContainsCI(Trim(contentType), "multipart/") || ContainsCI(Trim(contentType), "boundary")
    ensures ContentTypeValue(contentType, id) == Trim(contentType)
    ensures IsTrimmed(ContentTypeValue(contentType, id))
  {
    var t := Trim(contentType);
    assert ContentTypeValue(contentType, id) == t;
  }

  /** A synthesised boundary is read back by the body encoder: the stored value
      holds exactly one `boundary="…"` match, and it captures `id`, for any
      non-empty id without quotes or semicolons. */
  lemma ContentTypeBoundaryRoundTrip(contentType: string, id: string)
    requires ContainsCI(Trim(contentType), "multipart/") && !ContainsCI(Trim(contentType), "boundary")
    requires |id| >= 1 && '"' !in id && ';' !in id
    ensures ParseBoundary(ContentTypeValue(contentType, id)) == Success(id)
  {
    var t := Trim(contentType);
    var pre := CollapseRuns(t + ";", ';', '\n') + " ";
    SynthesisedShape(t, id);
    forall i: nat | i < |pre| ensures !MatchesAt(pre + BoundaryKey, i, BoundaryKey, true) {
      NoMatchBeforeSpace(t, i);
    }
    ParseBoundaryOf(pre, id, "");
    assert pre + BoundaryKey + id + "\"" + "" == pre + BoundaryKey + id + "\"";
  }

  /** Appending the boundary parameter: the rewrite acts on the original part
      and the semicolon only; the appended text has no `;` left to collapse. */
  lemma SynthesisedShape(t: string, id: string)
    requires ';' !in id
    ensures CollapseRuns(t + BoundaryParameter(id), ';', '\n')
            == CollapseRuns(t + ";", ';', '\n') + " " + BoundaryKey + id + "\""
  {
    var tail := BoundaryTail(id);
    BoundaryParameterShape(id);
    AppendAssoc(t, ";", tail);
    CollapsePlainTail(t + ";", tail, ';', '\n');
    BoundaryTailAfter(CollapseRuns(t + ";", ';', '\n'), id);
  }

  /** No key match starts before the space that precedes the appended key:
      it would cross the space, or lie inside the collapsed original and so
      (the rewrite creating no match) inside the original. */
  lemma NoMatchBeforeSpace(t: string, i: nat)
    requires !ContainsCI(t, "boundary")
    requires i < |CollapseRuns(t + ";", ';', '\n') + " "|
    ensures !MatchesAt(CollapseRuns(t + ";", ';', '\n') + " " + BoundaryKey, i, BoundaryKey, true)
  {
    var c := CollapseRuns(t + ";", ';', '\n');
    var s := c + " " + BoundaryKey;
    if MatchesAt(s, i, BoundaryKey, true) {
      if i + 10 > |c| {
        MatchesAtChar(s, i, BoundaryKey, |c| - i);
      } else {
        assert s[i..i + 10] == c[i..i + 10];
        var i' := CollapseCreatesNoMatch(t + ";", ';', '\n', BoundaryKey, i);
        NoKeyInOriginal(t, i');
      }
    }
  }

  lemma NoKeyInOriginal(t: string, i: nat)
    requires !ContainsCI(t, "boundary")
    ensures !MatchesAt(t + ";", i, BoundaryKey, true)
  {
    var u := t + ";";
    if MatchesAt(u, i, BoundaryKey, true) {
      MatchesAtChar(u, i, BoundaryKey, 9);
      KeyPrefixMatch(u, i);
      assert u[i..i + 8] == t[i..i + 8];
      assert MatchesAt(t, i, "boundary", true);
    }
  }

  /** The test case `multipart/form-data;`: the trailing semicolon and the
      appended one collapse into one, so the value reads
      `multipart/form-data; boundary="<id>"`. */
  lemma MultipartTrailingSemicolon(w: string, id: string)
    requires |w| > 0 && ';' !in w && w[|w| - 1] != '\n'
    requires IsTrimmed(w + ";")
    requires ContainsCI(w + ";", "multipart/") && !ContainsCI(w + ";", "boundary")
    requires ';' !in id
    ensures ContentTypeValue(w + ";", id) == w + BoundaryParameter(id)
  {
    TrimOfTrimmed(w + ";");
    TrailingPairCollapses(w, id);
  }

  lemma TrailingPairCollapses(w: string, id: string)
    requires |w| > 0 && ';' !in w && w[|w| - 1] != '\n'
    requires ';' !in id
    ensures CollapseRuns((w + ";") + BoundaryParameter(id), ';', '\n') == w + BoundaryParameter(id)
  {
    BoundaryParameterShape(id);
    SemicolonJoin(w, BoundaryTail(id), BoundaryParameter(id));
  }

  lemma SemicolonJoin(w: string, tail: string, p: string)
    requires |w| > 0 && ';' !in w && w[|w| - 1] != '\n'
    requires |tail| > 0 && ';' !in tail && p == [';'] + tail
    ensures CollapseRuns((w + ";") + p, ';', '\n') == w + p
  {
    CollapseDoubledJoin(w, tail, ';', '\n');
    assert (w + [';']) + tail == w + p;
  }

  /** The literal test input meets the conditions above. */
  lemma MultipartFormDataExample(w: string, id: string)
    requires w == "multipart/form-data" && ';' !in id
    ensures ContentTypeValue(w + ";", id) == w + "; boundary=\"" + id + "\""
  {
    NotOccursWithoutChar(w + ";", "boundary", true, 0);
    assert MatchesAt(w + ";", 0, "multipart/", true);
    OccursAtStart(w + ";", "multipart/", true);
    MultipartTrailingSemicolon(w, id);
  }

  /** `authorization($scheme, $value)`: the scheme is checked first, then the
      value; a failure leaves the request as it was. */
  function Authorization(r: Request, scheme: string, value: string): (res: Result<Request>)
    ensures res.Failure? <==> PhpEmpty(scheme) || PhpEmpty(value)
    ensures PhpEmpty(scheme) ==> res == Failure(InvalidArgument("Scheme was null or empty"))
    ensures !PhpEmpty(scheme) && PhpEmpty(value) ==> res == Failure(InvalidArgument("Value was null or empty"))
    ensures res.Success? ==> Values(res.value.headers, "Authorization") == Values(r.headers, "Authorization") + [scheme + " " + value]
    ensures res.Success? ==> res.value.(headers := r.headers) == r
  {
    if PhpEmpty(scheme) then Failure(InvalidArgument("Scheme was null or empty"))
    else if PhpEmpty(value) then Failure(InvalidArgument("Value was null or empty"))
    else Success(Header(r, "Authorization", scheme + " " + value))
  }

  // ---------------------------------------------------------------------------
  // Parameters and cookies
  // ---------------------------------------------------------------------------

  /** `parameter($name, $value)`: assignment, so a repeated name is overwritten in place. */
  function Parameter(r: Request, name: string, value: string): (r': Request)
    ensures Get(r'.parameters, name) == Some(value)
    ensures forall k :: k != name ==> Get(r'.parameters, k) == Get(r.parameters, k)
    ensures Keys(r'.parameters) == if HasKey(r.parameters, name) then Keys(r.parameters) else Keys(r.parameters) + [name]
    ensures r'.(parameters := r.parameters) == r
  {
    r.(parameters := Put(r.parameters, name, value))
  }

  /** `parameters($pairs)`: `parameter` for each pair in order. */
  function Parameters(r: Request, pairs: seq<(string, string)>): (r': Request)
    ensures r'.(parameters := r.parameters) == r
  {
    r.(parameters := PutAll(r.parameters, pairs))
  }

  /** Last write wins; names never given keep their value. */
  lemma ParametersLastWins(r: Request, pairs: seq<(string, string)>, k: string)
    ensures (forall i :: 0 <= i < |pairs| ==> pairs[i].0 != k) ==> Get(Parameters(r, pairs).parameters, k) == Get(r.parameters, k)
    ensures forall i :: IsLastFor(pairs, k, i) ==> Get(Parameters(r, pairs).parameters, k) == Some(pairs[i].1)
  {
    PutAllLastWins(r.parameters, pairs, k);
  }

  /** The one cookie name the builder refuses. */
  const IgnoredCookieName: string := "Array"

  /** `cookie($name, $value)`: assignment, except that a cookie named `Array` is ignored. */
  function Cookie(r: Request, name: string, value: string): (r': Request)
    ensures name == IgnoredCookieName ==> r' == r
    ensures name != IgnoredCookieName ==> Get(r'.cookies, name) == Some(value)
    ensures forall k :: k != name ==> Get(r'.cookies, k) == Get(r.cookies, k)
    ensures r'.(cookies := r.cookies) == r
  {
    if name == IgnoredCookieName then r else r.(cookies := Put(r.cookies, name, value))
  }

  /** `cookies($pairs)`: `cookie` for each pair in order. */
  function Cookies(r: Request, pairs: seq<(string, string)>): (r': Request)
    ensures r'.(cookies := r.cookies) == r
    decreases |pairs|
  {
    if |pairs| == 0 then r
    else
      var last := pairs[|pairs| - 1];
      Cookie(Cookies(r, pairs[..|pairs| - 1]), last.0, last.1)
  }

  /** Last write wins for every name but `Array`, which is never touched. */
  lemma {:induction false} CookiesLastWins(r: Request, pairs: seq<(string, string)>, k: string)
    ensures (k == IgnoredCookieName || forall i :: 0 <= i < |pairs| ==> pairs[i].0 != k) ==>
              Get(Cookies(r, pairs).cookies, k) == Get(r.cookies, k)
    ensures k != IgnoredCookieName ==>
              forall i :: IsLastFor(pairs, k, i) ==> Get(Cookies(r, pairs).cookies, k) == Some(pairs[i].1)
  {
    if k == IgnoredCookieName || forall i :: 0 <= i < |pairs| ==> pairs[i].0 != k {
      CookiesUntouched(r, pairs, k);
    }
    if k != IgnoredCookieName {
      forall i | IsLastFor(pairs, k, i)
        ensures Get(Cookies(r, pairs).cookies, k) == Some(pairs[i].1)
      {
        CookiesLast(r, pairs, k, i);
      }
    }
  }

  lemma {:induction false} CookiesUntouched(r: Request, pairs: seq<(string, string)>, k: string)
    requires k == IgnoredCookieName || forall i :: 0 <= i < |pairs| ==> pairs[i].0 != k
    ensures Get(Cookies(r, pairs).cookies, k) == Get(r.cookies, k)
    decreases |pairs|
  {
    if |pairs| > 0 {
      CookiesUntouched(r, pairs[..|pairs| - 1], k);
    }
  }

  lemma {:induction false} CookiesLast(r: Request, pairs: seq<(string, string)>, k: string, i: int)
    requires k != IgnoredCookieName && IsLastFor(pairs, k, i)
    ensures Get(Cookies(r, pairs).cookies, k) == Some(pairs[i].1)
    decreases |pairs|
  {
    var init := pairs[..|pairs| - 1];
    if i < |pairs| - 1 {
      assert IsLastFor(init, k, i);
      CookiesLast(r, init, k, i);
    }
  }

  /** `basicAuthentication($username, $password = "")` */
  function BasicAuthentication(r: Request, username: string, password: string): (r': Request)
    ensures r'.username == Some(username) && r'.password == Some(password)
    ensures r'.(username := r.username, password := r.password) == r
  {
    r.(username := Some(username), password := Some(password))
  }

  /** `timeout($seconds)` */
  function Timeout(r: Request, seconds: int): (r': Request)
    ensures r'.timeout == seconds && r'.(timeout := r.timeout) == r
  {
    r.(timeout := seconds)
  }

  /** `verifySslCertificate($verify)` */
  function VerifySslCertificate(r: Request, verify: bool): (r': Request)
    ensures r'.verifySslCertificate == verify && r'.(verifySslCertificate := r.verifySslCertificate) == r
  {
    r.(verifySslCertificate := verify)
  }

  // ---------------------------------------------------------------------------
  // Serialisation
  // ---------------------------------------------------------------------------

  /** `processHeaders`: one `name: value` line per stored value, entry by entry. */
  function HeaderLines(headers: Multi<string>): (lines: seq<string>)
    ensures |lines| == |Flatten(headers)|
  {
    var flat := Flatten(headers);
    seq(|flat|, i requires 0 <= i < |flat| => flat[i].0 + ": " + flat[i].1)
  }

  /** The header option is set only when there is at least one line. */
  function HeaderOption(headers: Multi<string>): (o: Option<seq<string>>)
    ensures o.None? <==> |Flatten(headers)| == 0
    ensures o.Some? ==> o.value == HeaderLines(headers)
  {
    var lines := HeaderLines(headers);
    if |lines| == 0 then None else Some(lines)
  }

  /** Reading the lines back: the lines for name `k` carry exactly the values
      stored under `k`, in the order they were added. */
  lemma HeaderLinesCarryValues(headers: Multi<string>, k: string)
    requires UniqueKeys(headers)
    ensures ValuesFor(Flatten(headers), k) == Values(headers, k)
    ensures forall i :: 0 <= i < |Flatten(headers)| ==>
              HeaderLines(headers)[i] == Flatten(headers)[i].0 + ": " + Flatten(headers)[i].1
  {
    FlattenValues(headers, k);
  }

  /** Adding a header adds exactly one line, `name: value`, placed after the
      lines already present for that name (at the end for a new name). */
  lemma HeaderAddsOneLine(r: Request, name: string, value: string) returns (p: nat)
    requires UniqueKeys(r.headers)
    ensures p <= |HeaderLines(r.headers)|
    ensures HeaderLines(Header(r, name, value).headers)
            == HeaderLines(r.headers)[..p] + [name + ": " + value] + HeaderLines(r.headers)[p..]
    ensures !HasKey(r.headers, name) ==> p == |HeaderLines(r.headers)|
  {
    p := FlattenAppend(r.headers, name, value);
    LinesOfInsertion(r.headers, Header(r, name, value).headers, p, name, value);
  }

  /** Inserting one pair into the flattened headers inserts its line at the same place. */
  lemma LinesOfInsertion(h: Multi<string>, h': Multi<string>, p: nat, name: string, value: string)
    requires p <= |Flatten(h)|
    requires Flatten(h') == Flatten(h)[..p] + [(name, value)] + Flatten(h)[p..]
    ensures HeaderLines(h') == HeaderLines(h)[..p] + [name + ": " + value] + HeaderLines(h)[p..]
  {
    var before, after := HeaderLines(h), HeaderLines(h');
    var expected := before[..p] + [name + ": " + value] + before[p..];
    assert |after| == |expected|;
    forall i | 0 <= i < |after| ensures after[i] == expected[i] {
      if i > p {
        assert Flatten(h')[i] == Flatten(h)[i - 1];
      }
    }
  }

  /** The `k=v` pieces of the cookie string. */
  function CookiePairs(cookies: Entries<string>): (ps: seq<string>)
    ensures |ps| == |cookies|
    ensures forall i :: 0 <= i < |cookies| ==> ps[i] == cookies[i].0 + "=" + cookies[i].1
  {
    seq(|cookies|, i requires 0 <= i < |cookies| => cookies[i].0 + "=" + cookies[i].1)
  }

  /** `processCookies`: `k=v` pairs joined by `;` with no space. */
  function CookieString(cookies: Entries<string>): string {
    Implode(CookiePairs(cookies), ';')
  }

  /** Splits at the first `d`: what precedes it, and everything after it. */
  function SplitAtFirst(s: string, d: char): (string, string) {
    var pieces := Explode(s, d);
    (pieces[0], Implode(pieces[1..], d))
  }

  lemma SplitAtFirstOf(k: string, v: string, d: char)
    requires d !in k
    ensures SplitAtFirst(k + [d] + v, d) == (k, v)
  {
    ExplodeFirstPiece(k, v, d);
    ExplodeGlues(v, d);
    assert Explode(k + [d] + v, d)[1..] == Explode(v, d);
  }

  /** The reference reading of a `Cookie` header: split on `;`, each piece at its first `=`. */
  function ReadCookieString(s: string): (cookies: Entries<string>) {
    var pieces := Explode(s, ';');
    seq(|pieces|, i requires 0 <= i < |pieces| => SplitAtFirst(pieces[i], '='))
  }

  /** Reading the cookie string back gives the stored cookies, in order, when
      names hold no `;` or `=` and values no `;`. */
  lemma CookieStringRoundTrip(cookies: Entries<string>)
    requires |cookies| > 0
    requires forall i :: 0 <= i < |cookies| ==> ';' !in cookies[i].0 && '=' !in cookies[i].0 && ';' !in cookies[i].1
    ensures ReadCookieString(CookieString(cookies)) == cookies
  {
    var ps := CookiePairs(cookies);
    forall i | 0 <= i < |ps| ensures ';' !in ps[i] {
      assert ps[i] == cookies[i].0 + "=" + cookies[i].1;
    }
    ExplodeImplode(ps, ';');
    var read := ReadCookieString(CookieString(cookies));
    forall i | 0 <= i < |cookies| ensures read[i] == cookies[i] {
      assert ps[i] == cookies[i].0 + ['='] + cookies[i].1;
      SplitAtFirstOf(cookies[i].0, cookies[i].1, '=');
    }
  }

  /** The credentials handed to the transport: `username:password`, only when
      the username is set and not PHP-empty. */
  function UserPwd(r: Request): (o: Option<string>)
    ensures o.Some? <==> r.username.Some? && !PhpEmpty(r.username.value)
  {
    match r.username
    case None => None
    case Some(u) => if PhpEmpty(u) then None else Some(u + ":" + r.password.GetOr(""))
  }

  /** Splitting the credentials at the first colon gives back the username and
      password (a username cannot hold a colon, section 2 of RFC 7617). */
  lemma CredentialsRoundTrip(r: Request, username: string, password: string)
    requires !PhpEmpty(username) && ':' !in username
    ensures UserPwd(BasicAuthentication(r, username, password)).Some?
    ensures SplitAtFirst(UserPwd(BasicAuthentication(r, username, password)).value, ':') == (username, password)
  {
    SplitAtFirstOf(username, password, ':');
    assert username + ":" + password == username + [':'] + password;
  }

  // ---------------------------------------------------------------------------
  // URL
  // ---------------------------------------------------------------------------

  /** The URL before cleaning: `/path` only for a path that is not PHP-empty,
      `?query` only when there are parameters. */
  function JoinUrl(baseUrl: string, path: string, parameters: Entries<string>): string {
    baseUrl
    + (if PhpEmpty(path) then "" else "/" + path)
    + (if |parameters| > 0 then "?" + BuildQuery(parameters) else "")
  }

  /** The two cleaning rewrites: slash runs not after `:` collapse to one
      slash, then `%5B<digits>%5D` becomes `%5B%5D`. */
  function CleanUrl(url: string): (clean: string)
    ensures RunFree(clean, '/', ':') && IndexFree(clean)
  {
    var collapsed := CollapseRuns(url, '/', ':');
    CollapseRunFree(url, '/', ':');
    StripKeepsRunFree(collapsed);
    StripIndexFree(collapsed);
    StripIndexes(collapsed)
  }

  /** Cleaning changes exactly the URLs that still hold something to rewrite. */
  lemma CleanUrlFixedPoints(url: string)
    ensures CleanUrl(url) == url <==> RunFree(url, '/', ':') && IndexFree(url)
  {
    if RunFree(url, '/', ':') && IndexFree(url) {
      CollapseOfRunFree(url, '/', ':');
      StripOfIndexFree(url);
    }
  }

  /** Cleaning twice is cleaning once. */
  lemma CleanUrlIdempotent(url: string)
    ensures CleanUrl(CleanUrl(url)) == CleanUrl(url)
  {
    CleanUrlFixedPoints(CleanUrl(url));
  }

  /** `buildUrl($path)` */
  function BuildUrl(r: Request, path: string): (url: string)
    ensures RunFree(url, '/', ':') && IndexFree(url)
  {
    CleanUrl(JoinUrl(r.baseUrl, path, r.parameters))
  }

  /** The URL before cleaning starts with the base; `/path` is added exactly
      when the path is not PHP-empty, and (base and path holding no `?`) a
      `?` appears exactly when there are parameters. */
  lemma JoinUrlParts(baseUrl: string, path: string, parameters: Entries<string>)
    ensures |baseUrl| <= |JoinUrl(baseUrl, path, parameters)|
    ensures JoinUrl(baseUrl, path, parameters)[..|baseUrl|] == baseUrl
    ensures JoinUrl(baseUrl, path, []) == baseUrl <==> PhpEmpty(path)
    ensures PhpEmpty(path) ==> JoinUrl(baseUrl, path, parameters) == JoinUrl(baseUrl, "", parameters)
    ensures '?' !in baseUrl && '?' !in path ==>
              ('?' in JoinUrl(baseUrl, path, parameters) <==> |parameters| > 0)
  {
    var withPath := baseUrl + (if PhpEmpty(path) then "" else "/" + path);
    assert JoinUrl(baseUrl, path, []) == withPath;
    if !PhpEmpty(path) {
      assert |withPath| > |baseUrl|;
    }
    if '?' !in baseUrl && '?' !in path {
      assert '?' !in withPath;
      if |parameters| > 0 {
        assert JoinUrl(baseUrl, path, parameters)[|withPath|] == '?';
      }
    }
  }

  /** Cleaning neither adds nor removes a `?`. */
  lemma CleanUrlKeepsQueryMark(url: string)
    ensures '?' in CleanUrl(url) <==> '?' in url
  {
    CollapseKeepsOtherChars(url, '/', ':', '?');
    StripKeepsOtherChars(CollapseRuns(url, '/', ':'), '?');
  }

  /** An empty or `"0"` path adds nothing to the URL. */
  lemma BuildUrlEmptyPath(r: Request, path: string)
    ensures PhpEmpty(path) ==> BuildUrl(r, path) == BuildUrl(r, "")
  {
    JoinUrlParts(r.baseUrl, path, r.parameters);
  }

  /** With no path and no parameters the URL is the cleaned base. */
  lemma BuildUrlOfBase(r: Request, path: string)
    ensures PhpEmpty(path) && |r.parameters| == 0 ==> BuildUrl(r, path) == CleanUrl(r.baseUrl)
  {
    JoinUrlParts(r.baseUrl, path, r.parameters);
  }

  /** For a base and path without `?`, the URL has a query part exactly when
      there are parameters. */
  lemma BuildUrlQueryMark(r: Request, path: string)
    requires '?' !in r.baseUrl && '?' !in path
    ensures '?' in BuildUrl(r, path) <==> |r.parameters| > 0
  {
    JoinUrlParts(r.baseUrl, path, r.parameters);
    CleanUrlKeepsQueryMark(JoinUrl(r.baseUrl, path, r.parameters));
  }

  /** Characters `urlencode` keeps or turns into `+`. */
  predicate PlainText(s: string) {
    forall i :: 0 <= i < |s| ==> IsUnreserved(s[i]) || s[i] == ' '
  }

  /** Plain text encodes without any percent escape. */
  lemma {:induction false} PlainEncodingHasNoPercent(s: string)
    requires PlainText(s)
    ensures '%' !in UrlEncode(s)
    decreases |s|
  {
    if |s| > 0 {
      assert PlainText(s[1..]) by {
        forall i | 0 <= i < |s[1..]| ensures IsUnreserved(s[1..][i]) || s[1..][i] == ' ' {
          assert s[1..][i] == s[i + 1];
        }
      }
      PlainEncodingHasNoPercent(s[1..]);
    }
  }

  /** A query built from plain text holds no `%`, so no index for the cleaning to strip. */
  lemma QueryWithoutPercent(parameters: Entries<string>)
    requires forall i :: 0 <= i < |parameters| ==> PlainText(parameters[i].0) && PlainText(parameters[i].1)
    ensures '%' !in BuildQuery(parameters)
  {
    var parts := EncodedPairs(parameters);
    forall i | 0 <= i < |parts| ensures '%' !in parts[i] {
      PlainEncodingHasNoPercent(parameters[i].0);
      PlainEncodingHasNoPercent(parameters[i].1);
    }
    ImplodeAvoids(parts, '&', '%');
  }

  /** A URL `scheme//host/path?query` with single slashes everywhere else
      and nothing percent-encoded is already clean: the cleaning keeps the
      `//` after the scheme's colon. */
  lemma BuildUrlShape(scheme: string, host: string, path: string, parameters: Entries<string>)
    requires |scheme| > 0 && scheme[|scheme| - 1] == ':' && '/' !in scheme && '%' !in scheme
    requires |host| > 0 && '/' !in host && '%' !in host
    requires !PhpEmpty(path) && '/' !in path && '%' !in path
    requires |parameters| > 0
    requires forall i :: 0 <= i < |parameters| ==> PlainText(parameters[i].0) && PlainText(parameters[i].1)
    ensures BuildUrl(Create(scheme + "//" + host, BuiltInDefaults).(parameters := parameters), path)
            == scheme + "//" + host + "/" + path + "?" + BuildQuery(parameters)
  {
    var q := BuildQuery(parameters);
    BuildQueryHasNoSlash(parameters);
    QueryWithoutPercent(parameters);
    var url := scheme + "//" + host + "/" + path + "?" + q;
    assert JoinUrl(scheme + "//" + host, path, parameters) == url;
    SlashRunFree(scheme, host, path + "?" + q);
    assert url == scheme + "//" + host + "/" + (path + "?" + q);
    CleanUrlOfClean(url);
  }

  /** A URL with no slash run to collapse and no `%` is left as it is. */
  lemma CleanUrlOfClean(url: string)
    requires RunFree(url, '/', ':') && '%' !in url
    ensures CleanUrl(url) == url
  {
    CollapseOfRunFree(url, '/', ':');
    StripWithoutPercent(url);
  }

  lemma SlashRunFree(a: string, b: string, c: string)
    requires |a| > 0 && a[|a| - 1] == ':' && '/' !in a
    requires |b| > 0 && '/' !in b && '/' !in c
    ensures RunFree(a + "//" + b + "/" + c, '/', ':')
  {
    var x := a + "//" + b + "/" + c;
    assert forall k :: 0 <= k < |x| && x[k] == '/' ==> k == |a| || k == |a| + 1 || k == |a| + 2 + |b|;
    assert x[|a| - 1] == ':';
  }

  /** Text of unreserved characters only: URL encoding leaves it alone. */
  predicate Word(s: string) {
    forall i :: 0 <= i < |s| ==> IsUnreserved(s[i])
  }

  /** The test request: base `https://httpbin.org`, path `get`, parameters
      `param1=value1` and `param 2=value2`; the URL is
      `https://httpbin.org/get?param1=value1&param+2=value2`. */
  lemma HttpbinExample(scheme: string, host: string, path: string,
                       k1: string, v1: string, a: string, b: string, v2: string)
    requires scheme == "https:" && host == "httpbin.org" && path == "get"
    requires k1 == "param1" && v1 == "value1" && a == "param" && b == "2" && v2 == "value2"
    ensures BuildUrl(Create(scheme + "//" + host, BuiltInDefaults).(parameters := [(k1, v1), (a + " " + b, v2)]), path)
            == scheme + "//" + host + "/" + path + "?" + k1 + "=" + v1 + "&" + a + "+" + b + "=" + v2
  {
    ExampleShape(scheme, host, path);
    ExampleWords(k1, v1, a, b, v2);
    TwoPairUrl(scheme, host, path, k1, v1, a, b, v2);
  }

  lemma ExampleShape(scheme: string, host: string, path: string)
    requires scheme == "https:" && host == "httpbin.org" && path == "get"
    ensures |scheme| > 0 && scheme[|scheme| - 1] == ':' && '/' !in scheme && '%' !in scheme
    ensures |host| > 0 && '/' !in host && '%' !in host
    ensures !PhpEmpty(path) && '/' !in path && '%' !in path
  {
  }

  lemma ExampleWords(k1: string, v1: string, a: string, b: string, v2: string)
    requires k1 == "param1" && v1 == "value1" && a == "param" && b == "2" && v2 == "value2"
    ensures Word(k1) && Word(v1) && Word(a) && Word(b) && Word(v2)
  {
  }

  /** `scheme//host/path` with two plain pairs, the second key being two
      words around a space: the URL carries the words verbatim and the
      space as `+`. */
  lemma TwoPairUrl(scheme: string, host: string, path: string,
                   k1: string, v1: string, a: string, b: string, v2: string)
    requires |scheme| > 0 && scheme[|scheme| - 1] == ':' && '/' !in scheme && '%' !in scheme
    requires |host| > 0 && '/' !in host && '%' !in host
    requires !PhpEmpty(path) && '/' !in path && '%' !in path
    requires Word(k1) && Word(v1) && Word(a) && Word(b) && Word(v2)
    ensures BuildUrl(Create(scheme + "//" + host, BuiltInDefaults).(parameters := [(k1, v1), (a + " " + b, v2)]), path)
            == scheme + "//" + host + "/" + path + "?" + k1 + "=" + v1 + "&" + a + "+" + b + "=" + v2
  {
    var ps := [(k1, v1), (a + " " + b, v2)];
    TwoPairsPlain(k1, v1, a, b, v2);
    BuildUrlShape(scheme, host, path, ps);
    TwoPairQuery(k1, v1, a, b, v2);
  }

  lemma TwoPairsPlain(k1: string, v1: string, a: string, b: string, v2: string)
    requires Word(k1) && Word(v1) && Word(a) && Word(b) && Word(v2)
    ensures var ps := [(k1, v1), (a + " " + b, v2)];
      forall i :: 0 <= i < |ps| ==> PlainText(ps[i].0) && PlainText(ps[i].1)
  {
    var s := a + " " + b;
    forall i | 0 <= i < |s| ensures IsUnreserved(s[i]) || s[i] == ' ' {
      if i > |a| {
        assert s[i] == b[i - |a| - 1];
      }
    }
  }

  /** The query of two plain pairs: the space becomes `+`, the rest is kept. */
  lemma TwoPairQuery(k1: string, v1: string, a: string, b: string, v2: string)
    requires Word(k1) && Word(v1) && Word(a) && Word(b) && Word(v2)
    ensures BuildQuery([(k1, v1), (a + " " + b, v2)]) == k1 + "=" + v1 + "&" + a + "+" + b + "=" + v2
  {
    var x := EncodePair(k1, v1);
    var y := EncodePair(a + " " + b, v2);
    assert x == k1 + "=" + v1 by {
      UrlEncodeUnreserved(k1);
      UrlEncodeUnreserved(v1);
    }
    assert y == a + "+" + b + "=" + v2 by {
      SpaceJoinEncoding(a, b);
      UrlEncodeUnreserved(v2);
    }
    BuildQueryOfTwo((k1, v1), (a + " " + b, v2));
  }

  /** Two unreserved words joined by a space encode as the words joined by `+`. */
  lemma SpaceJoinEncoding(a: string, b: string)
    requires forall i :: 0 <= i < |a| ==> IsUnreserved(a[i])
    requires forall i :: 0 <= i < |b| ==> IsUnreserved(b[i])
    ensures UrlEncode(a + " " + b) == a + "+" + b
  {
    UrlEncodeUnreserved(a);
    assert a + " " + b == a + ([' '] + b);
    UrlEncodeAppend(a, [' '] + b);
    SpaceThenWord(b);
    assert a + (['+'] + b) == a + "+" + b;
  }

  /** A space and then an unreserved word encode as `+` and the word. */
  lemma SpaceThenWord(b: string)
    requires forall i :: 0 <= i < |b| ==> IsUnreserved(b[i])
    ensures UrlEncode([' '] + b) == ['+'] + b
  {
    var s := [' '] + b;
    assert s[0] == ' ' && s[1..] == b;
    assert EncodeChar(' ') == ['+'];
    UrlEncodeUnreserved(b);
  }

  /** The query of two pairs is their encodings joined by `&`. */
  lemma BuildQueryOfTwo(p: (string, string), q: (string, string))
    ensures BuildQuery([p, q]) == EncodePair(p.0, p.1) + "&" + EncodePair(q.0, q.1)
  {
    var x := EncodePair(p.0, p.1);
    var y := EncodePair(q.0, q.1);
    assert EncodedPairs([p, q]) == [x] + [y];
    ImplodeCons(x, [y], '&');
  }

  // ---------------------------------------------------------------------------
  // The request handed to the transport
  // ---------------------------------------------------------------------------

  /** Everything `request` derives from the builder before the transfer. */
  datatype Prepared = Prepared(
    url: string,
    verb: string,
    payload: Payload,
    headerLines: Option<seq<string>>,
    cookie: string,
    connectTimeout: int,
    verifyPeer: bool,
    userPwd: Option<string>)

  /** `request($path, $method, $body)` up to the transfer: the body is encoded
      first and may fail; the rest cannot. */
  function Prepare(r: Request, path: string, m: Method, body: Body,
                   jsonEncode: seq<(string, Field)> -> string): (res: Result<Prepared>)
    ensures res.Failure? <==> ProcessBody(r.headers, body, jsonEncode).Failure?
    ensures res.Failure? ==> res.error == InvalidArgument(MissingBoundary)
    ensures res.Success? ==> res.value.url == BuildUrl(r, path)
    ensures res.Success? ==> RunFree(res.value.url, '/', ':') && IndexFree(res.value.url)
    ensures res.Success? ==> res.value.payload == ProcessBody(r.headers, body, jsonEncode).value
    ensures res.Success? ==> res.value.verb == MethodName(m) && res.value.cookie == CookieString(r.cookies)
    ensures res.Success? ==> res.value.headerLines == HeaderOption(r.headers)
    ensures res.Success? ==> res.value.connectTimeout == r.timeout && res.value.verifyPeer == r.verifySslCertificate
    ensures res.Success? ==> res.value.userPwd == UserPwd(r)
  {
    match ProcessBody(r.headers, body, jsonEncode)
    case Failure(e) => Failure(e)
    case Success(payload) =>
      Success(Prepared(BuildUrl(r, path), MethodName(m), payload, HeaderOption(r.headers),
                       CookieString(r.cookies), r.timeout, r.verifySslCertificate, UserPwd(r)))
  }

  /** A multipart content type set through the builder makes an array body
      encode as multipart with the synthesised boundary. */
  lemma MultipartRequestUsesBoundary(r: Request, contentType: string, id: string,
                                     fields: seq<(string, Field)>, jsonEncode: seq<(string, Field)> -> string)
    requires |Values(r.headers, "Content-Type")| == 0
    requires ContainsCI(Trim(contentType), "multipart/") && !ContainsCI(Trim(contentType), "boundary")
    requires |id| >= 1 && '"' !in id && ';' !in id
    requires EncodingFor(ContentTypeValue(contentType, id)) == MultipartForm
    ensures ProcessBody(ContentType(r, contentType, id).headers, Structured(fields), jsonEncode)
            == Success(Encoded(Multipart(fields, id)))
  {
    ContentTypeBoundaryRoundTrip(contentType, id);
    var h := ContentType(r, contentType, id).headers;
    FirstContentTypeSet(r, contentType, id);
    ProcessBodyEncodes(h, fields, jsonEncode);
  }

  /** On a request without a content type, `contentType` sets the first one. */
  lemma FirstContentTypeSet(r: Request, contentType: string, id: string)
    requires |Values(r.headers, "Content-Type")| == 0
    ensures FirstContentType(ContentType(r, contentType, id).headers) == Some(ContentTypeValue(contentType, id))
  {
    var h := ContentType(r, contentType, id).headers;
    assert Values(h, "Content-Type") == [ContentTypeValue(contentType, id)];
  }

  /** A content type the encoder reads as a form makes an array body encode
      as a query string that reads back to the field pairs. */
  lemma FormRequestRoundTrip(r: Request, contentType: string, id: string,
                             fields: seq<(string, Field)>, jsonEncode: seq<(string, Field)> -> string)
    requires |Values(r.headers, "Content-Type")| == 0
    requires EncodingFor(ContentTypeValue(contentType, id)) == Form
    requires |FormPairs(fields)| > 0
    ensures var h := ContentType(r, contentType, id).headers;
      ProcessBody(h, Structured(fields), jsonEncode) == Success(Encoded(FormQuery(fields)))
      && DecodeQuery(FormQuery(fields)) == Some(PairBytes(FormPairs(fields)))
  {
    var h := ContentType(r, contentType, id).headers;
    FirstContentTypeSet(r, contentType, id);
    ProcessBodyEncodes(h, fields, jsonEncode);
    BuildQueryRoundTrip(FormPairs(fields));
  }
}

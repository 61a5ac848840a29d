/** The response object: what the constructor derives from the transfer (the
    cookie map, the body behind the header block, the content length), the
    header and cookie lookups, the choice of content decoder and `isError`;
    and the end of `send`, which turns a transport error into an exception. */
module HttpResponse {
  import opened Results
  import opened PhpStrings
  import opened OrderedMap
  import opened HeaderCallback
  import HttpStatus
  import HttpCookie

  type Cookie = HttpCookie.Cookie

  /** The entries of the transfer's info array the constructor reads; a
      missing `content_type` or `content_length` is None. */
  datatype RequestInfo = RequestInfo(
    url: string,
    httpCode: int,
    contentType: Option<string>,
    headerSize: int,
    contentLength: Option<int>)

  /** What the transfer returned: `false`, or the header block followed by the body. */
  datatype Transfer = Failed | Received(text: string)

  /** The fields of a response; a field the constructor leaves unset is None. */
  datatype Response = Response(
    url: string,
    httpStatus: int,
    headers: Multi<string>,
    cookies: Entries<Cookie>,
    contentType: Option<string>,
    headerSize: Option<int>,
    contentLength: Option<int>,
    content: Option<string>,
    error: string)

  // ---------------------------------------------------------------------------
  // Cookies
  // ---------------------------------------------------------------------------

  /** A header whose name contains `Set-Cookie` in any case carries cookies. */
  predicate IsCookieHeader(name: string) {
    ContainsCI(name, "Set-Cookie")
  }

  /** The cookie strings, header by header and in order within each header. */
  function CookieStrings(headers: Multi<string>): (vs: seq<string>)
    decreases |headers|
  {
    if |headers| == 0 then []
    else
      var last := headers[|headers| - 1];
      CookieStrings(headers[..|headers| - 1]) + (if IsCookieHeader(last.0) then last.1 else [])
  }

  /** The array key a parsed cookie is stored under: its name, and "" for a
      cookie without one (PHP turns a `null` key into ""). */
  function CookieKey(c: Cookie): string {
    c.name.GetOr("")
  }

  /** The cookie strings parsed, in order. */
  function ParseAll(vs: seq<string>, strtotime: string -> Option<int>): (cs: seq<Cookie>)
    ensures |cs| == |vs|
    ensures forall j :: 0 <= j < |vs| ==> cs[j] == HttpCookie.Parse(vs[j], strtotime)
  {
    seq(|vs|, j requires 0 <= j < |vs| => HttpCookie.Parse(vs[j], strtotime))
  }

  /** The cookies paired with their keys, as the loop assigns them. */
  function Keyed(cs: seq<Cookie>): (ps: seq<(string, Cookie)>)
    ensures |ps| == |cs|
    ensures forall j :: 0 <= j < |cs| ==> ps[j] == (CookieKey(cs[j]), cs[j])
  {
    seq(|cs|, j requires 0 <= j < |cs| => (CookieKey(cs[j]), cs[j]))
  }

  /** The cookies of the `Set-Cookie` headers, in order. */
  function ResponseCookies(headers: Multi<string>, strtotime: string -> Option<int>): seq<Cookie> {
    ParseAll(CookieStrings(headers), strtotime)
  }

  /** `processCookieHeaders($headers)` */
  function ProcessCookieHeaders(headers: Multi<string>, strtotime: string -> Option<int>): (cookies: Entries<Cookie>)
    ensures UniqueKeys(cookies)
  {
    PutAllUniqueKeys([], Keyed(ResponseCookies(headers, strtotime)));
    PutAll([], Keyed(ResponseCookies(headers, strtotime)))
  }

  /** A string is a cookie string exactly when it is one of the values of a
      `Set-Cookie` header. */
  lemma {:induction false} CookieStringsFromHeaders(headers: Multi<string>, s: string)
    ensures s in CookieStrings(headers) <==>
              exists i, j :: 0 <= i < |headers| && IsCookieHeader(headers[i].0)
                             && 0 <= j < |headers[i].1| && headers[i].1[j] == s
    decreases |headers|
  {
    if |headers| > 0 {
      var init, last := headers[..|headers| - 1], headers[|headers| - 1];
      CookieStringsFromHeaders(init, s);
      var own := if IsCookieHeader(last.0) then last.1 else [];
      assert CookieStrings(headers) == CookieStrings(init) + own;
      if s in own {
        var j :| 0 <= j < |own| && own[j] == s;
        assert headers[|headers| - 1].1[j] == s;
      }
      if exists i, j :: 0 <= i < |headers| && IsCookieHeader(headers[i].0)
                        && 0 <= j < |headers[i].1| && headers[i].1[j] == s {
        var i, j :| 0 <= i < |headers| && IsCookieHeader(headers[i].0)
                    && 0 <= j < |headers[i].1| && headers[i].1[j] == s;
        if i < |headers| - 1 {
          assert init[i] == headers[i];
        } else {
          assert own[j] == s;
        }
      }
    }
  }

  /** In the map `m` built from the cookies `cs`, the key `k` holds the last
      cookie with that key, and is absent when no cookie has it. */
  ghost predicate LastCookieWins(cs: seq<Cookie>, m: Entries<Cookie>, k: string) {
    ((forall j :: 0 <= j < |cs| ==> CookieKey(cs[j]) != k) ==> Get(m, k) == None)
    && (forall j :: 0 <= j < |cs| && CookieKey(cs[j]) == k && (forall l :: j < l < |cs| ==> CookieKey(cs[l]) != k)
          ==> Get(m, k) == Some(cs[j]))
  }

  /** Last write wins over the cookies of the `Set-Cookie` headers. */
  lemma CookieMapLastWins(headers: Multi<string>, strtotime: string -> Option<int>, k: string)
    ensures LastCookieWins(ResponseCookies(headers, strtotime), ProcessCookieHeaders(headers, strtotime), k)
  {
    ProcessCookieHeadersAssigns(headers, strtotime);
    LastWinsKeyed(ResponseCookies(headers, strtotime), k);
  }

  lemma ProcessCookieHeadersAssigns(headers: Multi<string>, strtotime: string -> Option<int>)
    ensures ProcessCookieHeaders(headers, strtotime) == PutAll([], Keyed(ResponseCookies(headers, strtotime)))
  {
  }

  lemma LastWinsKeyed(cs: seq<Cookie>, k: string)
    ensures LastCookieWins(cs, PutAll([], Keyed(cs)), k)
  {
    var ps := Keyed(cs);
    if forall j :: 0 <= j < |cs| ==> CookieKey(cs[j]) != k {
      assert forall j :: 0 <= j < |ps| ==> ps[j].0 != k;
      PutAllUntouched([], ps, k);
    }
    forall j | 0 <= j < |cs| && CookieKey(cs[j]) == k && (forall l :: j < l < |cs| ==> CookieKey(cs[l]) != k)
      ensures Get(PutAll([], ps), k) == Some(cs[j])
    {
      assert IsLastFor(ps, k, j);
      PutAllLast([], ps, k, j);
    }
  }

  // ---------------------------------------------------------------------------
  // Construction
  // ---------------------------------------------------------------------------

  /** `processContent($response, $headerSize)`: the text after the header block. */
  function ProcessContent(text: string, headerSize: int): (content: string)
    ensures 0 <= headerSize <= |text| ==> text[..headerSize] + content == text
    ensures headerSize > |text| ==> content == ""
  {
    Substr(text, headerSize)
  }

  /** The constructor: url, status, headers, cookies and error always; the
      content fields only when the transfer returned text. */
  function Construct(info: RequestInfo, headers: Multi<string>, transfer: Transfer, error: string,
                     strtotime: string -> Option<int>): (r: Response)
    ensures r.url == info.url && r.httpStatus == info.httpCode && r.headers == headers && r.error == error
    ensures r.cookies == ProcessCookieHeaders(headers, strtotime)
    ensures transfer.Failed? ==> r.contentType == None && r.headerSize == None
                                 && r.contentLength == None && r.content == None
    ensures transfer.Received? ==> r.contentType == info.contentType && r.headerSize == Some(info.headerSize)
    ensures transfer.Received? ==> r.content == Some(ProcessContent(transfer.text, info.headerSize))
    ensures transfer.Received? ==>
              r.contentLength == Some(ContentLength(info.contentLength, transfer.text, info.headerSize))
  {
    var cookies := ProcessCookieHeaders(headers, strtotime);
    match transfer
    case Failed =>
      Response(info.url, info.httpCode, headers, cookies, None, None, None, None, error)
    case Received(text) =>
      Response(info.url, info.httpCode, headers, cookies, info.contentType, Some(info.headerSize),
               Some(ContentLength(info.contentLength, text, info.headerSize)),
               Some(ProcessContent(text, info.headerSize)), error)
  }

  /** `$info["content_length"] ?? strlen($response) - $headerSize` */
  function ContentLength(reported: Option<int>, text: string, headerSize: int): int {
    if reported.Some? then reported.value else |text| - headerSize
  }

  /** Without a reported length, the length is the size of the content, for
      a header size within the text. */
  lemma ContentLengthFallback(info: RequestInfo, headers: Multi<string>, text: string, error: string,
                              strtotime: string -> Option<int>)
    requires info.contentLength.None? && 0 <= info.headerSize <= |text|
    ensures var r := Construct(info, headers, Received(text), error, strtotime);
      r.contentLength == Some(|r.content.value|)
      && text == text[..info.headerSize] + r.content.value
  {
    FallbackOf(Construct(info, headers, Received(text), error, strtotime), text, info.headerSize);
  }

  lemma FallbackOf(r: Response, text: string, headerSize: int)
    requires 0 <= headerSize <= |text|
    requires r.content == Some(ProcessContent(text, headerSize))
    requires r.contentLength == Some(ContentLength(None, text, headerSize))
    ensures r.contentLength == Some(|r.content.value|) && text == text[..headerSize] + r.content.value
  {
    assert |text[..headerSize] + r.content.value| == |text|;
  }

  // ---------------------------------------------------------------------------
  // Lookups
  // ---------------------------------------------------------------------------

  /** `getHeader($name)`: the list stored under exactly `name`, or null. */
  function GetHeader(r: Response, name: string): (v: Option<seq<string>>)
    ensures v.Some? <==> HasKey(r.headers, name)
    ensures v.Some? ==> v.value == Values(r.headers, name)
  {
    Get(r.headers, name)
  }

  /** On a response built from header lines, a lookup gives the values the
      callback recorded under exactly that name, in arrival order, and null
      when there are none. */
  lemma GetHeaderOfCollected(info: RequestInfo, lines: seq<string>, transfer: Transfer, error: string,
                             strtotime: string -> Option<int>, name: string)
    ensures var v := GetHeader(Construct(info, CollectHeaders(lines), transfer, error, strtotime), name);
      (v == None <==> ValuesFor(Recorded(lines), name) == [])
      && (v.Some? ==> v.value == ValuesFor(Recorded(lines), name))
  {
    CollectHeadersValues(lines, name);
    CollectHeadersKeys(lines, name);
  }

  /** `getCookie($name)`; the declared non-null return type makes an absent
      name an error, so the name must be present. */
  function GetCookie(r: Response, name: string): (c: Cookie)
    requires HasKey(r.cookies, name)
    ensures Get(r.cookies, name) == Some(c)
  {
    Get(r.cookies, name).value
  }

  /** The cookie under a name is the one parsed from the last `Set-Cookie`
      value with that name. */
  lemma GetCookieLastWins(info: RequestInfo, headers: Multi<string>, transfer: Transfer, error: string,
                          strtotime: string -> Option<int>, name: string, j: int)
    requires var cs := ResponseCookies(headers, strtotime);
      0 <= j < |cs| && CookieKey(cs[j]) == name && forall l :: j < l < |cs| ==> CookieKey(cs[l]) != name
    ensures var r := Construct(info, headers, transfer, error, strtotime);
      HasKey(r.cookies, name) && GetCookie(r, name) == HttpCookie.Parse(CookieStrings(headers)[j], strtotime)
  {
    CookieMapLastWins(headers, strtotime, name);
  }

  // ---------------------------------------------------------------------------
  // Content
  // ---------------------------------------------------------------------------

  const JsonMime := "application/json"
  const TextXmlMime := "text/xml"
  const XmlMime := "application/xml"

  datatype Decoder = JsonDecoder | XmlDecoder | NoDecoder

  /** The decoder `getContent` picks: a case-sensitive substring test, JSON
      first. A missing content type reads as "". */
  function DecoderFor(contentType: string): (d: Decoder)
    ensures d == JsonDecoder <==> Contains(contentType, JsonMime)
    ensures d == XmlDecoder <==>
              !Contains(contentType, JsonMime) && (Contains(contentType, TextXmlMime) || Contains(contentType, XmlMime))
  {
    if Contains(contentType, JsonMime) then JsonDecoder
    else if Contains(contentType, TextXmlMime) || Contains(contentType, XmlMime) then XmlDecoder
    else NoDecoder
  }

  /** What `getContent` returns: `json_decode` and `simplexml_load_string`
      are parameters, applied to the stored content. */
  datatype Content<J, X> = Decoded(json: J) | Loaded(xml: X) | Raw(raw: Option<string>)

  function GetContent<J, X>(r: Response, jsonDecode: Option<string> -> J, xmlLoad: Option<string> -> X): (c: Content<J, X>)
    ensures c.Decoded? <==> DecoderFor(r.contentType.GetOr("")) == JsonDecoder
    ensures c.Loaded? <==> DecoderFor(r.contentType.GetOr("")) == XmlDecoder
    ensures c.Decoded? ==> c.json == jsonDecode(r.content)
    ensures c.Loaded? ==> c.xml == xmlLoad(r.content)
    ensures c.Raw? ==> c.raw == r.content
  {
    match DecoderFor(r.contentType.GetOr(""))
    case JsonDecoder => Decoded(jsonDecode(r.content))
    case XmlDecoder => Loaded(xmlLoad(r.content))
    case NoDecoder => Raw(r.content)
  }

  /** Parameters or other text around the type do not matter: any content
      type with `application/json` in it is decoded as JSON, and any with one
      of the XML types but no JSON type is loaded as XML. */
  lemma DecoderIgnoresSurroundings(pre: string, mime: string, post: string)
    requires mime == JsonMime || mime == TextXmlMime || mime == XmlMime
    ensures mime == JsonMime ==> DecoderFor(pre + mime + post) == JsonDecoder
    ensures mime != JsonMime && !Contains(pre + mime + post, JsonMime) ==> DecoderFor(pre + mime + post) == XmlDecoder
  {
    ContainsInside(pre, mime, post);
  }

  /** The test is case-sensitive: an upper-case type gets no decoder. */
  lemma UpperCaseTypeIsRaw(contentType: string)
    requires contentType == "APPLICATION/JSON" || contentType == "TEXT/XML" || contentType == "APPLICATION/XML"
    ensures DecoderFor(contentType) == NoDecoder
  {
    NotOccursWithoutChar(contentType, JsonMime, false, 0);
    NotOccursWithoutChar(contentType, TextXmlMime, false, 0);
    NotOccursWithoutChar(contentType, XmlMime, false, 0);
  }

  /** A response whose transfer failed has no content type, so its content is
      returned raw, and it is the unset content. */
  lemma FailedTransferIsRaw<J, X>(info: RequestInfo, headers: Multi<string>, error: string,
                                  strtotime: string -> Option<int>,
                                  jsonDecode: Option<string> -> J, xmlLoad: Option<string> -> X)
    ensures GetContent(Construct(info, headers, Failed, error, strtotime), jsonDecode, xmlLoad) == Raw(None)
  {
    var r := Construct(info, headers, Failed, error, strtotime);
    assert r.contentType.GetOr("") == "";
    assert !Contains("", JsonMime) && !Contains("", TextXmlMime) && !Contains("", XmlMime);
  }

  // ---------------------------------------------------------------------------
  // Errors
  // ---------------------------------------------------------------------------

  /** `isError()`: a transport error, or a client or server error status. */
  predicate IsError(r: Response) {
    !PhpEmpty(r.error) || HttpStatus.IsError(r.httpStatus)
  }

  /** The end of `send`: a transport error that is not PHP-empty is thrown;
      otherwise the response is built from the collected header lines. */
  function Send(info: RequestInfo, lines: seq<string>, transfer: Transfer, error: string,
                strtotime: string -> Option<int>): (res: Result<Response>)
    ensures res.Failure? <==> !PhpEmpty(error)
    ensures res.Failure? ==> res.error == RequestFailed(error)
    ensures res.Success? ==> res.value == Construct(info, CollectHeaders(lines), transfer, error, strtotime)
  {
    if !PhpEmpty(error) then Failure(RequestFailed(error))
    else Success(Construct(info, CollectHeaders(lines), transfer, error, strtotime))
  }

  /** `isError` holds exactly for a transport error or a status in 400..599;
      on a response `send` returns, only the status is left to decide it. */
  lemma IsErrorOfConstruct(info: RequestInfo, headers: Multi<string>, transfer: Transfer, error: string,
                           strtotime: string -> Option<int>)
    ensures IsError(Construct(info, headers, transfer, error, strtotime)) <==>
              !PhpEmpty(error) || (400 <= info.httpCode < 600)
  {
    HttpStatus.IsErrorIsUnion(info.httpCode);
  }

  lemma SentResponseErrorIsStatus(info: RequestInfo, lines: seq<string>, transfer: Transfer, error: string,
                                  strtotime: string -> Option<int>)
    requires Send(info, lines, transfer, error, strtotime).Success?
    ensures IsError(Send(info, lines, transfer, error, strtotime).value) <==> HttpStatus.IsError(info.httpCode)
    ensures IsError(Send(info, lines, transfer, error, strtotime).value) <==>
              HttpStatus.IsClientError(info.httpCode) || HttpStatus.IsServerError(info.httpCode)
  {
    HttpStatus.IsErrorIsUnion(info.httpCode);
  }
}

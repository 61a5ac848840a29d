/** The older copy of the response class kept at the top of the repository.
    Construction, the cookie map and the body are the same as in the current
    class; the lookups differ: an absent header gives `false`, and the content
    decoder is chosen by exact equality of the content type. */
module LegacyHttpResponse {
  import opened Results
  import opened PhpStrings
  import opened OrderedMap
  import opened HttpResponse

  /** The legacy constructor: the same derivation as the current class. */
  function Construct(info: RequestInfo, headers: Multi<string>, transfer: Transfer, error: string,
                     strtotime: string -> Option<int>): (r: Response)
    ensures r.url == info.url && r.httpStatus == info.httpCode && r.headers == headers && r.error == error
    ensures UniqueKeys(r.cookies)
    ensures transfer.Failed? ==> r.content == None && r.contentLength == None && r.contentType == None
    ensures transfer.Received? && 0 <= info.headerSize <= |transfer.text| ==>
              r.content.Some? && transfer.text == transfer.text[..info.headerSize] + r.content.value
    ensures transfer.Received? && info.contentLength.None? && 0 <= info.headerSize <= |transfer.text| ==>
              r.contentLength == Some(|r.content.value|)
  {
    HttpResponse.Construct(info, headers, transfer, error, strtotime)
  }

  /** A header lookup: the stored list, or PHP `false`. */
  datatype Lookup = Found(values: seq<string>) | NotFound

  /** `getHeader($name)` */
  function GetHeader(r: Response, name: string): (l: Lookup)
    ensures l.Found? <==> HasKey(r.headers, name)
    ensures l.Found? ==> l.values == Values(r.headers, name)
  {
    match Get(r.headers, name)
    case Some(vs) => Found(vs)
    case None => NotFound
  }

  /** The two classes find the same lists; only the absent case differs
      (`false` here, `null` in the current class). */
  lemma GetHeaderMatchesCurrent(r: Response, name: string)
    ensures GetHeader(r, name) == NotFound <==> HttpResponse.GetHeader(r, name) == None
    ensures GetHeader(r, name).Found? ==> HttpResponse.GetHeader(r, name) == Some(GetHeader(r, name).values)
  {
  }

  /** The decoder `getContent` picks: exact equality with one of the types. */
  function DecoderFor(contentType: string): (d: Decoder)
    ensures d == JsonDecoder <==> contentType == JsonMime
    ensures d == XmlDecoder <==> contentType == TextXmlMime || contentType == XmlMime
  {
    if contentType == JsonMime then JsonDecoder
    else if contentType == TextXmlMime || contentType == XmlMime then XmlDecoder
    else NoDecoder
  }

  /** `getContent()` with the decoders as parameters. */
  function GetContent<J, X>(r: Response, jsonDecode: Option<string> -> J, xmlLoad: Option<string> -> X): (c: Content<J, X>)
    ensures c.Decoded? <==> r.contentType == Some(JsonMime)
    ensures c.Loaded? <==> r.contentType == Some(TextXmlMime) || r.contentType == Some(XmlMime)
    ensures c.Decoded? ==> c.json == jsonDecode(r.content)
    ensures c.Loaded? ==> c.xml == xmlLoad(r.content)
    ensures c.Raw? ==> c.raw == r.content
  {
    match DecoderFor(r.contentType.GetOr(""))
    case JsonDecoder => Decoded(jsonDecode(r.content))
    case XmlDecoder => Loaded(xmlLoad(r.content))
    case NoDecoder => Raw(r.content)
  }

  /** Exact equality is the stricter test: whatever the legacy class decodes,
      the current class decodes the same way. */
  lemma ExactDispatchIsStricter(contentType: string)
    ensures DecoderFor(contentType) != NoDecoder ==> HttpResponse.DecoderFor(contentType) == DecoderFor(contentType)
  {
    if contentType == JsonMime {
      ContainsInside("", JsonMime, "");
      assert "" + JsonMime + "" == contentType;
    } else if contentType == TextXmlMime || contentType == XmlMime {
      ContainsInside("", contentType, "");
      assert "" + contentType + "" == contentType;
      LongerNeedleAbsent(contentType, JsonMime);
    }
  }

  /** A needle longer than the haystack cannot occur in it. */
  lemma LongerNeedleAbsent(s: string, pat: string)
    requires |pat| > |s|
    ensures !Contains(s, pat)
  {
  }

  /** A JSON type with a parameter, as servers commonly send it: the current
      class decodes it, the legacy class returns the raw text. */
  lemma CharsetParameterIsRaw(contentType: string, parameter: string)
    requires contentType == JsonMime + parameter && parameter != ""
    ensures DecoderFor(contentType) == NoDecoder
    ensures HttpResponse.DecoderFor(contentType) == JsonDecoder
  {
    ContainsInside("", JsonMime, parameter);
    assert "" + JsonMime + parameter == contentType;
    assert |contentType| > |JsonMime|;
    assert contentType != TextXmlMime && contentType != XmlMime by {
      assert contentType[0] == 'a' && contentType[12] == 'j';
    }
  }

  /** `isError()` is the current class's test: a transport error, or a status
      in 400..599. */
  lemma IsErrorOfLegacyConstruct(info: RequestInfo, headers: Multi<string>, transfer: Transfer, error: string,
                                 strtotime: string -> Option<int>)
    ensures HttpResponse.IsError(Construct(info, headers, transfer, error, strtotime)) <==>
              !PhpEmpty(error) || (400 <= info.httpCode < 600)
  {
    IsErrorOfConstruct(info, headers, transfer, error, strtotime);
  }
}

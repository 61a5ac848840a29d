/** How a request body is encoded before it is handed to the transport:
    the dispatch on the first `Content-Type` value, the extraction of a
    multipart boundary from that value, and the `multipart/form-data` builder
    (which separates lines with `\n` and leaves the `filename` quote open). */
module RequestBody {
  import opened Results
  import opened PhpStrings
  import opened OrderedMap
  import opened QueryString

  // ---------------------------------------------------------------------------
  // Boundary extraction: preg_match('/boundary="([^\"]+)"/is', ...)
  // ---------------------------------------------------------------------------

  const BoundaryKey: string := "boundary=\""

  const MissingBoundary: string :=
    "The provided Content-Type header contained a 'multipart/*' content type but did not define a boundary."

  /** Length of the quote-free run at the start of `s`. */
  function QuoteFreeRun(s: string): (k: nat)
    ensures k <= |s|
    ensures forall i :: 0 <= i < k ==> s[i] != '"'
    ensures k < |s| ==> s[k] == '"'
    decreases |s|
  {
    if |s| == 0 || s[0] == '"' then 0 else 1 + QuoteFreeRun(s[1..])
  }

  /** The whole regex matches at `i`: the key (any case), one or more
      non-quote characters, then a quote. The greedy class takes the maximal
      run, which must be followed by the closing quote. */
  predicate BoundaryMatchAt(s: string, i: nat) {
    MatchesAt(s, i, BoundaryKey, true)
    && var k := QuoteFreeRun(s[i + |BoundaryKey|..]);
    k >= 1 && i + |BoundaryKey| + k < |s|
  }

  /** The captured group of a match at `i`. */
  function CaptureAt(s: string, i: nat): (b: string)
    requires BoundaryMatchAt(s, i)
    ensures |b| >= 1 && '"' !in b
    ensures i + |BoundaryKey| + |b| < |s|
    ensures s[i + |BoundaryKey|..i + |BoundaryKey| + |b|] == b
    ensures s[i + |BoundaryKey| + |b|] == '"'
  {
    var start := i + |BoundaryKey|;
    var b := s[start..start + QuoteFreeRun(s[start..])];
    assert forall j :: 0 <= j < |b| ==> b[j] == s[start..][j];
    b
  }

  /** The leftmost match at or after `from`. */
  function FindBoundary(s: string, from: nat): (r: Option<nat>)
    ensures r.Some? ==> from <= r.value && BoundaryMatchAt(s, r.value)
    ensures r.Some? ==> forall j: nat :: from <= j < r.value ==> !BoundaryMatchAt(s, j)
    ensures r.None? ==> forall j: nat :: from <= j ==> !BoundaryMatchAt(s, j)
    decreases |s| - from
  {
    if from >= |s| then None
    else if BoundaryMatchAt(s, from) then Some(from)
    else FindBoundary(s, from + 1)
  }

  /** `parseBoundaryFromContentType`: the boundary of the leftmost match, or an
      invalid-argument error when there is none. */
  function ParseBoundary(contentType: string): (r: Result<string>)
    ensures r.Success? <==> exists i: nat :: BoundaryMatchAt(contentType, i)
    ensures r.Success? ==> |r.value| >= 1 && '"' !in r.value
    ensures r.Success? ==> exists i: nat :: BoundaryMatchAt(contentType, i)
                                         && (forall j: nat :: j < i ==> !BoundaryMatchAt(contentType, j))
                                         && r.value == CaptureAt(contentType, i)
    ensures r.Failure? ==> r.error == InvalidArgument(MissingBoundary)
  {
    match FindBoundary(contentType, 0)
    case Some(i) => Success(CaptureAt(contentType, i))
    case None => Failure(InvalidArgument(MissingBoundary))
  }

  /** Extracting from `pre + "boundary=\"" + b + "\"" + post` gives `b` when
      no match starts inside `pre` and `b` is a non-empty quote-free string. */
  lemma ParseBoundaryOf(pre: string, b: string, post: string)
    requires forall i: nat :: i < |pre| ==> !MatchesAt(pre + BoundaryKey, i, BoundaryKey, true)
    requires |b| >= 1 && '"' !in b
    ensures ParseBoundary(pre + BoundaryKey + b + "\"" + post) == Success(b)
  {
    var s := pre + BoundaryKey + b + "\"" + post;
    MatchAtKey(pre, b, post);
    NoEarlierMatch(pre, b + "\"" + post);
    assert s == pre + BoundaryKey + (b + "\"" + post);
    var r := FindBoundary(s, 0);
    assert r.Some? && r.value == |pre|;
  }

  lemma MatchAtKey(pre: string, b: string, post: string)
    requires |b| >= 1 && '"' !in b
    ensures BoundaryMatchAt(pre + BoundaryKey + b + "\"" + post, |pre|)
    ensures CaptureAt(pre + BoundaryKey + b + "\"" + post, |pre|) == b
  {
    var tail := b + ("\"" + post);
    var s := pre + (BoundaryKey + tail);
    assert s == pre + BoundaryKey + b + "\"" + post;
    var i := |pre|;
    assert s[i..i + |BoundaryKey|] == BoundaryKey;
    assert s[i + |BoundaryKey|..] == tail;
    QuoteFreeRunOf(b, "\"" + post);
    assert BoundaryMatchAt(s, i);
    var c := CaptureAt(s, i);
    assert |c| == |b|;
    assert c == tail[..|b|];
  }

  lemma NoEarlierMatch(pre: string, rest: string)
    requires forall i: nat :: i < |pre| ==> !MatchesAt(pre + BoundaryKey, i, BoundaryKey, true)
    ensures forall j: nat :: j < |pre| ==> !BoundaryMatchAt(pre + BoundaryKey + rest, j)
  {
    var s := pre + BoundaryKey + rest;
    forall j: nat | j < |pre| ensures !MatchesAt(s, j, BoundaryKey, true) {
      assert !MatchesAt(pre + BoundaryKey, j, BoundaryKey, true);
      assert s[j..j + |BoundaryKey|] == (pre + BoundaryKey)[j..j + |BoundaryKey|];
    }
  }

  lemma {:induction false} QuoteFreeRunOf(b: string, rest: string)
    requires '"' !in b && |rest| > 0 && rest[0] == '"'
    ensures QuoteFreeRun(b + rest) == |b|
    decreases |b|
  {
    if |b| == 0 {
      assert b + rest == rest;
    } else {
      assert (b + rest)[1..] == b[1..] + rest;
      QuoteFreeRunOf(b[1..], rest);
    }
  }

  /** Without the key anywhere (in any case) there is no boundary. */
  lemma NoKeyNoBoundary(s: string)
    requires !ContainsCI(s, BoundaryKey)
    ensures ParseBoundary(s) == Failure(InvalidArgument(MissingBoundary))
  {
  }

  /** A match of the key is a match of the word `boundary`. */
  lemma KeyPrefixMatch(s: string, i: nat)
    requires MatchesAt(s, i, BoundaryKey, true)
    ensures MatchesAt(s, i, "boundary", true)
  {
    assert Fold(s[i..i + 8], true) == Fold(s[i..i + |BoundaryKey|], true)[..8];
    assert Fold("boundary", true) == Fold(BoundaryKey, true)[..8];
  }

  /** A match ends with the opening quote. */
  lemma MatchEndsWithQuote(s: string, i: nat)
    requires MatchesAt(s, i, BoundaryKey, true)
    ensures s[i + 9] == '"'
  {
    assert Fold(s[i..i + |BoundaryKey|], true)[9] == Fold(BoundaryKey, true)[9];
  }

  /** An empty quoted boundary does not count as one. */
  lemma EmptyBoundaryRejected(pre: string, post: string)
    requires '"' !in pre && '"' !in post
    ensures ParseBoundary(pre + BoundaryKey + "\"" + post).Failure?
  {
    var s := pre + BoundaryKey + "\"" + post;
    QuotePositions(pre, post);
    forall i: nat | MatchesAt(s, i, BoundaryKey, true) ensures !BoundaryMatchAt(s, i) {
      MatchEndsWithQuote(s, i);
      if i == |pre| {
        assert s[i + |BoundaryKey|] == '"';
      } else {
        assert i == |pre| + 1;
        assert s[i + |BoundaryKey|..] == post;
      }
    }
  }

  /** The only quotes are the key's and the one after it. */
  lemma QuotePositions(pre: string, post: string)
    requires '"' !in pre && '"' !in post
    ensures var s := pre + BoundaryKey + "\"" + post;
      forall k :: 0 <= k < |s| && s[k] == '"' ==> k == |pre| + 9 || k == |pre| + 10
  {
    var s := pre + BoundaryKey + "\"" + post;
    forall k | 0 <= k < |s| && s[k] == '"' ensures k == |pre| + 9 || k == |pre| + 10 {
      if |pre| <= k < |pre| + 10 {
        assert s[k] == BoundaryKey[k - |pre|];
      }
    }
  }

  // ---------------------------------------------------------------------------
  // Body fields
  // ---------------------------------------------------------------------------

  /** A field of an array body: a scalar string, or a nested array whose
      `data` and `filename` entries describe a file part. */
  datatype Field = Text(value: string) | Part(entries: Entries<string>)

  /** `$value['data']`: a missing entry reads as null, which interpolates as "". */
  function PartData(entries: Entries<string>): string {
    Get(entries, "data").GetOr("")
  }

  /** `isset($value['filename']) ? $value['filename'] : false` */
  function PartFilename(entries: Entries<string>): Option<string> {
    Get(entries, "filename")
  }

  // ---------------------------------------------------------------------------
  // multipartBuildBody
  // ---------------------------------------------------------------------------

  /** The delimiter line that opens a part. */
  function Delimiter(boundary: string): string {
    "--" + boundary + "\n"
  }

  /** The opening of every part: delimiter line and disposition with the name. */
  function Disposition(boundary: string, name: string): string {
    Delimiter(boundary) + "Content-Disposition: form-data; name=\"" + name + "\""
  }

  /** The text one field contributes. */
  function PartOf(name: string, f: Field, boundary: string): string {
    match f
    case Part(entries) =>
      Disposition(boundary, name)
      + (match PartFilename(entries) case Some(fname) => ";filename=\"" + fname case None => "")
      + "\n\n" + PartData(entries) + "\n"
    case Text(v) =>
      if PhpEmpty(v) then "" else Disposition(boundary, name) + "\n\n" + v + "\n"
  }

  /** The text of each field, in order. */
  function PartTexts(fields: seq<(string, Field)>, boundary: string): (ts: seq<string>)
    ensures |ts| == |fields|
    ensures forall i :: 0 <= i < |fields| ==> ts[i] == PartOf(fields[i].0, fields[i].1, boundary)
  {
    seq(|fields|, i requires 0 <= i < |fields| => PartOf(fields[i].0, fields[i].1, boundary))
  }

  /** The parts of the fields, in order. */
  function Parts(fields: seq<(string, Field)>, boundary: string): string {
    Concat(PartTexts(fields, boundary))
  }

  /** `multipartBuildBody($fields, $boundary)`: the parts, then the closing delimiter. */
  function Multipart(fields: seq<(string, Field)>, boundary: string): (body: string)
    ensures |body| >= |boundary| + 4
    ensures body[|body| - |boundary| - 4..] == "--" + boundary + "--"
  {
    var closing := "--" + boundary + "--";
    var body := Parts(fields, boundary) + closing;
    assert body[|body| - |closing|..] == closing;
    body
  }

  /** Whether a field produces a part: every nested array does, a scalar only
      when it is not PHP-empty. */
  predicate Produces(f: Field) {
    f.Part? || !PhpEmpty(f.value)
  }

  /** A field produces text exactly when it produces a part, and that text
      opens with the delimiter line and the disposition carrying its name and
      ends with a newline. */
  lemma PartOfShape(name: string, f: Field, boundary: string)
    ensures PartOf(name, f, boundary) == "" <==> !Produces(f)
    ensures Produces(f) ==> var p := PartOf(name, f, boundary);
      |p| > |Disposition(boundary, name)| && p[..|Disposition(boundary, name)|] == Disposition(boundary, name)
      && p[|p| - 1] == '\n'
  {
    if Produces(f) {
      var d := Disposition(boundary, name);
      var p := PartOf(name, f, boundary);
      assert p[..|d|] == d;
    }
  }

  /** Right after the disposition comes `;` exactly when a filename is set
      (and then `;filename="F` with no closing quote), else the blank line. */
  lemma FilenameIffSet(name: string, entries: Entries<string>, boundary: string)
    ensures var p := PartOf(name, Part(entries), boundary);
      var n := |Disposition(boundary, name)|;
      n < |p| && (p[n] == ';' <==> PartFilename(entries).Some?)
    ensures PartFilename(entries).Some? ==>
      var p := PartOf(name, Part(entries), boundary);
      var n := |Disposition(boundary, name)|;
      var f := ";filename=\"" + PartFilename(entries).value;
      p[n..n + |f| + 2] == f + "\n\n"
  {
    var p := PartOf(name, Part(entries), boundary);
    var n := |Disposition(boundary, name)|;
    match PartFilename(entries)
    case Some(fname) =>
      var f := ";filename=\"" + fname;
      assert p == Disposition(boundary, name) + f + "\n\n" + PartData(entries) + "\n";
      assert p[n..n + |f| + 2] == f + "\n\n";
    case None =>
      assert p == Disposition(boundary, name) + "\n\n" + PartData(entries) + "\n";
      assert p[n] == '\n';
  }

  /** The parts of a concatenation are the parts of each half, in order. */
  lemma PartsConcat(a: seq<(string, Field)>, b: seq<(string, Field)>, boundary: string)
    ensures Parts(a + b, boundary) == Parts(a, boundary) + Parts(b, boundary)
  {
    assert PartTexts(a + b, boundary) == PartTexts(a, boundary) + PartTexts(b, boundary);
    ConcatAppend(PartTexts(a, boundary), PartTexts(b, boundary));
  }

  /** The fields that produce a part, in order: the reference for the builder. */
  function Kept(fields: seq<(string, Field)>): (r: seq<(string, Field)>)
    ensures |r| <= |fields|
    ensures forall i :: 0 <= i < |r| ==> Produces(r[i].1)
    decreases |fields|
  {
    if |fields| == 0 then []
    else
      var last := fields[|fields| - 1];
      Kept(fields[..|fields| - 1]) + (if Produces(last.1) then [last] else [])
  }

  lemma PartsSingle(f: (string, Field), boundary: string)
    ensures Parts([f], boundary) == PartOf(f.0, f.1, boundary)
  {
    var t := PartOf(f.0, f.1, boundary);
    assert PartTexts([f], boundary) == [t];
    assert [t][..0] == [];
    assert Concat([t]) == Concat([]) + t;
  }

  lemma {:induction false} PartsOfKept(fields: seq<(string, Field)>, boundary: string)
    ensures Parts(Kept(fields), boundary) == Parts(fields, boundary)
    decreases |fields|
  {
    if |fields| == 0 {
      assert Kept(fields) == [];
    } else {
      var init := fields[..|fields| - 1];
      var last := fields[|fields| - 1];
      assert fields == init + [last];
      PartsOfKept(init, boundary);
      PartsConcat(init, [last], boundary);
      PartsSingle(last, boundary);
      PartOfShape(last.0, last.1, boundary);
      if Produces(last.1) {
        assert Kept(fields) == Kept(init) + [last];
        PartsConcat(Kept(init), [last], boundary);
      } else {
        assert Kept(fields) == Kept(init);
      }
    }
  }

  /** Fields that produce nothing can be dropped without changing the body. */
  lemma MultipartOfKept(fields: seq<(string, Field)>, boundary: string)
    ensures Multipart(Kept(fields), boundary) == Multipart(fields, boundary)
  {
    PartsOfKept(fields, boundary);
  }

  /** Every kept field contributes a non-empty part opening with the
      delimiter line: so the body has one part per kept field, in order. */
  lemma {:induction false} KeptPartsDelimited(fields: seq<(string, Field)>, boundary: string, i: nat)
    requires i < |Kept(fields)|
    ensures var f := Kept(fields)[i];
      var p := PartOf(f.0, f.1, boundary);
      |p| > |Delimiter(boundary)| && p[..|Delimiter(boundary)|] == Delimiter(boundary)
  {
    var f := Kept(fields)[i];
    PartOfShape(f.0, f.1, boundary);
    var p := PartOf(f.0, f.1, boundary);
    var d := Disposition(boundary, f.0);
    var m := Delimiter(boundary);
    assert d == m + ("Content-Disposition: form-data; name=\"" + f.0 + "\"");
    assert d[..|m|] == m;
    assert p[..|m|] == p[..|d|][..|m|];
  }

  /** With no fields (or only PHP-empty scalars) the body is the closing delimiter alone. */
  lemma MultipartOfNothing(fields: seq<(string, Field)>, boundary: string)
    requires forall i :: 0 <= i < |fields| ==> !Produces(fields[i].1)
    ensures Multipart(fields, boundary) == "--" + boundary + "--"
  {
    MultipartOfKept(fields, boundary);
    if |Kept(fields)| > 0 {
      KeptAreFromFields(fields, 0);
    }
  }

  lemma {:induction false} KeptAreFromFields(fields: seq<(string, Field)>, i: nat)
    requires i < |Kept(fields)|
    ensures exists j :: 0 <= j < |fields| && fields[j] == Kept(fields)[i]
    decreases |fields|
  {
    var init := fields[..|fields| - 1];
    if i < |Kept(init)| {
      KeptAreFromFields(init, i);
      var j :| 0 <= j < |init| && init[j] == Kept(init)[i];
      assert fields[j] == init[j];
    } else {
      assert Kept(fields)[i] == fields[|fields| - 1];
    }
  }

  // ---------------------------------------------------------------------------
  // http_build_query on a field array
  // ---------------------------------------------------------------------------

  /** The flat pairs `http_build_query` visits: a scalar as itself, a nested
      array entry `sub => v` under the key `name[sub]`. */
  function FormPairs(fields: seq<(string, Field)>): seq<(string, string)>
    decreases |fields|
  {
    if |fields| == 0 then []
    else
      var last := fields[|fields| - 1];
      FormPairs(fields[..|fields| - 1]) + FieldPairs(last.0, last.1)
  }

  function FieldPairs(name: string, f: Field): (ps: seq<(string, string)>)
    ensures f.Text? ==> ps == [(name, f.value)]
    ensures f.Part? ==> |ps| == |f.entries|
  {
    match f
    case Text(v) => [(name, v)]
    case Part(entries) =>
      seq(|entries|, i requires 0 <= i < |entries| => (name + "[" + entries[i].0 + "]", entries[i].1))
  }

  /** `http_build_query($fields)` */
  function FormQuery(fields: seq<(string, Field)>): string {
    BuildQuery(FormPairs(fields))
  }

  /** A nested key is sent with percent-encoded brackets: `name%5Bsub%5D`. */
  lemma NestedKeyEncoding(name: string, sub: string)
    ensures UrlEncode(name + "[" + sub + "]") == UrlEncode(name) + "%5B" + UrlEncode(sub) + "%5D"
  {
    UrlEncodeAppend(name + "[" + sub, "]");
    UrlEncodeAppend(name + "[", sub);
    UrlEncodeAppend(name, "[");
    BracketEncoding();
  }

  lemma BracketEncoding()
    ensures UrlEncode("[") == "%5B" && UrlEncode("]") == "%5D"
  {
    assert Utf8('[') == [0x5B] && Utf8(']') == [0x5D];
    assert PercentByte(0x5B) == "%5B" && PercentByte(0x5D) == "%5D";
    assert UrlEncode("[") == EncodeChar('[') + UrlEncode("");
    assert UrlEncode("]") == EncodeChar(']') + UrlEncode("");
  }

  // ---------------------------------------------------------------------------
  // processBody
  // ---------------------------------------------------------------------------

  /** A request body as the caller passes it. */
  datatype Body = NoBody | Raw(text: string) | Structured(fields: seq<(string, Field)>)

  /** What reaches the transport: nothing, a string, or the array unchanged. */
  datatype Payload = Omitted | Encoded(text: string) | PassThrough(fields: seq<(string, Field)>)

  /** `$this->headers["Content-Type"][0]`, when set (exact key, first value). */
  function FirstContentType(headers: Multi<string>): (r: Option<string>)
    ensures r.Some? <==> |Values(headers, "Content-Type")| > 0
    ensures r.Some? ==> r.value == Values(headers, "Content-Type")[0]
  {
    var vs := Values(headers, "Content-Type");
    if |vs| > 0 then Some(vs[0]) else None
  }

  const JsonType: string := "application/json"
  const FormType: string := "application/x-www-form-urlencoded"
  const MultipartType: string := "multipart/form-data"

  /** The encoder an array body gets under a content type. */
  datatype Encoding = Json | Form | MultipartForm | Unencoded

  /** The first of the three types the content type contains (any case),
      tested in the order JSON, form, multipart. */
  function EncodingFor(contentType: string): (e: Encoding)
    ensures e == Json <==> ContainsCI(contentType, JsonType)
    ensures e == Form <==> !ContainsCI(contentType, JsonType) && ContainsCI(contentType, FormType)
    ensures e == MultipartForm <==>
              (!ContainsCI(contentType, JsonType) && !ContainsCI(contentType, FormType)
               && ContainsCI(contentType, MultipartType))
  {
    if ContainsCI(contentType, JsonType) then Json
    else if ContainsCI(contentType, FormType) then Form
    else if ContainsCI(contentType, MultipartType) then MultipartForm
    else Unencoded
  }

  /** `processBody`: `jsonEncode` stands for PHP's `json_encode`. */
  function ProcessBody(headers: Multi<string>, body: Body, jsonEncode: seq<(string, Field)> -> string): (r: Result<Payload>)
    ensures body.NoBody? <==> r == Success(Omitted)
    ensures body.Raw? ==> r == Success(Encoded(body.text))
    ensures r.Failure? <==>
              (body.Structured? && FirstContentType(headers).Some?
               && EncodingFor(FirstContentType(headers).value) == MultipartForm
               && ParseBoundary(FirstContentType(headers).value).Failure?)
    ensures r.Failure? ==> r.error == InvalidArgument(MissingBoundary)
    ensures (r.Success? && r.value.PassThrough?) <==>
              (body.Structured? && (FirstContentType(headers).None? || EncodingFor(FirstContentType(headers).value) == Unencoded))
    ensures r.Success? && r.value.PassThrough? ==> r.value.fields == body.fields
  {
    match body
    case NoBody => Success(Omitted)
    case Raw(text) => Success(Encoded(text))
    case Structured(fields) =>
      match FirstContentType(headers)
      case None => Success(PassThrough(fields))
      case Some(ct) =>
        match EncodingFor(ct)
        case Json => Success(Encoded(jsonEncode(fields)))
        case Form => Success(Encoded(FormQuery(fields)))
        case MultipartForm =>
          (match ParseBoundary(ct)
           case Success(b) => Success(Encoded(Multipart(fields, b)))
           case Failure(e) => Failure(e))
        case Unencoded => Success(PassThrough(fields))
  }

  /** Which encoder runs on an array body, by the first content type. */
  lemma ProcessBodyEncodes(headers: Multi<string>, fields: seq<(string, Field)>, jsonEncode: seq<(string, Field)> -> string)
    requires FirstContentType(headers).Some?
    ensures var ct := FirstContentType(headers).value;
      var r := ProcessBody(headers, Structured(fields), jsonEncode);
      (EncodingFor(ct) == Json ==> r == Success(Encoded(jsonEncode(fields))))
      && (EncodingFor(ct) == Form ==> r == Success(Encoded(FormQuery(fields))))
      && (EncodingFor(ct) == MultipartForm && ParseBoundary(ct).Success? ==>
            r == Success(Encoded(Multipart(fields, ParseBoundary(ct).value))))
  {
  }
}

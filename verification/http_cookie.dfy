/** The library's loose `Set-Cookie` parser (`HttpCookie`). It departs from
    section 5.2 of RFC 6265 on purpose: attributes are recognised by
    case-insensitive substring, in a fixed order; a value is only the text up
    to a second `=`; and every non-attribute segment overwrites the name and
    value, so the last one wins. */
module HttpCookie {
  import opened Results
  import opened PhpStrings

  /** A cookie field as PHP holds it: never assigned (`null`), `false` (the
      segment had no `=`, or `strtotime` failed), or a value. */
  datatype Slot<T> = Null | False | Val(v: T)

  datatype Cookie = Cookie(
    name: Option<string>,
    value: Slot<string>,
    expires: Slot<int>,
    maxAge: Slot<string>,
    domain: Slot<string>,
    path: Slot<string>,
    secure: bool,
    httpOnly: bool,
    sameSite: Slot<string>)

  /** The field initialisers: path "/", not secure, http-only, the rest unset. */
  const Default: Cookie :=
    Cookie(None, Null, Null, Null, Null, Val("/"), false, true, Null)

  /** What a segment sets, decided by its key. */
  datatype Attribute =
    | ExpiresAttr | MaxAgeAttr | DomainAttr | PathAttr
    | SecureAttr | HttpOnlyAttr | SameSiteAttr
    | NameValue

  /** The attribute name each attribute is recognised by. */
  function Keyword(a: Attribute): string {
    match a
    case ExpiresAttr => "Expires"
    case MaxAgeAttr => "Max-Age"
    case DomainAttr => "Domain"
    case PathAttr => "Path"
    case SecureAttr => "Secure"
    case HttpOnlyAttr => "HttpOnly"
    case SameSiteAttr => "SameSite"
    case NameValue => ""
  }

  /** The first attribute name, in the library's order, that the key contains
      ignoring case; a key containing none of them is the cookie's name. */
  function Classify(key: string): Attribute {
    if ContainsCI(key, Keyword(ExpiresAttr)) then ExpiresAttr
    else if ContainsCI(key, Keyword(MaxAgeAttr)) then MaxAgeAttr
    else if ContainsCI(key, Keyword(DomainAttr)) then DomainAttr
    else if ContainsCI(key, Keyword(PathAttr)) then PathAttr
    else if ContainsCI(key, Keyword(SecureAttr)) then SecureAttr
    else if ContainsCI(key, Keyword(HttpOnlyAttr)) then HttpOnlyAttr
    else if ContainsCI(key, Keyword(SameSiteAttr)) then SameSiteAttr
    else NameValue
  }

  /** One `;`-separated piece of the header: its key and, when it has an `=`, its value. */
  datatype Segment = Segment(key: string, value: Slot<string>)

  /** Split a segment on `=`: the key is the trimmed first piece, the value the
      trimmed second piece, or `false` when there is no `=`. */
  function ParseSegment(part: string): (seg: Segment)
    ensures '=' !in seg.key && IsTrimmed(seg.key)
    ensures seg.value.Null? == false
    ensures seg.value.False? <==> '=' !in part
    ensures seg.value.Val? ==> '=' !in seg.value.v && IsTrimmed(seg.value.v)
  {
    var pieces := Explode(part, '=');
    ExplodeCountsDelimiter(part, '=');
    Segment(Trim(pieces[0]), if |pieces| >= 2 then Val(Trim(pieces[1])) else False)
  }

  /** Explode yields more than one piece exactly when the delimiter occurs. */
  lemma ExplodeCountsDelimiter(s: string, d: char)
    ensures d in s <==> |Explode(s, d)| >= 2
  {
    if d !in s {
      ExplodeWithoutDelimiter(s, d);
    } else {
      ExplodeGlues(s, d);
    }
  }

  /** The segments of a header: split on `;`, each piece trimmed and parsed. */
  function Segments(header: string): (segs: seq<Segment>)
    ensures |segs| == |Explode(header, ';')|
  {
    ParseParts(Explode(header, ';'))
  }

  /** Each `;`-piece trimmed and parsed. */
  function ParseParts(parts: seq<string>): (segs: seq<Segment>)
    ensures |segs| == |parts|
    ensures forall i :: 0 <= i < |parts| ==> segs[i] == ParseSegment(Trim(parts[i]))
  {
    seq(|parts|, i requires 0 <= i < |parts| => ParseSegment(Trim(parts[i])))
  }

  /** `strtotime` applied to a segment value (`false` reads as ""); its failure is `false`. */
  function ToTime(strtotime: string -> Option<int>, value: Slot<string>): Slot<int> {
    match strtotime(if value.Val? then value.v else "")
    case Some(t) => Val(t)
    case None => False
  }

  /** The effect of one segment on the cookie, given the kind its key classifies as. */
  function Step(c: Cookie, a: Attribute, seg: Segment, strtotime: string -> Option<int>): Cookie {
    match a
    case ExpiresAttr => c.(expires := ToTime(strtotime, seg.value))
    case MaxAgeAttr => c.(maxAge := seg.value)
    case DomainAttr => c.(domain := seg.value)
    case PathAttr => c.(path := seg.value)
    case SecureAttr => c.(secure := true)
    case HttpOnlyAttr => c.(httpOnly := true)
    case SameSiteAttr => c.(sameSite := seg.value)
    case NameValue => c.(name := Some(seg.key), value := seg.value)
  }

  /** The segments applied left to right, `ks[i]` being the kind of `segs[i]`. */
  function ApplyAll(c: Cookie, ks: seq<Attribute>, segs: seq<Segment>, strtotime: string -> Option<int>): Cookie
    requires |ks| == |segs|
    decreases |segs|
  {
    if |segs| == 0 then c
    else Step(ApplyAll(c, ks[..|ks| - 1], segs[..|segs| - 1], strtotime), ks[|ks| - 1], segs[|segs| - 1], strtotime)
  }

  /** `new HttpCookie($header)`, with PHP's `strtotime` as a parameter. */
  function Parse(header: string, strtotime: string -> Option<int>): Cookie {
    var segs := Segments(header);
    ApplyAll(Default, Kinds(segs), segs, strtotime)
  }

  // ---------------------------------------------------------------------------
  // Reference: the last segment of each kind
  // ---------------------------------------------------------------------------

  /** The kind of every segment, in order. */
  function Kinds(segs: seq<Segment>): (ks: seq<Attribute>)
    ensures |ks| == |segs|
    ensures forall i :: 0 <= i < |segs| ==> ks[i] == Classify(segs[i].key)
  {
    seq(|segs|, i requires 0 <= i < |segs| => Classify(segs[i].key))
  }

  /** The index of the last `a` in `ks`. */
  function LastOf(ks: seq<Attribute>, a: Attribute): (r: Option<nat>)
    ensures r.Some? ==> r.value < |ks| && ks[r.value] == a
    ensures r.Some? ==> forall j :: r.value < j < |ks| ==> ks[j] != a
    ensures r.None? <==> forall j :: 0 <= j < |ks| ==> ks[j] != a
    decreases |ks|
  {
    if |ks| == 0 then None
    else if ks[|ks| - 1] == a then Some(|ks| - 1)
    else LastOf(ks[..|ks| - 1], a)
  }

  /** The value of the last segment of kind `a`, or `otherwise` when there is none. */
  function LastValue(ks: seq<Attribute>, segs: seq<Segment>, a: Attribute, otherwise: Slot<string>): Slot<string>
    requires |ks| == |segs|
  {
    match LastOf(ks, a)
    case None => otherwise
    case Some(i) => segs[i].value
  }

  /** The attributes stored as the segment's raw value. */
  predicate StoresValue(a: Attribute) {
    a.MaxAgeAttr? || a.DomainAttr? || a.PathAttr? || a.SameSiteAttr? || a.NameValue?
  }

  /** The field a value-storing attribute writes (the cookie value for a name segment). */
  function Field(c: Cookie, a: Attribute): Slot<string>
    requires StoresValue(a)
  {
    match a
    case MaxAgeAttr => c.maxAge
    case DomainAttr => c.domain
    case PathAttr => c.path
    case SameSiteAttr => c.sameSite
    case NameValue => c.value
  }

  /** One step writes the field of its own kind and no other value field. */
  lemma StepField(c: Cookie, k: Attribute, seg: Segment, strtotime: string -> Option<int>, a: Attribute)
    requires StoresValue(a)
    ensures Field(Step(c, k, seg, strtotime), a) == if k == a then seg.value else Field(c, a)
  {
  }

  /** A value field holds the value of the last segment of its kind, or its initial value. */
  lemma {:induction false} ApplyAllLastValue(c: Cookie, ks: seq<Attribute>, segs: seq<Segment>,
                                             strtotime: string -> Option<int>, a: Attribute)
    requires |ks| == |segs| && StoresValue(a)
    ensures Field(ApplyAll(c, ks, segs, strtotime), a) == LastValue(ks, segs, a, Field(c, a))
    decreases |segs|
  {
    if |segs| > 0 {
      var n := |segs| - 1;
      ApplyAllLastValue(c, ks[..n], segs[..n], strtotime, a);
      StepField(ApplyAll(c, ks[..n], segs[..n], strtotime), ks[n], segs[n], strtotime, a);
    }
  }

  /** The name is the key of the last name segment, or the initial name. */
  lemma {:induction false} ApplyAllLastName(c: Cookie, ks: seq<Attribute>, segs: seq<Segment>,
                                            strtotime: string -> Option<int>)
    requires |ks| == |segs|
    ensures ApplyAll(c, ks, segs, strtotime).name ==
      (match LastOf(ks, NameValue) case None => c.name case Some(i) => Some(segs[i].key))
    decreases |segs|
  {
    if |segs| > 0 {
      var n := |segs| - 1;
      ApplyAllLastName(c, ks[..n], segs[..n], strtotime);
    }
  }

  /** The expiry is `strtotime` of the last Expires segment's value, or the initial expiry. */
  lemma {:induction false} ApplyAllLastExpires(c: Cookie, ks: seq<Attribute>, segs: seq<Segment>,
                                               strtotime: string -> Option<int>)
    requires |ks| == |segs|
    ensures ApplyAll(c, ks, segs, strtotime).expires ==
      (match LastOf(ks, ExpiresAttr) case None => c.expires case Some(i) => ToTime(strtotime, segs[i].value))
    decreases |segs|
  {
    if |segs| > 0 {
      var n := |segs| - 1;
      ApplyAllLastExpires(c, ks[..n], segs[..n], strtotime);
    }
  }

  /** The flags are switched on by any segment of their kind and never switched off. */
  lemma {:induction false} ApplyAllFlags(c: Cookie, ks: seq<Attribute>, segs: seq<Segment>,
                                         strtotime: string -> Option<int>)
    requires |ks| == |segs|
    ensures ApplyAll(c, ks, segs, strtotime).secure == (c.secure || LastOf(ks, SecureAttr).Some?)
    ensures ApplyAll(c, ks, segs, strtotime).httpOnly == (c.httpOnly || LastOf(ks, HttpOnlyAttr).Some?)
    decreases |segs|
  {
    if |segs| > 0 {
      var n := |segs| - 1;
      ApplyAllFlags(c, ks[..n], segs[..n], strtotime);
    }
  }

  // ---------------------------------------------------------------------------
  // Consequences for whole headers
  // ---------------------------------------------------------------------------

  /** Every parsed cookie is http-only, whatever the header says. */
  lemma ParseIsHttpOnly(header: string, strtotime: string -> Option<int>)
    ensures Parse(header, strtotime).httpOnly
  {
    var segs := Segments(header);
    ApplyAllFlags(Default, Kinds(segs), segs, strtotime);
  }

  /** A cookie is secure exactly when some segment classifies as `Secure`. */
  lemma ParseSecureIff(header: string, strtotime: string -> Option<int>)
    ensures Parse(header, strtotime).secure <==>
      exists i :: 0 <= i < |Segments(header)| && Classify(Segments(header)[i].key) == SecureAttr
  {
    var segs := Segments(header);
    var ks := Kinds(segs);
    ApplyAllFlags(Default, ks, segs, strtotime);
    assert Parse(header, strtotime).secure == LastOf(ks, SecureAttr).Some?;
    if LastOf(ks, SecureAttr).None? {
      forall i | 0 <= i < |segs| ensures Classify(segs[i].key) != SecureAttr {
        assert ks[i] != SecureAttr;
      }
    }
  }

  /** Without attribute segments the cookie keeps every default except name and value. */
  lemma ParseWithoutAttributes(header: string, strtotime: string -> Option<int>)
    requires forall i :: 0 <= i < |Segments(header)| ==> Classify(Segments(header)[i].key) == NameValue
    ensures var c := Parse(header, strtotime);
      c.path == Val("/") && !c.secure && c.httpOnly
      && c.expires == Null && c.maxAge == Null && c.domain == Null && c.sameSite == Null
  {
    var segs := Segments(header);
    NameSegmentsKeepDefaults(Kinds(segs), segs, strtotime);
  }

  lemma NameSegmentsKeepDefaults(ks: seq<Attribute>, segs: seq<Segment>, strtotime: string -> Option<int>)
    requires |ks| == |segs|
    requires forall i :: 0 <= i < |ks| ==> ks[i] == NameValue
    ensures var c := ApplyAll(Default, ks, segs, strtotime);
      c.path == Val("/") && !c.secure && c.httpOnly
      && c.expires == Null && c.maxAge == Null && c.domain == Null && c.sameSite == Null
  {
    ApplyAllFlags(Default, ks, segs, strtotime);
    ApplyAllLastExpires(Default, ks, segs, strtotime);
    ApplyAllLastValue(Default, ks, segs, strtotime, PathAttr);
    ApplyAllLastValue(Default, ks, segs, strtotime, MaxAgeAttr);
    ApplyAllLastValue(Default, ks, segs, strtotime, DomainAttr);
    ApplyAllLastValue(Default, ks, segs, strtotime, SameSiteAttr);
  }

  /** No attribute name occurs in the empty string. */
  lemma EmptyKeyIsName()
    ensures Classify("") == NameValue
  {
  }

  /** A trailing `;` leaves an empty last segment, which resets the name to ""
      and the value to `false`. */
  lemma ParseTrailingSemicolon(header: string, strtotime: string -> Option<int>)
    ensures Parse(header + ";", strtotime).name == Some("")
    ensures Parse(header + ";", strtotime).value == False
  {
    TrailingSemicolonSegment(header);
    EmptyLastSegmentParses(Segments(header + ";"), strtotime);
  }

  /** A last segment with empty key and no value decides name and value. */
  lemma EmptyLastSegmentParses(segs: seq<Segment>, strtotime: string -> Option<int>)
    requires |segs| > 0 && segs[|segs| - 1] == Segment("", False)
    ensures ApplyAll(Default, Kinds(segs), segs, strtotime).name == Some("")
    ensures ApplyAll(Default, Kinds(segs), segs, strtotime).value == False
  {
    EmptyKeyIsNameAt(segs, |segs| - 1);
    EmptyLastSegmentResetsName(Kinds(segs), segs, strtotime);
  }

  lemma EmptyKeyIsNameAt(segs: seq<Segment>, i: nat)
    requires i < |segs| && segs[i].key == ""
    ensures Kinds(segs)[i] == NameValue
  {
    EmptyKeyIsName();
  }

  lemma TrailingSemicolonSegment(header: string)
    ensures |Segments(header + ";")| >= 2
    ensures Segments(header + ";")[|Segments(header + ";")| - 1] == Segment("", False)
  {
    ExplodeTrailingDelimiter(header, ';');
    TrimOfTrimmed("");
    SegmentWithoutValue("");
  }

  lemma EmptyLastSegmentResetsName(ks: seq<Attribute>, segs: seq<Segment>, strtotime: string -> Option<int>)
    requires |ks| == |segs| > 0 && ks[|ks| - 1] == NameValue && segs[|segs| - 1] == Segment("", False)
    ensures ApplyAll(Default, ks, segs, strtotime).name == Some("")
    ensures ApplyAll(Default, ks, segs, strtotime).value == False
  {
  }

  /** The value is the second `=`-piece only: `k=v=rest` keeps `v`. */
  lemma SegmentValueIsSecondPiece(k: string, v: string, rest: string)
    requires '=' !in k && '=' !in v
    ensures ParseSegment(k + "=" + v + "=" + rest) == Segment(Trim(k), Val(Trim(v)))
  {
    ExplodeFirstPiece(k, v + "=" + rest, '=');
    ExplodeFirstPiece(v, rest, '=');
    assert k + "=" + v + "=" + rest == k + ['='] + (v + ['='] + rest);
  }

  /** A segment without `=` is a bare key whose value is `false`. */
  lemma SegmentWithoutValue(k: string)
    requires '=' !in k
    ensures ParseSegment(k) == Segment(Trim(k), False)
  {
    ExplodeWithoutDelimiter(k, '=');
  }

  /** `a=b=c` has value `b`. */
  lemma ValueStopsAtSecondEquals(part: string)
    requires part == "a=b=c"
    ensures ParseSegment(part) == Segment("a", Val("b"))
  {
    var a, b, c := "a", "b", "c";
    assert part == a + "=" + b + "=" + c;
    SegmentValueIsSecondPiece(a, b, c);
    SingleCharsAreTrimmed();
  }

  lemma SingleCharsAreTrimmed()
    ensures Trim("a") == "a" && Trim("b") == "b"
  {
    TrimOfTrimmed("a");
    TrimOfTrimmed("b");
  }

  /** `xpath` contains "path" (and none of the earlier names), so it is the Path attribute. */
  lemma SubstringKeyIsAttribute()
    ensures Classify("xpath") == PathAttr
  {
    NotOccursWithoutChar("xpath", "Expires", true, 0);
    NotOccursWithoutChar("xpath", "Max-Age", true, 0);
    NotOccursWithoutChar("xpath", "Domain", true, 0);
    assert MatchesAt("xpath", 1, "Path", true);
  }

  // ---------------------------------------------------------------------------
  // Example: "session=abc; Path=/; HttpOnly"
  // ---------------------------------------------------------------------------


  /** A piece of header text that is a single trimmed token. */
  predicate Token(x: string) {
    ';' !in x && '=' !in x && IsTrimmed(x)
  }

  /** The header `n=v; pk=pv; flag`. */
  function NamePathFlag(n: string, v: string, pk: string, pv: string, flag: string): string {
    (n + "=" + v) + ";" + (" " + (pk + "=" + pv)) + ";" + (" " + flag)
  }

  /** `k=v` with trimmed tokens, after any run of blanks, parses to key k and value v. */
  lemma PairSegment(pad: string, k: string, v: string)
    requires AllTrimChars(pad)
    requires Token(k) && Token(v)
    ensures ParseSegment(Trim(pad + (k + "=" + v))) == Segment(k, Val(v))
  {
    PairIsTrimmed(k, v);
    TrimStripsPrefix(pad, k + "=" + v);
    PairSegmentCore(k, v);
  }

  lemma PairIsTrimmed(k: string, v: string)
    requires IsTrimmed(k) && IsTrimmed(v)
    ensures IsTrimmed(k + "=" + v)
  {
    var core := k + "=" + v;
    assert core[|k|] == '=';
    if |v| > 0 { assert core[|core| - 1] == v[|v| - 1]; }
    if |k| > 0 { assert core[0] == k[0]; }
  }

  lemma PairSegmentCore(k: string, v: string)
    requires Token(k) && Token(v)
    ensures ParseSegment(k + "=" + v) == Segment(k, Val(v))
  {
    assert k + "=" + v == k + ['='] + v;
    ExplodeFirstPiece(k, v, '=');
    ExplodeWithoutDelimiter(v, '=');
    TrimOfTrimmed(k);
    TrimOfTrimmed(v);
  }

  /** An unpadded `k=v` of trimmed tokens parses to key k and value v. */
  lemma BarePairSegment(k: string, v: string)
    requires Token(k) && Token(v)
    ensures ParseSegment(Trim(k + "=" + v)) == Segment(k, Val(v))
  {
    PairIsTrimmed(k, v);
    TrimOfTrimmed(k + "=" + v);
    PairSegmentCore(k, v);
  }

  /** A bare trimmed token after one blank parses to a key without value. */
  lemma FlagSegment(k: string)
    requires Token(k)
    ensures ParseSegment(Trim(" " + k)) == Segment(k, False)
  {
    assert AllTrimChars(" ") by { assert IsTrimChar(" "[0]); }
    TrimStripsPrefix(" ", k);
    SegmentWithoutValue(k);
    TrimOfTrimmed(k);
  }

  /** Three `;`-separated pieces without `;` explode to those pieces. */
  lemma ThreeParts(a: string, b: string, c: string)
    requires ';' !in a && ';' !in b && ';' !in c
    ensures Explode(a + ";" + b + ";" + c, ';') == [a, b, c]
  {
    assert a + ";" + b + ";" + c == a + [';'] + (b + [';'] + c);
    ExplodeFirstPiece(a, b + [';'] + c, ';');
    ExplodeFirstPiece(b, c, ';');
    ExplodeWithoutDelimiter(c, ';');
  }

  /** Three `;`-separated pieces give one segment each. */
  lemma SegmentsOfThree(a: string, b: string, c: string, sa: Segment, sb: Segment, sc: Segment)
    requires ';' !in a && ';' !in b && ';' !in c
    requires ParseSegment(Trim(a)) == sa && ParseSegment(Trim(b)) == sb && ParseSegment(Trim(c)) == sc
    ensures Segments(a + ";" + b + ";" + c) == [sa, sb, sc]
  {
    SegmentsOfThreeAt(a, b, c);
    ListOfThree(Segments(a + ";" + b + ";" + c));
  }

  lemma ListOfThree(segs: seq<Segment>)
    requires |segs| == 3
    ensures segs == [segs[0], segs[1], segs[2]]
  {
  }

  lemma SegmentsOfThreeAt(a: string, b: string, c: string)
    requires ';' !in a && ';' !in b && ';' !in c
    ensures var segs := Segments(a + ";" + b + ";" + c);
      |segs| == 3 && segs[0] == ParseSegment(Trim(a))
      && segs[1] == ParseSegment(Trim(b)) && segs[2] == ParseSegment(Trim(c))
  {
    ThreeParts(a, b, c);
  }

  lemma ShapeSegments(n: string, v: string, pk: string, pv: string, flag: string)
    requires Token(n) && Token(v) && Token(pk) && Token(pv) && Token(flag)
    ensures Segments(NamePathFlag(n, v, pk, pv, flag))
      == [Segment(n, Val(v)), Segment(pk, Val(pv)), Segment(flag, False)]
  {
    var a, b, f := n + "=" + v, " " + (pk + "=" + pv), " " + flag;
    NoSemicolonInPieces(n, v, pk, pv, flag);
    BarePairSegment(n, v);
    SpacedPairSegment(pk, pv);
    FlagSegment(flag);
    SegmentsOfThree(a, b, f, Segment(n, Val(v)), Segment(pk, Val(pv)), Segment(flag, False));
  }

  lemma NoSemicolonInPieces(n: string, v: string, pk: string, pv: string, flag: string)
    requires Token(n) && Token(v) && Token(pk) && Token(pv) && Token(flag)
    ensures ';' !in n + "=" + v && ';' !in " " + (pk + "=" + pv) && ';' !in " " + flag
  {
  }

  /** `k=v` of trimmed tokens after one blank parses to key k and value v. */
  lemma SpacedPairSegment(k: string, v: string)
    requires Token(k) && Token(v)
    ensures ParseSegment(Trim(" " + (k + "=" + v))) == Segment(k, Val(v))
  {
    assert AllTrimChars(" ") by { assert IsTrimChar(" "[0]); }
    PairSegment(" ", k, v);
  }

  lemma ApplyThree(c: Cookie, ks: seq<Attribute>, segs: seq<Segment>, strtotime: string -> Option<int>)
    requires |ks| == |segs| == 3
    ensures ApplyAll(c, ks, segs, strtotime)
      == Step(Step(Step(c, ks[0], segs[0], strtotime), ks[1], segs[1], strtotime), ks[2], segs[2], strtotime)
  {
    assert ApplyAll(c, ks[..1], segs[..1], strtotime) == Step(c, ks[0], segs[0], strtotime) by {
      assert segs[..1][..0] == [] && ks[..1][..0] == [];
    }
    assert segs[..2][..1] == segs[..1] && ks[..2][..1] == ks[..1];
  }

  /** A name segment, a Path segment and an HttpOnly segment, applied to the defaults. */
  lemma ApplyNamePathFlag(segs: seq<Segment>, strtotime: string -> Option<int>)
    requires |segs| == 3 && Kinds(segs) == [NameValue, PathAttr, HttpOnlyAttr]
    ensures var c := ApplyAll(Default, Kinds(segs), segs, strtotime);
      c.name == Some(segs[0].key) && c.value == segs[0].value && c.path == segs[1].value
      && c.httpOnly && !c.secure && c.expires == Null && c.domain == Null
  {
    ApplyThree(Default, Kinds(segs), segs, strtotime);
  }

  /** A header whose segments are a name, a Path and an HttpOnly segment. */
  lemma ParseThreeSegments(header: string, n: string, v: string, pk: string, pv: string, flag: string,
                           strtotime: string -> Option<int>)
    requires Segments(header) == [Segment(n, Val(v)), Segment(pk, Val(pv)), Segment(flag, False)]
    requires Classify(n) == NameValue && Classify(pk) == PathAttr && Classify(flag) == HttpOnlyAttr
    ensures var c := Parse(header, strtotime);
      c.name == Some(n) && c.value == Val(v) && c.path == Val(pv)
      && c.httpOnly && !c.secure && c.expires == Null && c.domain == Null
  {
    var segs := Segments(header);
    KindsOfThree(segs);
    ApplyNamePathFlag(segs, strtotime);
    ParseBySegments(header, segs, strtotime);
  }

  /** The shape `name=value; key=val; flag`, as in `session=abc; Path=/; HttpOnly`. */
  lemma ParseNamePathFlag(n: string, v: string, pk: string, pv: string, flag: string,
                          strtotime: string -> Option<int>)
    requires Token(n) && Token(v) && Token(pk) && Token(pv) && Token(flag)
    requires Classify(n) == NameValue && Classify(pk) == PathAttr && Classify(flag) == HttpOnlyAttr
    ensures var c := Parse(NamePathFlag(n, v, pk, pv, flag), strtotime);
      c.name == Some(n) && c.value == Val(v) && c.path == Val(pv)
      && c.httpOnly && !c.secure && c.expires == Null && c.domain == Null
  {
    ShapeSegments(n, v, pk, pv, flag);
    ParseThreeSegments(NamePathFlag(n, v, pk, pv, flag), n, v, pk, pv, flag, strtotime);
  }

  /** Parsing is applying the header's segments to the defaults. */
  lemma ParseBySegments(header: string, segs: seq<Segment>, strtotime: string -> Option<int>)
    requires Segments(header) == segs
    ensures Parse(header, strtotime) == ApplyAll(Default, Kinds(segs), segs, strtotime)
  {
  }

  lemma KindsOfThree(segs: seq<Segment>)
    requires |segs| == 3
    ensures Kinds(segs) == [Classify(segs[0].key), Classify(segs[1].key), Classify(segs[2].key)]
  {
  }

  lemma ExampleClassification()
    ensures Classify("session") == NameValue
    ensures Classify("Path") == PathAttr
    ensures Classify("HttpOnly") == HttpOnlyAttr
  {
    NotOccursWithoutChar("session", "Expires", true, 1);
    NotOccursWithoutChar("session", "Max-Age", true, 0);
    NotOccursWithoutChar("session", "Domain", true, 0);
    NotOccursWithoutChar("session", "Path", true, 0);
    NotOccursWithoutChar("session", "Secure", true, 2);
    NotOccursWithoutChar("session", "HttpOnly", true, 0);
    NotOccursWithoutChar("session", "SameSite", true, 1);
    NotOccursWithoutChar("Path", "Expires", true, 1);
    NotOccursWithoutChar("Path", "Max-Age", true, 0);
    NotOccursWithoutChar("Path", "Domain", true, 0);
    assert MatchesAt("Path", 0, "Path", true);
    NotOccursWithoutChar("HttpOnly", "Expires", true, 1);
    NotOccursWithoutChar("HttpOnly", "Max-Age", true, 0);
    NotOccursWithoutChar("HttpOnly", "Domain", true, 0);
    NotOccursWithoutChar("HttpOnly", "Path", true, 1);
    NotOccursWithoutChar("HttpOnly", "Secure", true, 0);
    assert MatchesAt("HttpOnly", 0, "HttpOnly", true);
  }

  lemma ExampleTokens()
    ensures Token("session") && Token("abc") && Token("Path") && Token("/") && Token("HttpOnly")
  {
  }

  /** `session=abc; Path=/; HttpOnly` is the cookie `session` = `abc` on path `/`
      (the header is assembled from its tokens so that it is not evaluated eagerly). */
  lemma ExampleSessionCookie(n: string, v: string, pk: string, pv: string, flag: string,
                             strtotime: string -> Option<int>)
    requires n == "session" && v == "abc" && pk == "Path" && pv == "/" && flag == "HttpOnly"
    ensures var c := Parse(NamePathFlag(n, v, pk, pv, flag), strtotime);
      c.name == Some("session") && c.value == Val("abc") && c.path == Val("/")
      && c.httpOnly && !c.secure && c.expires == Null && c.domain == Null
  {
    ExampleClassification();
    ExampleTokens();
    ParseNamePathFlag(n, v, pk, pv, flag, strtotime);
  }

  /** The tokens above spell the header `session=abc; Path=/; HttpOnly`. */
  lemma ExampleHeaderSpelling(n: string, v: string, pk: string, pv: string, flag: string)
    requires n == "session" && v == "abc" && pk == "Path" && pv == "/" && flag == "HttpOnly"
    ensures NamePathFlag(n, v, pk, pv, flag) == "session=abc; Path=/; HttpOnly"
  {
  }
}

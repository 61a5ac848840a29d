/** PHP's `urlencode` and `http_build_query` for flat string maps, with an
    independent decoder (the `application/x-www-form-urlencoded` reading of
    the result) to state what the encoding preserves. A character is written
    as its UTF-8 bytes, each byte outside the unreserved set as `%XX` with
    upper-case hex digits; a space becomes `+`. */
module QueryString {
  import opened Results
  import opened PhpStrings

  type Byte = b: nat | b < 256

  // ---------------------------------------------------------------------------
  // UTF-8 and hex digits
  // ---------------------------------------------------------------------------

  /** The UTF-8 encoding of one character (RFC 3629, section 3). */
  function Utf8(c: char): (bs: seq<Byte>)
    ensures 1 <= |bs| <= 4
    ensures (c as int < 128) <==> |bs| == 1
    ensures |bs| == 1 ==> bs[0] == c as int
  {
    var n := c as int;
    if n < 0x80 then [n]
    else if n < 0x800 then [0xC0 + n / 64, 0x80 + n % 64]
    else if n < 0x1_0000 then [0xE0 + n / 4096, 0x80 + (n / 64) % 64, 0x80 + n % 64]
    else [0xF0 + n / 262144, 0x80 + (n / 4096) % 64, 0x80 + (n / 64) % 64, 0x80 + n % 64]
  }

  /** The UTF-8 encoding of a string. */
  function Utf8String(s: string): (bs: seq<Byte>)
    ensures |bs| >= |s|
    decreases |s|
  {
    if |s| == 0 then [] else Utf8(s[0]) + Utf8String(s[1..])
  }

  /** Upper-case hex digit for 0..15. */
  function HexDigit(n: nat): (c: char)
    requires n < 16
    ensures IsAsciiAlnum(c)
  {
    if n < 10 then ('0' as int + n) as char else ('A' as int + n - 10) as char
  }

  predicate IsHex(c: char) {
    '0' <= c <= '9' || 'A' <= c <= 'F' || 'a' <= c <= 'f'
  }

  /** The value of a hex digit of either case. */
  function HexValue(c: char): (n: nat)
    requires IsHex(c)
    ensures n < 16
  {
    if '0' <= c <= '9' then c as int - '0' as int
    else if 'A' <= c <= 'F' then c as int - 'A' as int + 10
    else c as int - 'a' as int + 10
  }

  lemma HexRoundTrip(n: nat)
    requires n < 16
    ensures IsHex(HexDigit(n)) && HexValue(HexDigit(n)) == n
  {
  }

  // ---------------------------------------------------------------------------
  // urlencode
  // ---------------------------------------------------------------------------

  predicate IsAsciiAlnum(c: char) {
    '0' <= c <= '9' || 'A' <= c <= 'Z' || 'a' <= c <= 'z'
  }

  /** The characters `urlencode` leaves alone. */
  predicate IsUnreserved(c: char) {
    IsAsciiAlnum(c) || c == '-' || c == '_' || c == '.'
  }

  /** `%XX` for one byte. */
  function PercentByte(b: Byte): (r: string)
    ensures |r| == 3 && r[0] == '%' && IsHex(r[1]) && IsHex(r[2])
    ensures HexValue(r[1]) * 16 + HexValue(r[2]) == b
  {
    HexRoundTrip(b / 16);
    HexRoundTrip(b % 16);
    ['%', HexDigit(b / 16), HexDigit(b % 16)]
  }

  /** `%XX` for each byte in turn. */
  function PercentBytes(bs: seq<Byte>): (r: string)
    ensures |r| == 3 * |bs|
    decreases |bs|
  {
    if |bs| == 0 then "" else PercentByte(bs[0]) + PercentBytes(bs[1..])
  }

  /** `urlencode` of one character. */
  function EncodeChar(c: char): string {
    if IsUnreserved(c) then [c]
    else if c == ' ' then "+"
    else PercentBytes(Utf8(c))
  }

  /** PHP `urlencode($s)`. */
  function UrlEncode(s: string): string
    decreases |s|
  {
    if |s| == 0 then "" else EncodeChar(s[0]) + UrlEncode(s[1..])
  }

  /** The characters that can appear in `urlencode`'s output. */
  predicate IsEncodedChar(c: char) {
    IsUnreserved(c) || c == '%' || c == '+'
  }

  lemma PercentBytesAlphabet(bs: seq<Byte>)
    ensures forall i :: 0 <= i < |PercentBytes(bs)| ==> IsEncodedChar(PercentBytes(bs)[i])
    decreases |bs|
  {
    if |bs| > 0 {
      PercentBytesAlphabet(bs[1..]);
      var p := PercentByte(bs[0]);
      assert IsAsciiAlnum(p[1]) && IsAsciiAlnum(p[2]) by {
        assert p[1] == HexDigit(bs[0] / 16) && p[2] == HexDigit(bs[0] % 16);
      }
    }
  }

  /** The output uses only unreserved characters, `%` and `+`: in particular no
      `&`, `=`, `;`, `/`, `[` or space survives encoding. */
  lemma {:induction false} UrlEncodeAlphabet(s: string)
    ensures forall i :: 0 <= i < |UrlEncode(s)| ==> IsEncodedChar(UrlEncode(s)[i])
    decreases |s|
  {
    if |s| > 0 {
      UrlEncodeAlphabet(s[1..]);
      EncodeCharAlphabet(s[0]);
      assert UrlEncode(s) == EncodeChar(s[0]) + UrlEncode(s[1..]);
      EncodedConcat(EncodeChar(s[0]), UrlEncode(s[1..]));
    }
  }

  lemma EncodeCharAlphabet(c: char)
    ensures forall i :: 0 <= i < |EncodeChar(c)| ==> IsEncodedChar(EncodeChar(c)[i])
  {
    PercentBytesAlphabet(Utf8(c));
  }

  lemma EncodedConcat(e: string, t: string)
    requires forall i :: 0 <= i < |e| ==> IsEncodedChar(e[i])
    requires forall i :: 0 <= i < |t| ==> IsEncodedChar(t[i])
    ensures forall i :: 0 <= i < |e + t| ==> IsEncodedChar((e + t)[i])
  {
    forall i | 0 <= i < |e + t| ensures IsEncodedChar((e + t)[i]) {
      if i >= |e| {
        assert (e + t)[i] == t[i - |e|];
      }
    }
  }

  /** Separators of a query string never occur inside an encoded part. */
  lemma UrlEncodeHasNoSeparators(s: string)
    ensures '&' !in UrlEncode(s) && '=' !in UrlEncode(s) && '/' !in UrlEncode(s)
  {
    UrlEncodeAlphabet(s);
  }

  /** Encoding distributes over concatenation. */
  lemma {:induction false} UrlEncodeAppend(a: string, b: string)
    ensures UrlEncode(a + b) == UrlEncode(a) + UrlEncode(b)
    decreases |a|
  {
    if |a| > 0 {
      assert (a + b)[1..] == a[1..] + b;
      UrlEncodeAppend(a[1..], b);
    } else {
      assert a + b == b;
    }
  }

  /** A string of unreserved characters is its own encoding. */
  lemma {:induction false} UrlEncodeUnreserved(s: string)
    requires forall i :: 0 <= i < |s| ==> IsUnreserved(s[i])
    ensures UrlEncode(s) == s
    decreases |s|
  {
    if |s| > 0 {
      UrlEncodeUnreserved(s[1..]);
      assert [s[0]] + s[1..] == s;
    }
  }

  // ---------------------------------------------------------------------------
  // Decoding, the reference reading of an encoded string
  // ---------------------------------------------------------------------------

  function Prepend(bs: seq<Byte>, r: Option<seq<Byte>>): Option<seq<Byte>> {
    match r
    case None => None
    case Some(rest) => Some(bs + rest)
  }

  /** Form decoding to bytes: `+` is a space, `%XX` a byte, an ASCII
      character itself; a malformed escape or a non-ASCII character fails. */
  function Decode(s: string): Option<seq<Byte>>
    decreases |s|
  {
    if |s| == 0 then Some([])
    else if s[0] == '+' then Prepend([32], Decode(s[1..]))
    else if s[0] == '%' then
      if |s| >= 3 && IsHex(s[1]) && IsHex(s[2]) then
        Prepend([HexValue(s[1]) * 16 + HexValue(s[2])], Decode(s[3..]))
      else None
    else if s[0] as int < 128 then Prepend([s[0] as int], Decode(s[1..]))
    else None
  }

  lemma {:induction false} DecodePercentBytes(bs: seq<Byte>, rest: string)
    ensures Decode(PercentBytes(bs) + rest) == Prepend(bs, Decode(rest))
    decreases |bs|
  {
    if |bs| == 0 {
      assert PercentBytes(bs) + rest == rest;
      PrependNothing(Decode(rest));
    } else {
      var tail := PercentBytes(bs[1..]) + rest;
      assert PercentBytes(bs) + rest == PercentByte(bs[0]) + tail;
      DecodePercentByte(bs[0], tail);
      DecodePercentBytes(bs[1..], rest);
      PrependTwice([bs[0]], bs[1..], Decode(rest));
      assert [bs[0]] + bs[1..] == bs;
    }
  }

  /** One `%XX` escape decodes to its byte. */
  lemma DecodePercentByte(b: Byte, rest: string)
    ensures Decode(PercentByte(b) + rest) == Prepend([b], Decode(rest))
  {
    var s := PercentByte(b) + rest;
    assert s[0] == '%' && s[1] == PercentByte(b)[1] && s[2] == PercentByte(b)[2];
    assert s[3..] == rest;
  }

  lemma PrependNothing(r: Option<seq<Byte>>)
    ensures Prepend([], r) == r
  {
    if r.Some? {
      assert [] + r.value == r.value;
    }
  }

  lemma PrependTwice(a: seq<Byte>, b: seq<Byte>, r: Option<seq<Byte>>)
    ensures Prepend(a, Prepend(b, r)) == Prepend(a + b, r)
  {
    if r.Some? {
      assert a + (b + r.value) == a + b + r.value;
    }
  }

  lemma DecodeEncodeChar(c: char, rest: string)
    ensures Decode(EncodeChar(c) + rest) == Prepend(Utf8(c), Decode(rest))
  {
    if IsUnreserved(c) || c == ' ' {
      var s := EncodeChar(c) + rest;
      assert s[1..] == rest;
    } else {
      DecodePercentBytes(Utf8(c), rest);
    }
  }

  /** Decoding undoes `urlencode`, yielding the UTF-8 bytes of the input. */
  lemma {:induction false} DecodeUrlEncode(s: string)
    ensures Decode(UrlEncode(s)) == Some(Utf8String(s))
    decreases |s|
  {
    if |s| == 0 {
    } else {
      DecodeUrlEncode(s[1..]);
      DecodeEncodeChar(s[0], UrlEncode(s[1..]));
    }
  }

  /** Distinct strings have distinct encodings. */
  lemma UrlEncodeInjective(a: string, b: string)
    requires UrlEncode(a) == UrlEncode(b)
    ensures Utf8String(a) == Utf8String(b)
  {
    DecodeUrlEncode(a);
    DecodeUrlEncode(b);
  }

  // ---------------------------------------------------------------------------
  // http_build_query
  // ---------------------------------------------------------------------------

  /** `urlencode(k) . '=' . urlencode(v)` */
  function EncodePair(k: string, v: string): string {
    UrlEncode(k) + "=" + UrlEncode(v)
  }

  /** The encoded `k=v` pieces, in order. */
  function EncodedPairs(ps: seq<(string, string)>): (r: seq<string>)
    ensures |r| == |ps|
    ensures forall i :: 0 <= i < |ps| ==> r[i] == EncodePair(ps[i].0, ps[i].1)
  {
    seq(|ps|, i requires 0 <= i < |ps| => EncodePair(ps[i].0, ps[i].1))
  }

  /** PHP `http_build_query($ps)` for a map of strings (the default `&` separator
      and RFC 1738 encoding). */
  function BuildQuery(ps: seq<(string, string)>): string {
    Implode(EncodedPairs(ps), '&')
  }

  /** Reference reading of a `k=v&k=v` string: each piece must hold exactly one `=`. */
  function DecodePairs(parts: seq<string>): Option<seq<(seq<Byte>, seq<Byte>)>>
    decreases |parts|
  {
    if |parts| == 0 then Some([])
    else
      var kv := Explode(parts[0], '=');
      if |kv| != 2 then None
      else
        match (Decode(kv[0]), Decode(kv[1]), DecodePairs(parts[1..]))
        case (Some(k), Some(v), Some(rest)) => Some([(k, v)] + rest)
        case _ => None
  }

  function DecodeQuery(q: string): Option<seq<(seq<Byte>, seq<Byte>)>> {
    DecodePairs(Explode(q, '&'))
  }

  /** The bytes each pair stands for. */
  function PairBytes(ps: seq<(string, string)>): (r: seq<(seq<Byte>, seq<Byte>)>)
    ensures |r| == |ps|
    ensures forall i :: 0 <= i < |ps| ==> r[i] == (Utf8String(ps[i].0), Utf8String(ps[i].1))
  {
    seq(|ps|, i requires 0 <= i < |ps| => (Utf8String(ps[i].0), Utf8String(ps[i].1)))
  }

  lemma EncodedPairSplits(k: string, v: string)
    ensures '&' !in EncodePair(k, v)
    ensures Explode(EncodePair(k, v), '=') == [UrlEncode(k), UrlEncode(v)]
  {
    UrlEncodeHasNoSeparators(k);
    UrlEncodeHasNoSeparators(v);
    assert EncodePair(k, v) == UrlEncode(k) + ['='] + UrlEncode(v);
    ExplodeFirstPiece(UrlEncode(k), UrlEncode(v), '=');
    ExplodeWithoutDelimiter(UrlEncode(v), '=');
  }

  lemma {:induction false} DecodeEncodedPairs(ps: seq<(string, string)>)
    ensures DecodePairs(EncodedPairs(ps)) == Some(PairBytes(ps))
    decreases |ps|
  {
    if |ps| > 0 {
      var parts := EncodedPairs(ps);
      assert parts[1..] == EncodedPairs(ps[1..]);
      DecodeEncodedPairs(ps[1..]);
      EncodedPairSplits(ps[0].0, ps[0].1);
      DecodeUrlEncode(ps[0].0);
      DecodeUrlEncode(ps[0].1);
      assert PairBytes(ps) == [PairBytes(ps)[0]] + PairBytes(ps[1..]);
    }
  }

  /** Reading back a built query recovers every pair, in order, as UTF-8 bytes. */
  lemma BuildQueryRoundTrip(ps: seq<(string, string)>)
    requires |ps| > 0
    ensures DecodeQuery(BuildQuery(ps)) == Some(PairBytes(ps))
  {
    var parts := EncodedPairs(ps);
    forall i | 0 <= i < |parts| ensures '&' !in parts[i] {
      EncodedPairSplits(ps[i].0, ps[i].1);
    }
    ExplodeImplode(parts, '&');
    DecodeEncodedPairs(ps);
  }

  /** A built query never contains a slash, so URL cleaning cannot touch it. */
  lemma BuildQueryHasNoSlash(ps: seq<(string, string)>)
    ensures '/' !in BuildQuery(ps)
  {
    var parts := EncodedPairs(ps);
    forall i | 0 <= i < |parts| ensures '/' !in parts[i] {
      UrlEncodeHasNoSeparators(ps[i].0);
      UrlEncodeHasNoSeparators(ps[i].1);
    }
    ImplodeAvoids(parts, '&', '/');
  }

  lemma {:induction false} ImplodeAvoids(parts: seq<string>, d: char, x: char)
    requires x != d
    requires forall i :: 0 <= i < |parts| ==> x !in parts[i]
    ensures x !in Implode(parts, d)
    decreases |parts|
  {
    if |parts| > 1 {
      ImplodeAvoids(parts[1..], d, x);
    }
  }
}

/** The PHP string built-ins the library relies on: trim, (case-insensitive)
    substring search, explode/implode, substr and the `empty()` test on strings.
    A character is one Unicode code point of the text; PHP holds the same text
    as its UTF-8 bytes. The delimiters, the trim set and the case folding here
    are all ASCII, on which both readings agree; lengths and offsets count
    characters here and bytes in PHP, which coincide for ASCII text. */
module PhpStrings {
  import opened Results

  /** PHP `empty($s)` for a string: true for "" and for "0". */
  predicate PhpEmpty(s: string) {
    s == "" || s == "0"
  }

  // ---------------------------------------------------------------------------
  // trim()
  // ---------------------------------------------------------------------------

  /** The characters PHP's `trim()` strips by default: space, tab, LF, CR, NUL, vertical tab. */
  predicate IsTrimChar(c: char) {
    c == ' ' || c == '\t' || c == '\n' || c == '\r' || c == 0 as char || c == 11 as char
  }

  /** PHP `ltrim($s)`: the longest suffix of `s` that does not start with a trim character. */
  function TrimLeft(s: string): (r: string)
    ensures |r| <= |s| && r == s[|s| - |r|..]
    ensures forall k :: 0 <= k < |s| - |r| ==> IsTrimChar(s[k])
    ensures |r| > 0 ==> !IsTrimChar(r[0])
    decreases |s|
  {
    if |s| > 0 && IsTrimChar(s[0]) then TrimLeft(s[1..]) else s
  }

  /** PHP `rtrim($s)`: the longest prefix of `s` that does not end with a trim character. */
  function TrimRight(s: string): (r: string)
    ensures |r| <= |s| && r == s[..|r|]
    ensures forall k :: |r| <= k < |s| ==> IsTrimChar(s[k])
    ensures |r| > 0 ==> !IsTrimChar(r[|r| - 1])
    decreases |s|
  {
    if |s| > 0 && IsTrimChar(s[|s| - 1]) then TrimRight(s[..|s| - 1]) else s
  }

  /** PHP `trim($s)`. */
  function Trim(s: string): (r: string)
    ensures |r| <= |s|
    ensures |r| > 0 ==> !IsTrimChar(r[0]) && !IsTrimChar(r[|r| - 1])
  {
    TrimRight(TrimLeft(s))
  }

  /** A string made of trim characters only. */
  predicate AllTrimChars(s: string) {
    forall k :: 0 <= k < |s| ==> IsTrimChar(s[k])
  }

  /** Trimmed: neither end is a trim character. */
  predicate IsTrimmed(s: string) {
    |s| == 0 || (!IsTrimChar(s[0]) && !IsTrimChar(s[|s| - 1]))
  }

  /** Trim is characterised by its input's shape: surrounding blanks, trimmed core. */
  lemma TrimStripsPadding(pre: string, core: string, post: string)
    requires AllTrimChars(pre) && AllTrimChars(post) && IsTrimmed(core)
    ensures Trim(pre + core + post) == core
  {
    if |core| == 0 {
      assert pre + core + post == (pre + post) + "";
      TrimLeftStripsPadding(pre + post, "");
    } else {
      assert pre + core + post == pre + (core + post);
      TrimLeftStripsPadding(pre, core + post);
      TrimRightStripsPadding(core, post);
    }
  }

  /** ltrim removes exactly the leading blanks. */
  lemma TrimLeftStripsPadding(pre: string, rest: string)
    requires AllTrimChars(pre) && (|rest| > 0 ==> !IsTrimChar(rest[0]))
    ensures TrimLeft(pre + rest) == rest
  {
    var s := pre + rest;
    var l := TrimLeft(s);
    if |rest| > 0 {
      assert !IsTrimChar(s[|pre|]);
    }
    assert |s| - |l| <= |pre|;
    if |l| > 0 {
      assert !IsTrimChar(s[|s| - |l|]);
    }
    assert |s| - |l| == |pre|;
  }

  /** rtrim removes exactly the trailing blanks. */
  lemma TrimRightStripsPadding(core: string, post: string)
    requires AllTrimChars(post) && (|core| > 0 ==> !IsTrimChar(core[|core| - 1]))
    ensures TrimRight(core + post) == core
  {
    var s := core + post;
    var r := TrimRight(s);
    if |core| > 0 {
      assert !IsTrimChar(s[|core| - 1]);
    }
    assert |r| >= |core|;
    if |r| > 0 {
      assert !IsTrimChar(s[|r| - 1]);
    }
    assert |r| == |core|;
  }

  /** Leading blanks before a trimmed string are stripped. */
  lemma TrimStripsPrefix(pre: string, core: string)
    requires AllTrimChars(pre) && IsTrimmed(core)
    ensures Trim(pre + core) == core
  {
    assert AllTrimChars("");
    TrimStripsPadding(pre, core, "");
    assert pre + core + "" == pre + core;
  }

  /** A string that is already trimmed is left alone. */
  lemma TrimOfTrimmed(s: string)
    requires IsTrimmed(s)
    ensures Trim(s) == s
  {
    TrimStripsPadding("", s, "");
    assert "" + s + "" == s;
  }

  /** trim() is idempotent. */
  lemma TrimIdempotent(s: string)
    ensures Trim(Trim(s)) == Trim(s)
  {
    TrimOfTrimmed(Trim(s));
  }

  // ---------------------------------------------------------------------------
  // strpos / stripos
  // ---------------------------------------------------------------------------

  /** ASCII lower-casing, as PHP 8's `stripos` folds case. */
  function LowerChar(c: char): char {
    if 'A' <= c <= 'Z' then (c as int + 32) as char else c
  }

  /** The string as compared by a search: lower-cased when `ci`. */
  function Fold(s: string, ci: bool): (r: string)
    ensures |r| == |s|
  {
    seq(|s|, i requires 0 <= i < |s| => if ci then LowerChar(s[i]) else s[i])
  }

  /** `pat` occurs in `s` at offset `i` (ignoring ASCII case when `ci`). */
  predicate MatchesAt(s: string, i: nat, pat: string, ci: bool) {
    i + |pat| <= |s| && Fold(s[i..i + |pat|], ci) == Fold(pat, ci)
  }

  ghost predicate Occurs(s: string, pat: string, ci: bool) {
    exists i: nat :: MatchesAt(s, i, pat, ci)
  }

  /** The first offset at or after `from` where `pat` occurs. */
  function IndexFrom(s: string, pat: string, ci: bool, from: nat): (r: Option<nat>)
    requires from <= |s|
    ensures r.Some? ==> from <= r.value && MatchesAt(s, r.value, pat, ci)
    ensures r.Some? ==> forall k: nat :: from <= k < r.value ==> !MatchesAt(s, k, pat, ci)
    ensures r.None? ==> forall k: nat :: from <= k ==> !MatchesAt(s, k, pat, ci)
    decreases |s| - from
  {
    if from + |pat| > |s| then None
    else if MatchesAt(s, from, pat, ci) then Some(from)
    else IndexFrom(s, pat, ci, from + 1)
  }

  /** PHP `strpos($s, $pat)` (ci = false) and `stripos($s, $pat)` (ci = true);
      None stands for PHP's `false`. */
  function IndexOf(s: string, pat: string, ci: bool): (r: Option<nat>)
    ensures r.Some? ==> MatchesAt(s, r.value, pat, ci)
    ensures r.Some? ==> forall k: nat :: k < r.value ==> !MatchesAt(s, k, pat, ci)
    ensures r.None? <==> !Occurs(s, pat, ci)
  {
    IndexFrom(s, pat, ci, 0)
  }

  /** `strpos($s, $pat) !== false` */
  predicate Contains(s: string, pat: string) {
    IndexOf(s, pat, false).Some?
  }

  /** `stripos($s, $pat) !== false` */
  predicate ContainsCI(s: string, pat: string) {
    IndexOf(s, pat, true).Some?
  }

  /** A needle with a character (after folding) that the haystack lacks cannot occur. */
  lemma NotOccursWithoutChar(s: string, pat: string, ci: bool, j: nat)
    requires j < |pat| && Fold(pat, ci)[j] !in Fold(s, ci)
    ensures !Occurs(s, pat, ci)
  {
    if exists i: nat :: MatchesAt(s, i, pat, ci) {
      var i: nat :| MatchesAt(s, i, pat, ci);
      assert Fold(s[i..i + |pat|], ci)[j] == Fold(s, ci)[i + j];
    }
  }

  /** An occurrence at offset 0 witnesses containment. */
  lemma OccursAtStart(s: string, pat: string, ci: bool)
    requires MatchesAt(s, 0, pat, ci)
    ensures Occurs(s, pat, ci)
  {
  }

  /** A string built around `pat` contains it (case-sensitively). */
  lemma ContainsInside(pre: string, pat: string, post: string)
    ensures Contains(pre + pat + post, pat)
  {
    var s := pre + pat + post;
    assert s[|pre|..|pre| + |pat|] == pat;
    assert MatchesAt(s, |pre|, pat, false);
  }

  /** Case-sensitive containment implies case-insensitive containment. */
  lemma ContainsImpliesContainsCI(s: string, pat: string)
    requires Contains(s, pat)
    ensures ContainsCI(s, pat)
  {
    var i := IndexOf(s, pat, false).value;
    var w := s[i..i + |pat|];
    assert Fold(w, false) == w && Fold(pat, false) == pat;
    assert Fold(w, true) == Fold(pat, true);
    assert MatchesAt(s, i, pat, true);
  }

  // ---------------------------------------------------------------------------
  // explode / implode
  // ---------------------------------------------------------------------------

  /** PHP `implode($d, $parts)` with a one-character glue. */
  function Implode(parts: seq<string>, d: char): string
    decreases |parts|
  {
    if |parts| == 0 then ""
    else if |parts| == 1 then parts[0]
    else parts[0] + [d] + Implode(parts[1..], d)
  }

  /** PHP `explode($d, $s)` with a one-character delimiter: never empty, and
      the pieces are free of `d` (`ExplodeGlues`: gluing them back gives `s`). */
  function Explode(s: string, d: char): (parts: seq<string>)
    ensures |parts| >= 1
    ensures forall k :: 0 <= k < |parts| ==> d !in parts[k]
    decreases |s|
  {
    if |s| == 0 then [""]
    else
      var rest := Explode(s[1..], d);
      if s[0] == d then [""] + rest
      else [[s[0]] + rest[0]] + rest[1..]
  }

  /** Gluing the pieces of `explode` back together gives the input. */
  lemma {:induction false} ExplodeGlues(s: string, d: char)
    ensures Implode(Explode(s, d), d) == s
    decreases |s|
  {
    if |s| > 0 {
      var rest := Explode(s[1..], d);
      ExplodeGlues(s[1..], d);
      if s[0] == d {
        ImplodeCons("", rest, d);
      } else {
        ImplodeExtendFirst(s[0], rest, d);
      }
      assert [s[0]] + s[1..] == s;
    }
  }

  lemma ImplodeCons(p: string, rest: seq<string>, d: char)
    requires |rest| >= 1
    ensures Implode([p] + rest, d) == p + [d] + Implode(rest, d)
  {
    assert ([p] + rest)[1..] == rest;
  }

  lemma ImplodeExtendFirst(c: char, rest: seq<string>, d: char)
    requires |rest| >= 1
    ensures Implode([[c] + rest[0]] + rest[1..], d) == [c] + Implode(rest, d)
  {
    var ps := [[c] + rest[0]] + rest[1..];
    if |rest| > 1 {
      assert ps[1..] == rest[1..];
    }
  }

  /** A string without the delimiter explodes to itself. */
  lemma {:induction false} ExplodeWithoutDelimiter(s: string, d: char)
    requires d !in s
    ensures Explode(s, d) == [s]
    decreases |s|
  {
    if |s| > 0 {
      ExplodeWithoutDelimiter(s[1..], d);
      assert [s[0]] + s[1..] == s;
    }
  }

  /** Exploding `p + d + rest` splits off `p` when `p` holds no delimiter. */
  lemma {:induction false} ExplodeFirstPiece(p: string, rest: string, d: char)
    requires d !in p
    ensures Explode(p + [d] + rest, d) == [p] + Explode(rest, d)
    decreases |p|
  {
    var s := p + [d] + rest;
    if |p| == 0 {
      assert s[0] == d && s[1..] == rest;
    } else {
      assert s[1..] == p[1..] + [d] + rest;
      ExplodeFirstPiece(p[1..], rest, d);
      assert [p[0]] + p[1..] == p;
    }
  }

  /** explode undoes implode when no part contains the glue character. */
  lemma {:induction false} ExplodeImplode(parts: seq<string>, d: char)
    requires |parts| >= 1
    requires forall k :: 0 <= k < |parts| ==> d !in parts[k]
    ensures Explode(Implode(parts, d), d) == parts
    decreases |parts|
  {
    if |parts| == 1 {
      ExplodeWithoutDelimiter(parts[0], d);
    } else {
      ExplodeImplode(parts[1..], d);
      ExplodeFirstPiece(parts[0], Implode(parts[1..], d), d);
      assert [parts[0]] + parts[1..] == parts;
    }
  }

  /** Gluing one more part on the right adds the glue and the part. */
  lemma {:induction false} ImplodeSnoc(parts: seq<string>, q: string, d: char)
    requires |parts| >= 1
    ensures Implode(parts + [q], d) == Implode(parts, d) + [d] + q
    decreases |parts|
  {
    if |parts| == 1 {
      assert (parts + [q])[1..] == [q];
    } else {
      ImplodeSnoc(parts[1..], q, d);
      assert (parts + [q])[1..] == parts[1..] + [q];
    }
  }

  /** A trailing delimiter adds one empty piece at the end. */
  lemma ExplodeTrailingDelimiter(s: string, d: char)
    ensures Explode(s + [d], d) == Explode(s, d) + [""]
  {
    var ps := Explode(s, d);
    ExplodeGlues(s, d);
    ImplodeSnoc(ps, "", d);
    assert Implode(ps + [""], d) == s + [d];
    ExplodeImplode(ps + [""], d);
  }

  /** `implode('', $parts)` */
  function Concat(parts: seq<string>): string
    decreases |parts|
  {
    if |parts| == 0 then "" else Concat(parts[..|parts| - 1]) + parts[|parts| - 1]
  }

  lemma {:induction false} ConcatAppend(x: seq<string>, y: seq<string>)
    ensures Concat(x + y) == Concat(x) + Concat(y)
    decreases |y|
  {
    if |y| == 0 {
      assert x + y == x;
    } else {
      var y' := y[..|y| - 1];
      assert (x + y)[..|x + y| - 1] == x + y';
      assert (x + y)[|x + y| - 1] == y[|y| - 1];
      ConcatAppend(x, y');
      AppendAssoc(Concat(x), Concat(y'), y[|y| - 1]);
    }
  }

  lemma SliceOfAppend(u: string, v: string, i: nat)
    requires i <= |u|
    ensures (u + v)[i..] == u[i..] + v
  {
  }

  /** Membership in a string is membership in one of its two parts. */
  lemma MemberSplit(s: string, i: nat, c: char)
    requires i <= |s|
    ensures c in s <==> c in s[..i] || c in s[i..]
  {
    assert s == s[..i] + s[i..];
  }

  lemma SplitAt(s: string, i: nat)
    requires i <= |s|
    ensures s == s[..i] + s[i..]
  {
  }

  lemma AppendAssoc(a: string, b: string, c: string)
    ensures a + (b + c) == (a + b) + c
  {
  }

  // ---------------------------------------------------------------------------
  // substr
  // ---------------------------------------------------------------------------

  /** PHP 8 `substr($s, $offset)`: a negative offset counts from the end, an
      offset past the end gives "". The result is always a suffix of `s`. */
  function Substr(s: string, offset: int): (r: string)
    ensures |r| <= |s| && r == s[|s| - |r|..]
    ensures 0 <= offset <= |s| ==> |r| == |s| - offset
    ensures offset > |s| ==> r == ""
    ensures offset < 0 ==> |r| == if |s| + offset < 0 then |s| else -offset
  {
    if offset >= 0 then
      (if offset > |s| then "" else s[offset..])
    else
      s[(if |s| + offset < 0 then 0 else |s| + offset)..]
  }
}

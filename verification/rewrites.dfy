/** The three regular-expression rewrites the request builder applies, written
    out as scans:
    - `preg_replace('/(.)(;{2,})/', '$1;', $s)` on content types,
    - `preg_replace('/([^:])(\/{2,})/', '$1/', $s)` on URLs,
    - `preg_replace('/%5B[0-9]+%5D/simU', '%5B%5D', $s)` on URLs.
    The first two are one rewrite: a character other than `excluded` (newline
    for `.`, colon for `[^:]`) followed by two or more `sep` is replaced by that
    character and a single `sep`. */
module Rewrites {
  import opened Results
  import opened PhpStrings

  /** Length of the run of `c` at the start of `s`. */
  function RunLength(s: string, c: char): (k: nat)
    ensures k <= |s|
    ensures forall i :: 0 <= i < k ==> s[i] == c
    ensures k < |s| ==> s[k] != c
    decreases |s|
  {
    if |s| == 0 || s[0] != c then 0 else 1 + RunLength(s[1..], c)
  }

  /** The regex matches at `i`: a lead character that is not `excluded`, then two `sep`. */
  predicate RunAt(s: string, i: int, sep: char, excluded: char) {
    0 <= i && i + 2 < |s| && s[i] != excluded && s[i + 1] == sep && s[i + 2] == sep
  }

  /** Nothing left for the rewrite to match. */
  ghost predicate RunFree(s: string, sep: char, excluded: char) {
    forall i :: !RunAt(s, i, sep, excluded)
  }

  /** Leftmost-first, greedy replacement of `X sep sep+` by `X sep`. */
  function CollapseRuns(s: string, sep: char, excluded: char): string
    decreases |s|
  {
    if |s| < 3 then s
    else if RunAt(s, 0, sep, excluded) then
      var k := RunLength(s[1..], sep);
      [s[0], sep] + CollapseRuns(s[1 + k..], sep, excluded)
    else [s[0]] + CollapseRuns(s[1..], sep, excluded)
  }

  /** One step of the rewrite at a match: lead, one separator, the rest rewritten. */
  lemma CollapseStepRun(s: string, sep: char, excluded: char, k: nat)
    requires RunAt(s, 0, sep, excluded) && k == RunLength(s[1..], sep)
    ensures 1 + k <= |s|
    ensures CollapseRuns(s, sep, excluded) == [s[0], sep] + CollapseRuns(s[1 + k..], sep, excluded)
  {
    assert |s| >= 3 && k <= |s[1..]|;
  }

  /** One step of the rewrite elsewhere: the first character is copied. */
  lemma CollapseStepPlain(s: string, sep: char, excluded: char)
    requires |s| >= 3 && !RunAt(s, 0, sep, excluded)
    ensures CollapseRuns(s, sep, excluded) == [s[0]] + CollapseRuns(s[1..], sep, excluded)
  {
  }

  lemma CollapseHead(s: string, sep: char, excluded: char)
    requires |s| > 0
    ensures |CollapseRuns(s, sep, excluded)| > 0
    ensures CollapseRuns(s, sep, excluded)[0] == s[0]
  {
  }

  /** After the rewrite nothing matches any more. */
  lemma {:induction false} CollapseRunFree(s: string, sep: char, excluded: char)
    requires sep != excluded
    ensures RunFree(CollapseRuns(s, sep, excluded), sep, excluded)
    decreases |s|
  {
    var r := CollapseRuns(s, sep, excluded);
    if |s| < 3 {
    } else if RunAt(s, 0, sep, excluded) {
      var k := RunLength(s[1..], sep);
      var rest := s[1 + k..];
      var c := CollapseRuns(rest, sep, excluded);
      CollapseRunFree(rest, sep, excluded);
      assert r == [s[0], sep] + c;
      if |rest| > 0 {
        CollapseHead(rest, sep, excluded);
        assert c[0] == rest[0] != sep;
      }
      forall i ensures !RunAt(r, i, sep, excluded) {
        if i >= 2 {
          assert !RunAt(c, i - 2, sep, excluded);
        }
      }
    } else {
      var t := s[1..];
      var c := CollapseRuns(t, sep, excluded);
      CollapseRunFree(t, sep, excluded);
      assert r == [s[0]] + c;
      if |t| > 0 {
        CollapseHead(t, sep, excluded);
      }
      if |t| > 1 && t[0] == sep && s[0] != excluded {
        // no run at 0, so t does not start with two separators and c[1] == t[1]
        assert t[1] != sep;
        assert !RunAt(t, 0, sep, excluded);
        if |t| >= 3 {
          CollapseHead(t[1..], sep, excluded);
          assert c == [t[0]] + CollapseRuns(t[1..], sep, excluded);
        }
        assert c[1] == t[1];
      }
      forall i ensures !RunAt(r, i, sep, excluded) {
        if i >= 1 {
          assert !RunAt(c, i - 1, sep, excluded);
        }
      }
    }
  }

  /** A string with nothing to match is left unchanged. */
  lemma {:induction false} CollapseOfRunFree(s: string, sep: char, excluded: char)
    requires RunFree(s, sep, excluded)
    ensures CollapseRuns(s, sep, excluded) == s
    decreases |s|
  {
    if |s| >= 3 {
      assert !RunAt(s, 0, sep, excluded);
      assert RunFree(s[1..], sep, excluded) by {
        forall i ensures !RunAt(s[1..], i, sep, excluded) {
          assert !RunAt(s, i + 1, sep, excluded);
        }
      }
      CollapseOfRunFree(s[1..], sep, excluded);
      assert [s[0]] + s[1..] == s;
    }
  }

  /** The rewrite is the identity exactly on strings it has nothing to match in. */
  lemma CollapseFixedPoints(s: string, sep: char, excluded: char)
    requires sep != excluded
    ensures CollapseRuns(s, sep, excluded) == s <==> RunFree(s, sep, excluded)
  {
    if RunFree(s, sep, excluded) {
      CollapseOfRunFree(s, sep, excluded);
    } else {
      CollapseRunFree(s, sep, excluded);
    }
  }

  /** Rewriting is idempotent. */
  lemma CollapseIdempotent(s: string, sep: char, excluded: char)
    requires sep != excluded
    ensures CollapseRuns(CollapseRuns(s, sep, excluded), sep, excluded) == CollapseRuns(s, sep, excluded)
  {
    CollapseRunFree(s, sep, excluded);
    CollapseOfRunFree(CollapseRuns(s, sep, excluded), sep, excluded);
  }

  /** The rewrite only drops separators: every other character occurs in the
      result exactly when it occurs in the input. */
  lemma {:induction false} CollapseKeepsOtherChars(s: string, sep: char, excluded: char, c: char)
    requires c != sep
    ensures c in CollapseRuns(s, sep, excluded) <==> c in s
    decreases |s|
  {
    if |s| < 3 {
    } else if RunAt(s, 0, sep, excluded) {
      var k := RunLength(s[1..], sep);
      CollapseStepRun(s, sep, excluded, k);
      CollapseKeepsOtherChars(s[1 + k..], sep, excluded, c);
      MemberSplit(s, 1 + k, c);
      RunHeadMember(s, k, sep, c);
    } else {
      CollapseStepPlain(s, sep, excluded);
      CollapseKeepsOtherChars(s[1..], sep, excluded, c);
      MemberSplit(s, 1, c);
    }
  }

  /** A lead followed by `k` separators holds no other character but the lead. */
  lemma RunHeadMember(s: string, k: nat, sep: char, c: char)
    requires 1 + k <= |s| && k == RunLength(s[1..], sep) && c != sep
    ensures c in s[..1 + k] <==> c == s[0]
  {
    if c in s[..1 + k] {
      var j :| 0 <= j < 1 + k && s[..1 + k][j] == c;
      assert j == 0;
    }
    assert s[..1 + k][0] == s[0];
  }

  /** A string without the separator is unchanged. */
  lemma CollapseWithoutSep(s: string, sep: char, excluded: char)
    requires sep !in s
    ensures CollapseRuns(s, sep, excluded) == s
  {
    assert RunFree(s, sep, excluded) by {
      forall i ensures !RunAt(s, i, sep, excluded) {
        if 0 <= i && i + 1 < |s| {
          assert s[i + 1] in s;
        }
      }
    }
    CollapseOfRunFree(s, sep, excluded);
  }

  /** The rewrite works piecewise across a point where no separator follows. */
  lemma {:induction false} CollapseAppend(u: string, v: string, sep: char, excluded: char)
    requires |v| > 0 && v[0] != sep
    ensures CollapseRuns(u + v, sep, excluded) == CollapseRuns(u, sep, excluded) + CollapseRuns(v, sep, excluded)
    decreases |u|
  {
    var s := u + v;
    if |u| == 0 {
      assert s == v;
    } else if |s| < 3 {
      assert |u| == 1 && |v| == 1;
    } else if RunAt(s, 0, sep, excluded) {
      CollapseAppendAtRun(u, v, sep, excluded);
    } else {
      CollapseAppendPlain(u, v, sep, excluded);
    }
  }

  lemma {:induction false} CollapseAppendAtRun(u: string, v: string, sep: char, excluded: char)
    requires |v| > 0 && v[0] != sep && |u| > 0
    requires |u + v| >= 3 && RunAt(u + v, 0, sep, excluded)
    ensures CollapseRuns(u + v, sep, excluded) == CollapseRuns(u, sep, excluded) + CollapseRuns(v, sep, excluded)
    decreases |u|, 0
  {
    var s := u + v;
    var k := RunLength(s[1..], sep);
    RunPrefixOfHead(u, v, sep, excluded);
    var t := u[1 + k..];
    SliceOfAppend(u, v, 1 + k);
    CollapseAppend(t, v, sep, excluded);
    CollapseStepRun(s, sep, excluded, k);
    CollapseStepRun(u, sep, excluded, k);
    AppendAssoc([u[0], sep], CollapseRuns(t, sep, excluded), CollapseRuns(v, sep, excluded));
  }


  /** A match at the start of `u + v`, with `v` not starting with the
      separator, lies wholly inside `u`, and so does its run. */
  lemma RunPrefixOfHead(u: string, v: string, sep: char, excluded: char)
    requires |v| > 0 && v[0] != sep && |u| > 0
    requires RunAt(u + v, 0, sep, excluded)
    ensures RunAt(u, 0, sep, excluded) && u[0] == (u + v)[0]
    ensures RunLength((u + v)[1..], sep) == RunLength(u[1..], sep)
  {
    var s := u + v;
    assert |u| >= 3;
    assert s[1..] == u[1..] + v;
    RunLengthAppend(u[1..], v, sep);
  }

  lemma {:induction false} CollapseAppendPlain(u: string, v: string, sep: char, excluded: char)
    requires |v| > 0 && v[0] != sep && |u| > 0
    requires |u + v| >= 3 && !RunAt(u + v, 0, sep, excluded)
    ensures CollapseRuns(u + v, sep, excluded) == CollapseRuns(u, sep, excluded) + CollapseRuns(v, sep, excluded)
    decreases |u|, 0
  {
    var s := u + v;
    SliceOfAppend(u, v, 1);
    CollapseAppend(u[1..], v, sep, excluded);
    CollapseStepPlain(s, sep, excluded);
    AppendAssoc([u[0]], CollapseRuns(u[1..], sep, excluded), CollapseRuns(v, sep, excluded));
    CollapseCopiesHead(u, sep, excluded, s);
  }

  /** When `s` extends `u` and has no match at its start, neither has `u`:
      the rewrite of `u` copies its first character. */
  lemma CollapseCopiesHead(u: string, sep: char, excluded: char, s: string)
    requires |u| > 0 && |s| >= 3 && |s| >= |u| && s[..|u|] == u && !RunAt(s, 0, sep, excluded)
    ensures CollapseRuns(u, sep, excluded) == [u[0]] + CollapseRuns(u[1..], sep, excluded)
  {
    if |u| >= 3 {
      assert u[0] == s[0] && u[1] == s[1] && u[2] == s[2];
      CollapseStepPlain(u, sep, excluded);
    } else {
      assert [u[0]] + u[1..] == u;
    }
  }

  lemma {:induction false} RunLengthAppend(u: string, v: string, c: char)
    requires |v| > 0 && v[0] != c
    ensures RunLength(u + v, c) == RunLength(u, c)
    decreases |u|
  {
    if |u| > 0 && u[0] == c {
      assert (u + v)[1..] == u[1..] + v;
      RunLengthAppend(u[1..], v, c);
    } else if |u| == 0 {
      assert u + v == v;
    }
  }

  /** A separator-free tail is copied after the collapsed head. */
  lemma CollapsePlainTail(u: string, v: string, sep: char, excluded: char)
    requires |v| > 0 && sep !in v
    ensures CollapseRuns(u + v, sep, excluded) == CollapseRuns(u, sep, excluded) + v
  {
    CollapseAppend(u, v, sep, excluded);
    CollapseWithoutSep(v, sep, excluded);
  }

  /** `w sep` followed by `sep v`, with `v` free of separators, loses the second separator. */
  lemma CollapseDoubledJoin(w: string, v: string, sep: char, excluded: char)
    requires |w| > 0 && sep !in w && w[|w| - 1] != excluded
    requires |v| > 0 && sep !in v
    ensures CollapseRuns((w + [sep]) + ([sep] + v), sep, excluded) == (w + [sep]) + v
  {
    assert (w + [sep]) + ([sep] + v) == (w + [sep, sep]) + v;
    CollapsePlainTail(w + [sep, sep], v, sep, excluded);
    CollapseTrailingPair(w, sep, excluded);
  }

  /** `w sep sep` collapses to `w sep` when `w` holds no separator and ends in an allowed lead. */
  lemma {:induction false} CollapseTrailingPair(w: string, sep: char, excluded: char)
    requires |w| > 0 && sep !in w && w[|w| - 1] != excluded
    ensures CollapseRuns(w + [sep, sep], sep, excluded) == w + [sep]
    decreases |w|
  {
    var s := w + [sep, sep];
    if |w| == 1 {
      assert RunAt(s, 0, sep, excluded);
      assert RunLength(s[1..], sep) == 2;
      assert s[3..] == [];
    } else {
      assert w[0] in w;
      assert !RunAt(s, 0, sep, excluded) by {
        assert s[1] == w[1] && w[1] in w;
      }
      assert s[1..] == w[1..] + [sep, sep];
      assert forall c :: c in w[1..] ==> c in w;
      CollapseTrailingPair(w[1..], sep, excluded);
      assert [w[0]] + (w[1..] + [sep]) == w + [sep];
    }
  }

  /** The first `n` characters of the result, when free of `sep`, come straight from the input. */
  lemma {:induction false} CollapseKeepsPrefix(s: string, sep: char, excluded: char, n: nat)
    requires n <= |CollapseRuns(s, sep, excluded)|
    requires sep !in CollapseRuns(s, sep, excluded)[..n]
    ensures n <= |s| && s[..n] == CollapseRuns(s, sep, excluded)[..n]
    decreases |s|
  {
    var r := CollapseRuns(s, sep, excluded);
    if |s| < 3 || n == 0 {
    } else if RunAt(s, 0, sep, excluded) {
      CollapseStepRun(s, sep, excluded, RunLength(s[1..], sep));
      assert r[1] == sep;
      assert n <= 1;
      assert s[..n] == r[..n] by {
        assert s[..n] == [s[0]] && r[..n] == [r[0]];
      }
    } else {
      var c := CollapseRuns(s[1..], sep, excluded);
      CollapseStepPlain(s, sep, excluded);
      assert c[..n - 1] == r[1..n];
      SepFreeTail(s[0], c, n, sep);
      CollapseKeepsPrefix(s[1..], sep, excluded, n - 1);
      assert s[..n] == [s[0]] + s[1..][..n - 1];
      assert r[..n] == [r[0]] + c[..n - 1];
    }
  }

  lemma SepFreeTail(x: char, c: string, n: nat, sep: char)
    requires 1 <= n <= |c| + 1 && sep !in ([x] + c)[..n]
    ensures sep !in c[..n - 1]
  {
    assert c[..n - 1] == ([x] + c)[..n][1..];
  }

  /** The rewrite never creates an occurrence of a needle that holds no separator
      (case-insensitive search, for a separator that is not a letter). */
  lemma {:induction false} CollapseCreatesNoMatch(s: string, sep: char, excluded: char, pat: string, i: nat)
    returns (i': nat)
    requires !('A' <= sep <= 'Z') && !('a' <= sep <= 'z')
    requires forall j :: 0 <= j < |pat| ==> LowerChar(pat[j]) != sep
    requires MatchesAt(CollapseRuns(s, sep, excluded), i, pat, true)
    ensures MatchesAt(s, i', pat, true)
    decreases |s|, 1
  {
    if |s| < 3 || |pat| == 0 {
      i' := i;
      if |pat| == 0 {
        i' := 0;
      }
    } else if RunAt(s, 0, sep, excluded) {
      i' := NoMatchCreatedAtRun(s, sep, excluded, pat, i);
    } else {
      i' := NoMatchCreatedPlain(s, sep, excluded, pat, i);
    }
  }

  lemma MatchesAtChar(s: string, i: nat, pat: string, j: nat)
    requires MatchesAt(s, i, pat, true) && j < |pat|
    ensures LowerChar(s[i + j]) == LowerChar(pat[j])
  {
    assert Fold(s[i..i + |pat|], true)[j] == Fold(pat, true)[j];
  }

  lemma {:induction false} NoMatchCreatedAtRun(s: string, sep: char, excluded: char, pat: string, i: nat)
    returns (i': nat)
    requires !('A' <= sep <= 'Z') && !('a' <= sep <= 'z')
    requires forall j :: 0 <= j < |pat| ==> LowerChar(pat[j]) != sep
    requires |s| >= 3 && RunAt(s, 0, sep, excluded) && |pat| > 0
    requires MatchesAt(CollapseRuns(s, sep, excluded), i, pat, true)
    ensures MatchesAt(s, i', pat, true)
    decreases |s|, 0
  {
    var k := RunLength(s[1..], sep);
    var rest := s[1 + k..];
    var c := CollapseRuns(rest, sep, excluded);
    CollapseStepRun(s, sep, excluded, k);
    if i >= 2 {
      MatchesDropHead([s[0], sep], c, i, pat);
      var j' := CollapseCreatesNoMatch(rest, sep, excluded, pat, i - 2);
      i' := MatchesInSuffix(s, 1 + k, j', pat);
    } else {
      MatchBeforeSeparator(CollapseRuns(s, sep, excluded), s, sep, pat, i);
      i' := 0;
    }
  }

  /** A separator-free needle matching before position 2 of `r`, where `r[1]`
      is the separator, is one character long and sits at 0; it matches `s`
      there too when `s` starts like `r`. */
  lemma MatchBeforeSeparator(r: string, s: string, sep: char, pat: string, i: nat)
    requires !('A' <= sep <= 'Z')
    requires |r| >= 2 && r[1] == sep && |s| > 0 && s[0] == r[0]
    requires forall j :: 0 <= j < |pat| ==> LowerChar(pat[j]) != sep
    requires |pat| > 0 && i < 2 && MatchesAt(r, i, pat, true)
    ensures MatchesAt(s, 0, pat, true)
  {
    if i <= 1 < i + |pat| {
      MatchesAtChar(r, i, pat, 1 - i);
    }
    assert i == 0 && |pat| == 1;
    MatchesSamePrefix(r, s, pat);
  }

  lemma {:induction false} NoMatchCreatedPlain(s: string, sep: char, excluded: char, pat: string, i: nat)
    returns (i': nat)
    requires !('A' <= sep <= 'Z') && !('a' <= sep <= 'z')
    requires forall j :: 0 <= j < |pat| ==> LowerChar(pat[j]) != sep
    requires |s| >= 3 && !RunAt(s, 0, sep, excluded)
    requires MatchesAt(CollapseRuns(s, sep, excluded), i, pat, true)
    ensures MatchesAt(s, i', pat, true)
    decreases |s|, 0
  {
    var r := CollapseRuns(s, sep, excluded);
    var c := CollapseRuns(s[1..], sep, excluded);
    CollapseStepPlain(s, sep, excluded);
    if i >= 1 {
      MatchesDropHead([s[0]], c, i, pat);
      var j' := CollapseCreatesNoMatch(s[1..], sep, excluded, pat, i - 1);
      assert s == [s[0]] + s[1..];
      MatchesAddHead([s[0]], s[1..], j', pat);
      i' := j' + 1;
    } else {
      assert sep !in r[..|pat|] by {
        forall j | 0 <= j < |pat| ensures r[..|pat|][j] != sep {
          MatchesAtChar(r, 0, pat, j);
        }
      }
      CollapseKeepsPrefix(s, sep, excluded, |pat|);
      MatchesSamePrefix(r, s, pat);
      i' := 0;
    }
  }

  /** A match past a prefix is a match in what follows it. */
  lemma MatchesDropHead(a: string, c: string, i: nat, pat: string)
    requires i >= |a| && MatchesAt(a + c, i, pat, true)
    ensures MatchesAt(c, i - |a|, pat, true)
  {
    assert (a + c)[i..i + |pat|] == c[i - |a|..i - |a| + |pat|];
  }

  /** A match stays a match behind a prefix. */
  lemma MatchesAddHead(a: string, c: string, j: nat, pat: string)
    requires MatchesAt(c, j, pat, true)
    ensures MatchesAt(a + c, j + |a|, pat, true)
  {
    assert (a + c)[j + |a|..j + |a| + |pat|] == c[j..j + |pat|];
  }

  /** A match in a suffix of `s` is a match in `s`. */
  lemma MatchesInSuffix(s: string, n: nat, j: nat, pat: string) returns (i: nat)
    requires n <= |s| && MatchesAt(s[n..], j, pat, true)
    ensures i == j + n && MatchesAt(s, i, pat, true)
  {
    SplitAt(s, n);
    MatchesAddHead(s[..n], s[n..], j, pat);
    i := j + n;
  }

  /** A match at the start depends only on the first `|pat|` characters. */
  lemma MatchesSamePrefix(r: string, s: string, pat: string)
    requires MatchesAt(r, 0, pat, true)
    requires |pat| <= |s| && s[..|pat|] == r[..|pat|]
    ensures MatchesAt(s, 0, pat, true)
  {
    assert s[0..|pat|] == r[0..|pat|];
  }

  // ---------------------------------------------------------------------------
  // preg_replace('/%5B[0-9]+%5D/simU', '%5B%5D', $url)
  // ---------------------------------------------------------------------------

  predicate IsDigit(c: char) {
    '0' <= c <= '9'
  }

  /** Length of the run of decimal digits at the start of `s`. */
  function DigitRun(s: string): (k: nat)
    ensures k <= |s|
    ensures forall i :: 0 <= i < k ==> IsDigit(s[i])
    ensures k < |s| ==> !IsDigit(s[k])
    decreases |s|
  {
    if |s| == 0 || !IsDigit(s[0]) then 0 else 1 + DigitRun(s[1..])
  }

  /** `%5B` (hex letter in either case) at offset `i`. */
  predicate OpenAt(s: string, i: nat) {
    i + 3 <= |s| && s[i] == '%' && s[i + 1] == '5' && (s[i + 2] == 'B' || s[i + 2] == 'b')
  }

  /** `%5D` (hex letter in either case) at offset `i`. */
  predicate CloseAt(s: string, i: nat) {
    i + 3 <= |s| && s[i] == '%' && s[i + 1] == '5' && (s[i + 2] == 'D' || s[i + 2] == 'd')
  }

  /** The length of the regex match at the start of `s`, if it matches there.
      The `i` flag makes the hex letters case-insensitive; ungreedy `+?` picks the
      same digits as greedy `+` because a digit is never `%`. */
  function IndexedAt(s: string): (n: Option<nat>)
    ensures n.Some? ==> 7 <= n.value <= |s| && CloseAt(s, n.value - 3)
  {
    if OpenAt(s, 0) then
      var d := DigitRun(s[3..]);
      if d >= 1 && CloseAt(s, 3 + d) then Some(6 + d) else None
    else None
  }

  /** Nothing left for the rewrite to match. */
  ghost predicate IndexFree(s: string) {
    forall i :: 0 <= i < |s| ==> IndexedAt(s[i..]).None?
  }

  /** Leftmost replacement of every `%5B<digits>%5D` by `%5B%5D`. */
  function StripIndexes(s: string): string
    decreases |s|
  {
    if |s| == 0 then ""
    else
      match IndexedAt(s)
      case Some(n) => "%5B%5D" + StripIndexes(s[n..])
      case None => [s[0]] + StripIndexes(s[1..])
  }

  /** A first output character other than `%` was copied from the input. */
  lemma StripCopiesPlainHead(s: string)
    requires |StripIndexes(s)| > 0 && StripIndexes(s)[0] != '%'
    ensures |s| > 0 && IndexedAt(s).None? && s[0] == StripIndexes(s)[0]
    ensures StripIndexes(s)[1..] == StripIndexes(s[1..])
  {
    if IndexedAt(s).Some? {
      StripStepIndexed(s);
    }
    StripStepPlain(s);
  }

  /** Output that starts with `%5D` was copied, not produced by a replacement. */
  lemma StripCopiesCloseHead(s: string)
    requires CloseAt(StripIndexes(s), 0)
    ensures |s| > 0 && IndexedAt(s).None? && s[0] == '%'
    ensures StripIndexes(s)[1..] == StripIndexes(s[1..])
  {
    if IndexedAt(s).Some? {
      StripStepIndexed(s);
    }
    StripStepPlain(s);
  }

  /** One step of the rewrite at a match: the bracket pair is emitted empty. */
  lemma StripStepIndexed(s: string)
    requires IndexedAt(s).Some?
    ensures StripIndexes(s) == "%5B%5D" + StripIndexes(s[IndexedAt(s).value..])
    ensures StripIndexes(s)[0] == '%' && StripIndexes(s)[2] == 'B'
  {
  }

  /** One step of the rewrite elsewhere: the first character is copied. */
  lemma StripStepPlain(s: string)
    requires |s| > 0 && IndexedAt(s).None?
    ensures StripIndexes(s) == [s[0]] + StripIndexes(s[1..])
  {
  }

  /** Output of the shape `<k digits>%5D...` comes from input of the same shape. */
  lemma {:induction false} StripCopiesDigitsThenClose(s: string, k: nat)
    requires forall j :: 0 <= j < k && j < |StripIndexes(s)| ==> IsDigit(StripIndexes(s)[j])
    requires CloseAt(StripIndexes(s), k)
    ensures k + 3 <= |s| && s[..k + 3] == StripIndexes(s)[..k + 3]
    decreases k
  {
    var r := StripIndexes(s);
    if k == 0 {
      StripCopiesClose(s);
    } else {
      StripCopiesPlainHead(s);
      var t := s[1..];
      var rt := StripIndexes(t);
      assert rt == r[1..];
      assert CloseAt(rt, k - 1);
      StripCopiesDigitsThenClose(t, k - 1);
      PrefixCons(s, r, k + 2);
    }
  }

  /** Output starting with `%5D` was copied, all three characters of it. */
  lemma StripCopiesClose(s: string)
    requires CloseAt(StripIndexes(s), 0)
    ensures 3 <= |s| && s[..3] == StripIndexes(s)[..3]
  {
    var r := StripIndexes(s);
    StripCopiesCloseHead(s);
    var r1 := StripIndexes(s[1..]);
    assert r1 == r[1..] && r1[0] == r[1] == '5';
    StripCopiesPlainHead(s[1..]);
    assert s[1..][1..] == s[2..];
    var r2 := StripIndexes(s[2..]);
    assert r2 == r1[1..] && r2[0] == r[2];
    StripCopiesPlainHead(s[2..]);
    SameFirstThree(s, r);
  }

  lemma SameFirstThree(s: string, r: string)
    requires |s| >= 3 && |r| >= 3 && s[0] == r[0] && s[1] == r[1] && s[2] == r[2]
    ensures s[..3] == r[..3]
  {
    assert s[..3] == [s[0], s[1], s[2]];
    assert r[..3] == [r[0], r[1], r[2]];
  }

  /** Equal heads and equal next `m` characters give equal first `m + 1`. */
  lemma PrefixCons(s: string, r: string, m: nat)
    requires |s| > 0 && |r| > 0 && s[0] == r[0]
    requires m <= |s| - 1 && m <= |r| - 1 && s[1..][..m] == r[1..][..m]
    ensures s[..m + 1] == r[..m + 1]
  {
    assert s[..m + 1] == [s[0]] + s[1..][..m];
    assert r[..m + 1] == [r[0]] + r[1..][..m];
  }

  /** If the input does not match at its start, neither does the output. */
  lemma NoMatchRecreated(s: string)
    requires |s| > 0 && IndexedAt(s).None?
    ensures IndexedAt(StripIndexes(s)).None?
  {
    if IndexedAt(StripIndexes(s)).Some? {
      CopiedMatchWasInInput(s);
    }
  }

  /** A match at the head of `s[0]` followed by the rewritten rest was already in `s`. */
  lemma CopiedMatchWasInInput(s: string)
    requires |s| > 0
    requires IndexedAt([s[0]] + StripIndexes(s[1..])).Some?
    ensures IndexedAt(s).Some?
  {
    var r := [s[0]] + StripIndexes(s[1..]);
    assert OpenAt(r, 0);
    var d := DigitRun(r[3..]);
    assert d >= 1 && CloseAt(r, 3 + d);
    CopiedTwoChars(s);
    var t := s[3..];
    assert CloseAt(StripIndexes(t), d);
    CopiedDigitsThenClose(t);
    assert OpenAt(s, 0);
  }

  /** The two characters after the head of the output were copied from the input. */
  lemma CopiedTwoChars(s: string)
    requires |s| > 0
    requires |[s[0]] + StripIndexes(s[1..])| >= 3
    requires ([s[0]] + StripIndexes(s[1..]))[1] != '%' && ([s[0]] + StripIndexes(s[1..]))[2] != '%'
    ensures |s| >= 3
    ensures s[1] == ([s[0]] + StripIndexes(s[1..]))[1] && s[2] == ([s[0]] + StripIndexes(s[1..]))[2]
    ensures StripIndexes(s[3..]) == ([s[0]] + StripIndexes(s[1..]))[3..]
  {
    var r1 := StripIndexes(s[1..]);
    var r := [s[0]] + r1;
    assert r[1] == r1[0] && r[2] == r1[1];
    StripCopiesPlainHead(s[1..]);
    assert s[1..][1..] == s[2..];
    var r2 := StripIndexes(s[2..]);
    assert r2 == r1[1..] && r2[0] == r1[1];
    StripCopiesPlainHead(s[2..]);
    assert s[2..][1..] == s[3..];
    assert r[3..] == r1[2..] == r2[1..];
  }

  /** Output `<digits>%5D` (at least one digit) was copied from the input. */
  lemma CopiedDigitsThenClose(t: string)
    requires DigitRun(StripIndexes(t)) >= 1
    requires CloseAt(StripIndexes(t), DigitRun(StripIndexes(t)))
    ensures DigitRun(t) == DigitRun(StripIndexes(t))
    ensures CloseAt(t, DigitRun(StripIndexes(t)))
  {
    var r := StripIndexes(t);
    var d := DigitRun(r);
    StripCopiesDigitsThenClose(t, d);
    assert forall j :: 0 <= j < d + 3 ==> t[j] == r[j] by {
      forall j | 0 <= j < d + 3 ensures t[j] == r[j] {
        assert t[..d + 3][j] == r[..d + 3][j];
      }
    }
    DigitRunOf(t, d);
  }

  lemma {:induction false} DigitRunOf(a: string, d: nat)
    requires d < |a| && (forall j :: 0 <= j < d ==> IsDigit(a[j])) && !IsDigit(a[d])
    ensures DigitRun(a) == d
    decreases d
  {
    if d > 0 {
      DigitRunOf(a[1..], d - 1);
    }
  }

  /** After the rewrite nothing matches any more. */
  lemma {:induction false} StripIndexFree(s: string)
    ensures IndexFree(StripIndexes(s))
    decreases |s|
  {
    if |s| > 0 {
      match IndexedAt(s)
      case Some(n) =>
        StripIndexFree(s[n..]);
        StripStepIndexed(s);
        EmptyBracketsFree(StripIndexes(s[n..]));
      case None =>
        StripIndexFree(s[1..]);
        StripStepPlain(s);
        NoMatchRecreated(s);
        IndexFreeCons(s[0], StripIndexes(s[1..]));
    }
  }

  /** The emitted `%5B%5D` in front of rewritten text leaves nothing to match. */
  lemma EmptyBracketsFree(c: string)
    requires IndexFree(c)
    ensures IndexFree("%5B%5D" + c)
  {
    var r := "%5B%5D" + c;
    forall i | 0 <= i < |r| ensures IndexedAt(r[i..]).None? {
      if i >= 6 {
        assert r[i..] == c[i - 6..];
      } else if i == 0 {
        assert r[3..][0] == '%';
      } else {
        assert r[i..][0] == r[i];
      }
    }
  }

  /** One character in front of match-free text leaves nothing to match when
      there is no match at the very start. */
  lemma IndexFreeCons(x: char, c: string)
    requires IndexFree(c) && IndexedAt([x] + c).None?
    ensures IndexFree([x] + c)
  {
    var r := [x] + c;
    forall i | 0 <= i < |r| ensures IndexedAt(r[i..]).None? {
      if i >= 1 {
        assert r[i..] == c[i - 1..];
      } else {
        assert r[i..] == r;
      }
    }
  }

  /** The characters a match or its replacement can consist of. */
  predicate IsIndexChar(c: char) {
    c == '%' || IsDigit(c) || c == 'B' || c == 'b' || c == 'D' || c == 'd'
  }

  /** The rewrite only touches bracket escapes and digits: any other
      character occurs in the result exactly when it occurs in the input. */
  lemma {:induction false} StripKeepsOtherChars(s: string, c: char)
    requires !IsIndexChar(c)
    ensures c in StripIndexes(s) <==> c in s
    decreases |s|
  {
    if |s| > 0 {
      match IndexedAt(s)
      case Some(n) =>
        StripStepIndexed(s);
        StripKeepsOtherChars(s[n..], c);
        MemberSplit(s, n, c);
        IndexedCharsOnly(s, c);
        assert c !in "%5B%5D";
      case None =>
        StripStepPlain(s);
        StripKeepsOtherChars(s[1..], c);
        MemberSplit(s, 1, c);
    }
  }

  /** A match consists of bracket-escape characters and digits only. */
  lemma IndexedCharsOnly(s: string, c: char)
    requires IndexedAt(s).Some? && !IsIndexChar(c)
    ensures c !in s[..IndexedAt(s).value]
  {
    var n := IndexedAt(s).value;
    var d := DigitRun(s[3..]);
    assert n == 6 + d;
    forall j | 0 <= j < n ensures s[..n][j] != c {
      if 3 <= j < 3 + d {
        assert s[3..][j - 3] == s[j];
      }
    }
  }

  /** A string with nothing to match is left unchanged. */
  lemma {:induction false} StripOfIndexFree(s: string)
    requires IndexFree(s)
    ensures StripIndexes(s) == s
    decreases |s|
  {
    if |s| > 0 {
      assert IndexedAt(s[0..]).None? && s[0..] == s;
      assert IndexFree(s[1..]) by {
        forall i | 0 <= i < |s[1..]| ensures IndexedAt(s[1..][i..]).None? {
          assert s[1..][i..] == s[i + 1..];
        }
      }
      StripOfIndexFree(s[1..]);
      assert [s[0]] + s[1..] == s;
    }
  }

  /** The rewrite is the identity exactly on strings it has nothing to match in. */
  lemma StripFixedPoints(s: string)
    ensures StripIndexes(s) == s <==> IndexFree(s)
  {
    if IndexFree(s) {
      StripOfIndexFree(s);
    } else {
      StripIndexFree(s);
    }
  }

  /** A string without `%` is left unchanged. */
  lemma StripWithoutPercent(s: string)
    requires '%' !in s
    ensures StripIndexes(s) == s
  {
    assert IndexFree(s) by {
      forall i | 0 <= i < |s| ensures IndexedAt(s[i..]).None? {
        assert s[i..][0] == s[i] && s[i] in s;
      }
    }
    StripOfIndexFree(s);
  }

  /** Output that starts with two slashes comes from input that does. */
  lemma StripHeadSlashes(t: string)
    requires |StripIndexes(t)| >= 2 && StripIndexes(t)[0] == '/' && StripIndexes(t)[1] == '/'
    ensures |t| >= 2 && t[0] == '/' && t[1] == '/'
  {
    StripCopiesPlainHead(t);
    StripCopiesPlainHead(t[1..]);
  }

  /** Rewriting `%5B<n>%5D` never creates a run of slashes. */
  lemma {:induction false} StripKeepsRunFree(s: string)
    requires RunFree(s, '/', ':')
    ensures RunFree(StripIndexes(s), '/', ':')
    decreases |s|
  {
    var r := StripIndexes(s);
    if |s| > 0 {
      match IndexedAt(s)
      case Some(n) =>
        var t := s[n..];
        assert RunFree(t, '/', ':') by {
          forall i ensures !RunAt(t, i, '/', ':') {
            assert !RunAt(s, i + n, '/', ':');
          }
        }
        StripKeepsRunFree(t);
        var c := StripIndexes(t);
        assert r == "%5B%5D" + c;
        assert s[n - 1] != ':' && !RunAt(s, n - 1, '/', ':');
        if |c| >= 2 && c[0] == '/' && c[1] == '/' {
          StripHeadSlashes(t);
        }
        forall i ensures !RunAt(r, i, '/', ':') {
          if i >= 6 {
            assert !RunAt(c, i - 6, '/', ':');
          }
        }
      case None =>
        var t := s[1..];
        assert RunFree(t, '/', ':') by {
          forall i ensures !RunAt(t, i, '/', ':') {
            assert !RunAt(s, i + 1, '/', ':');
          }
        }
        StripKeepsRunFree(t);
        var c := StripIndexes(t);
        assert r == [s[0]] + c;
        assert !RunAt(s, 0, '/', ':');
        if |c| >= 2 && c[0] == '/' && c[1] == '/' {
          StripHeadSlashes(t);
        }
        forall i ensures !RunAt(r, i, '/', ':') {
          if i >= 1 {
            assert !RunAt(c, i - 1, '/', ':');
          }
        }
    }
  }
}

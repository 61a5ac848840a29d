/** The response-header callback the client installs on the transfer: each
    header line with a `:` is split into a name and a trimmed value, and the
    values are collected per exact name in arrival order. */
module HeaderCallback {
  import opened Results
  import opened PhpStrings
  import opened OrderedMap

  /** A line holding the delimiter explodes into at least two pieces. */
  lemma ExplodeHasTwoPieces(s: string, d: char)
    requires d in s
    ensures |Explode(s, d)| >= 2
  {
    ExplodeGlues(s, d);
  }

  /** What the callback records for one line: nothing for a line without `:`
      (the status line, the blank line ending the block); otherwise the text
      before the first `:` as the name and the trimmed text between the first
      and the second `:` as the value. */
  function SplitHeaderLine(line: string): (r: Option<(string, string)>)
    ensures r.None? <==> ':' !in line
    ensures r.Some? ==> ':' !in r.value.0 && IsTrimmed(r.value.1)
  {
    if ':' !in line then None
    else
      var parts := Explode(line, ':');
      ExplodeHasTwoPieces(line, ':');
      Some((parts[0], Trim(parts[1])))
  }

  /** The name ends at the first `:` and the value at the second one, so a
      value that itself holds a `:` is cut there. */
  lemma SplitTruncates(name: string, value: string, tail: string)
    requires ':' !in name && ':' !in value
    requires tail == "" || tail[0] == ':'
    ensures SplitHeaderLine(name + ":" + value + tail) == Some((name, Trim(value)))
  {
    var line := name + ":" + value + tail;
    assert line == name + [':'] + (value + tail);
    ExplodeFirstPiece(name, value + tail, ':');
    if tail == "" {
      assert value + tail == value;
      ExplodeWithoutDelimiter(value, ':');
    } else {
      assert value + tail == value + [':'] + tail[1..];
      ExplodeFirstPiece(value, tail[1..], ':');
    }
  }

  /** A line written as `Name: value` reads back as the pair, for a name and
      a trimmed value free of `:`. */
  lemma SplitReadsHeaderLine(name: string, value: string)
    requires ':' !in name && ':' !in value && IsTrimmed(value)
    ensures SplitHeaderLine(name + ": " + value) == Some((name, value))
  {
    var padded := " " + value;
    assert name + ": " + value == name + ":" + padded + "";
    SplitPadded(name, value, padded);
  }

  /** A header line whose value follows one space after the colon splits into the name and that value. */
  lemma SplitPadded(name: string, value: string, padded: string)
    requires ':' !in name && ':' !in value && IsTrimmed(value)
    requires padded == [' '] + value
    ensures SplitHeaderLine(name + ":" + padded + "") == Some((name, value))
  {
    assert ':' !in padded;
    SplitTruncates(name, padded, "");
    TrimStripsPadding([' '], value, "");
    assert [' '] + value + "" == padded;
  }

  /** The pairs the callback records, in arrival order. */
  function Recorded(lines: seq<string>): (ps: seq<(string, string)>)
    ensures |ps| <= |lines|
    decreases |lines|
  {
    if |lines| == 0 then []
    else
      var init := Recorded(lines[..|lines| - 1]);
      match SplitHeaderLine(lines[|lines| - 1])
      case None => init
      case Some(p) => init + [p]
  }

  /** The `$returnHeaders` array after the callback has seen `lines`. */
  function CollectHeaders(lines: seq<string>): (m: Multi<string>)
    decreases |lines|
  {
    if |lines| == 0 then []
    else
      var m := CollectHeaders(lines[..|lines| - 1]);
      match SplitHeaderLine(lines[|lines| - 1])
      case None => m
      case Some(p) => Append(m, p.0, p.1)
  }

  /** Every name holds exactly the values recorded for it, in arrival order,
      and each name appears once. */
  lemma {:induction false} CollectHeadersValues(lines: seq<string>, k: string)
    ensures Values(CollectHeaders(lines), k) == ValuesFor(Recorded(lines), k)
    ensures UniqueKeys(CollectHeaders(lines))
    decreases |lines|
  {
    if |lines| > 0 {
      var init := lines[..|lines| - 1];
      CollectHeadersValues(init, k);
      match SplitHeaderLine(lines[|lines| - 1])
      case None =>
      case Some(p) =>
        ValuesAppend(CollectHeaders(init), p.0, p.1, k);
        ValuesForConcat(Recorded(init), [p], k);
    }
  }

  /** A name is present exactly when some value was recorded for it. */
  lemma {:induction false} CollectHeadersKeys(lines: seq<string>, k: string)
    ensures HasKey(CollectHeaders(lines), k) <==> ValuesFor(Recorded(lines), k) != []
    decreases |lines|
  {
    if |lines| > 0 {
      var init := lines[..|lines| - 1];
      CollectHeadersKeys(init, k);
      match SplitHeaderLine(lines[|lines| - 1])
      case None =>
      case Some(p) =>
        ValuesForConcat(Recorded(init), [p], k);
        var m := CollectHeaders(init);
        if k != p.0 {
          assert Get(Append(m, p.0, p.1), k) == Get(m, k);
        }
    }
  }

  /** A response whose block starts with a status line and repeats a header:
      the status line is skipped and both values are kept, in order. */
  lemma RepeatedHeaderAccumulates(status: string, name: string, v1: string, v2: string)
    requires ':' !in status
    requires ':' !in name && ':' !in v1 && ':' !in v2 && IsTrimmed(v1) && IsTrimmed(v2)
    ensures Values(CollectHeaders([status, name + ": " + v1, name + ": " + v2]), name) == [v1, v2]
  {
    SplitReadsHeaderLine(name, v1);
    SplitReadsHeaderLine(name, v2);
    RecordedOfThree(status, name + ": " + v1, name + ": " + v2);
    CollectHeadersValues([status, name + ": " + v1, name + ": " + v2], name);
    ValuesForTwo((name, v1), (name, v2), name);
  }

  /** Of a status line and two header lines, the callback records the two header lines in order. */
  lemma RecordedOfThree(a: string, b: string, c: string)
    requires SplitHeaderLine(a).None? && SplitHeaderLine(b).Some? && SplitHeaderLine(c).Some?
    ensures Recorded([a, b, c]) == [SplitHeaderLine(b).value, SplitHeaderLine(c).value]
  {
    var lines := [a, b, c];
    assert lines[..2] == [a, b] && [a, b][..1] == [a] && [a][..0] == [];
    assert Recorded([a]) == [];
    assert Recorded([a, b]) == [SplitHeaderLine(b).value];
    assert Recorded(lines) == Recorded([a, b]) + [SplitHeaderLine(c).value];
  }

  /** The values of two recorded pairs under their shared name are the two values in order. */
  lemma ValuesForTwo(p: (string, string), q: (string, string), k: string)
    requires p.0 == k && q.0 == k
    ensures ValuesFor([p, q], k) == [p.1, q.1]
  {
    assert [p, q][..1] == [p] && [p][..0] == [];
    assert ValuesFor([p], k) == [p.1];
    assert ValuesFor([p, q], k) == ValuesFor([p], k) + [q.1];
  }
}

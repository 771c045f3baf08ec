/** The line matcher, `extract_md`: keep, in file order, every line that
    starts with optional whitespace, one or more comment characters and the
    magic character. The file is given as its sequence of lines. */
module LineMatcher {
  import opened Text

  /** The magic character: one character, or the empty string for none. */
  type Magic = s: string | |s| <= 1

  /** `comment_character` and `magic_character`. Both are spliced into
      regular expressions unescaped; the model takes them as literal
      characters. */
  datatype Markers = Markers(comment: char, magic: Magic) {
    /** A comment character that is not whitespace and differs from the
        magic character. */
    predicate Valid() {
      !IsWs(comment) && magic != [comment]
    }
  }

  /** `re.match(r"\s*" + comment + "+" + magic, line)` succeeds. */
  predicate Marked(line: string, mk: Markers) {
    var t := LStrip(line);
    var n := RunLength(t, mk.comment);
    n >= 1 && (mk.magic == [] || (n < |t| && t[n] == mk.magic[0]))
  }

  /** One way for the pattern to match at the start of `line`: `i` characters
      of whitespace, then `k >= 1` comment characters, then the magic. */
  ghost predicate MatchSplit(line: string, mk: Markers, i: nat, k: nat) {
    1 <= k && i + k + |mk.magic| <= |line| &&
    AllWs(line[..i]) &&
    (forall j :: i <= j < i + k ==> line[j] == mk.comment) &&
    line[i + k..i + k + |mk.magic|] == mk.magic
  }

  /** The language of the regular expression: some split of the line's
      start fits it. */
  ghost predicate PatternMatches(line: string, mk: Markers) {
    exists i: nat, k: nat :: MatchSplit(line, mk, i, k)
  }

  lemma MarkedHasSplit(line: string, mk: Markers)
    requires Marked(line, mk)
    ensures PatternMatches(line, mk)
  {
    var t := LStrip(line);
    var n := RunLength(t, mk.comment);
    var w := |line| - |t|;
    LStripSuffix(line);
    assert line[w..] == t;
    assert line[w + n..w + n + |mk.magic|] == t[n..n + |mk.magic|];
    assert MatchSplit(line, mk, w, n);
  }

  lemma SplitIsMarked(line: string, mk: Markers, i: nat, k: nat)
    requires mk.Valid()
    requires MatchSplit(line, mk, i, k)
    ensures Marked(line, mk)
  {
    var t := line[i..];
    SplitAt(line, i);
    LStripUnique(line[..i], t);
    assert forall j :: 0 <= j < k ==> t[j] == mk.comment;
    RunLengthAtLeast(t, mk.comment, k);
  }

  /** The scan agrees with the regular expression on every line. */
  lemma MarkedIffPattern(line: string, mk: Markers)
    requires mk.Valid()
    ensures Marked(line, mk) <==> PatternMatches(line, mk)
  {
    if Marked(line, mk) {
      MarkedHasSplit(line, mk);
    }
    if PatternMatches(line, mk) {
      var i: nat, k: nat :| MatchSplit(line, mk, i, k);
      SplitIsMarked(line, mk, i, k);
    }
  }

  /** With no magic character a line is kept exactly when its first
      non-whitespace character is the comment character. */
  lemma EmptyMagicFirstNonWs(line: string, mk: Markers)
    requires mk.Valid() && mk.magic == []
    ensures Marked(line, mk) <==>
            exists i :: 0 <= i < |line| && AllWs(line[..i]) && line[i] == mk.comment
  {
    var t := LStrip(line);
    LStripSuffix(line);
    if Marked(line, mk) {
      var i := |line| - |t|;
      assert line[i] == t[0];
    }
    if exists i :: 0 <= i < |line| && AllWs(line[..i]) && line[i] == mk.comment {
      var i :| 0 <= i < |line| && AllWs(line[..i]) && line[i] == mk.comment;
      SplitAt(line, i);
      LStripUnique(line[..i], line[i..]);
    }
  }

  /** Every kept line has the comment character as its first
      non-whitespace character. */
  lemma MarkedStartsWithComment(line: string, mk: Markers)
    requires Marked(line, mk)
    ensures exists i :: 0 <= i < |line| && AllWs(line[..i]) && line[i] == mk.comment
  {
    var t := LStrip(line);
    var i := |line| - |t|;
    LStripSuffix(line);
    assert line[i] == t[0];
  }

  /** The lines `extract_md` keeps, specified on the whole sequence. */
  function Filter(lines: seq<string>, mk: Markers): (r: seq<string>)
    ensures |r| <= |lines|
    decreases |lines|
  {
    if lines == [] then []
    else
      var kept := Filter(lines[..|lines| - 1], mk);
      var last := lines[|lines| - 1];
      if Marked(last, mk) then kept + [last] else kept
  }

  /** Filtering a file is filtering its two halves and concatenating: each
      line is judged on its own and the order is kept. */
  lemma {:induction false} FilterAppend(a: seq<string>, b: seq<string>, mk: Markers)
    ensures Filter(a + b, mk) == Filter(a, mk) + Filter(b, mk)
    decreases |b|
  {
    if b == [] {
      assert a + b == a;
    } else {
      var b' := b[..|b| - 1];
      assert (a + b)[..|a + b| - 1] == a + b';
      FilterAppend(a, b', mk);
    }
  }

  /** A line is in the result exactly when it is in the file and marked. */
  lemma {:induction false} FilterKeepsExactly(lines: seq<string>, mk: Markers, x: string)
    ensures x in Filter(lines, mk) <==> x in lines && Marked(x, mk)
    decreases |lines|
  {
    if lines != [] {
      var init, last := lines[..|lines| - 1], lines[|lines| - 1];
      FilterKeepsExactly(init, mk, x);
      var all, kept := Filter(lines, mk), Filter(init, mk);
      assert all == if Marked(last, mk) then kept + [last] else kept;
      assert x in all <==> x in kept || (Marked(last, mk) && x == last);
      SplitAt(lines, |lines| - 1);
      assert x in lines <==> x in init || x == last;
    }
  }

  /** `extract_md`: loop over the lines and append the matching ones. */
  method ExtractMd(lines: seq<string>, mk: Markers) returns (matching: seq<string>)
    ensures matching == Filter(lines, mk)
  {
    matching := [];
    for i := 0 to |lines|
      invariant matching == Filter(lines[..i], mk)
    {
      var line := lines[i];
      if Marked(line, mk) {
        matching := matching + [line];
      }
      assert lines[..i + 1][..i] == lines[..i];
    }
    assert lines[..|lines|] == lines;
  }
}

/** The line transcoder, `convert`: each marked line becomes one Markdown
    line. Comment characters become heading markers, runs of seven or more
    become nothing (paragraph text), the first magic character goes, and a
    line left blank becomes a bare newline. */
module Transcoder {
  import opened Text
  import opened LineMatcher

  /** The Markdown heading marker every comment character turns into. */
  const Hash: char := '#'

  /** What `convert` makes of one line, step by step in the source's order. */
  function ConvertLine(line: string, mk: Markers): (r: string)
    ensures r != "" && r != " "
    ensures mk.magic != [] ==> r == "\n" || !IsWs(r[0])
  {
    var stripped := LStrip(line);
    var plain := DropLongRuns(stripped, mk.comment);
    var hashed := ReplaceChar(plain, mk.comment, Hash);
    var unmarked := if mk.magic != [] then LStrip(RemoveFirst(hashed, mk.magic[0])) else hashed;
    if unmarked == " " || unmarked == "" then "\n" else unmarked
  }

  /** `convert` on a whole sequence of lines, as a function of it. */
  function ConvertAll(lines: seq<string>, mk: Markers): (r: seq<string>)
    ensures |r| == |lines|
    ensures forall j :: 0 <= j < |lines| ==> r[j] == ConvertLine(lines[j], mk)
    decreases |lines|
  {
    if lines == [] then []
    else ConvertAll(lines[..|lines| - 1], mk) + [ConvertLine(lines[|lines| - 1], mk)]
  }

  /** `convert`: strip, transcode and append each line in turn. One output
      line per input line, in the same order, each depending only on its own
      input line. */
  method Convert(lines: seq<string>, mk: Markers) returns (converted: seq<string>)
    ensures converted == ConvertAll(lines, mk)
    ensures |converted| == |lines|
    ensures forall j :: 0 <= j < |lines| ==> converted[j] == ConvertLine(lines[j], mk)
  {
    converted := [];
    for i := 0 to |lines|
      invariant converted == ConvertAll(lines[..i], mk)
    {
      var line := lines[i];
      line := LStrip(line);
      line := DropLongRuns(line, mk.comment);
      line := ReplaceChar(line, mk.comment, Hash);
      if mk.magic != [] {
        line := RemoveFirst(line, mk.magic[0]);
        line := LStrip(line);
      }
      if line == " " || line == "" {
        line := "\n";
      }
      converted := converted + [line];
      assert lines[..i + 1][..i] == lines[..i];
    }
    assert lines[..|lines|] == lines;
  }

  /** What steps 2 and 3 make of the text after the markers. */
  function Body(rest: string, c: char): string {
    ReplaceChar(DropLongRuns(rest, c), c, Hash)
  }

  /** Paragraph text: leading blanks stripped, a blank line kept as "\n". */
  function Paragraph(text: string): string {
    var t := LStrip(text);
    if t == [] then "\n" else t
  }

  lemma ReplaceRun(c: char, n: nat)
    ensures ReplaceChar(Rep(c, n), c, Hash) == Rep(Hash, n)
  {
    ReplaceCharAt(Rep(c, n), c, Hash);
  }

  lemma ReplaceAppend(a: string, b: string, c: char)
    ensures ReplaceChar(a + b, c, Hash) == ReplaceChar(a, c, Hash) + ReplaceChar(b, c, Hash)
  {
    ReplaceCharAt(a + b, c, Hash);
    ReplaceCharAt(a, c, Hash);
    ReplaceCharAt(b, c, Hash);
    assert forall j :: |a| <= j < |a + b| ==> (a + b)[j] == b[j - |a|];
  }

  lemma LStripHeading(n: nat, t: string)
    requires n >= 1
    ensures LStrip(Rep(Hash, n) + t) == Rep(Hash, n) + t
  {
  }

  /** The heading markers steps 2 and 3 leave for a run of `n` comment
      characters: `n` hashes, or none for a run of seven or more. */
  function HashLead(n: nat): string {
    if n >= LongRun then [] else Rep(Hash, n)
  }

  /** Steps 2 and 3 on a run of `n` comment characters followed by another
      character `m` and the rest of the line. */
  lemma MarkersThenBody(c: char, m: char, n: nat, rest: string)
    requires m != c
    ensures ReplaceChar(DropLongRuns(Rep(c, n) + ([m] + rest), c), c, Hash) ==
            HashLead(n) + [m] + Body(rest, c)
  {
    var lead := if n >= LongRun then [] else Rep(c, n);
    DropLongRunsAfterRun(c, n, [m] + rest);
    assert DropLongRuns([m] + rest, c) == [m] + DropLongRuns(rest, c) by {
      assert ([m] + rest)[1..] == rest;
    }
    var plain := lead + [m] + DropLongRuns(rest, c);
    assert DropLongRuns(Rep(c, n) + ([m] + rest), c) == plain;
    ReplaceAppend(lead + [m], DropLongRuns(rest, c), c);
    ReplaceAppend(lead, [m], c);
    ReplaceRun(c, n);
  }

  /** A marked line, stripped, is its run of comment characters, the magic
      character and the rest. */
  lemma MarkedShape(line: string, mk: Markers)
    requires mk.magic != [] && Marked(line, mk)
    ensures var t := LStrip(line);
            var n := RunLength(t, mk.comment);
            n >= 1 && t == Rep(mk.comment, n) + ([mk.magic[0]] + t[n + 1..])
  {
    var t := LStrip(line);
    var n := RunLength(t, mk.comment);
    assert t == Rep(mk.comment, n) + ([mk.magic[0]] + t[n + 1..]);
  }

  /** Heading law for a line with a magic character that, stripped, is a
      run of `n` comment characters, the magic character and the rest (every
      marked line is, by `MarkedShape`): a heading of level `n` for
      `n <= 6`, paragraph text for `n >= 7`; only the magic character right
      after the run is removed, and the rest goes through steps 2 and 3. */
  lemma HeadingLaw(line: string, mk: Markers, n: nat, rest: string)
    requires mk.magic != [] && mk.magic[0] != mk.comment && mk.magic[0] != Hash
    requires n >= 1 && LStrip(line) == Rep(mk.comment, n) + ([mk.magic[0]] + rest)
    ensures ConvertLine(line, mk) ==
            if n < LongRun then Rep(Hash, n) + Body(rest, mk.comment) else Paragraph(Body(rest, mk.comment))
  {
    var c, m := mk.comment, mk.magic[0];
    MarkersThenBody(c, m, n, rest);
    var body := Body(rest, c);
    var hashed := HashLead(n) + [m] + body;
    RemoveFirstAfter(HashLead(n), m, body);
    assert RemoveFirst(hashed, m) == HashLead(n) + body;
    if n < LongRun {
      LStripHeading(n, body);
    }
  }

  /** The law for text free of comment characters, as the documented
      example uses it: `ws + n*c + m + text` gives `n*'#' + text` for
      `1 <= n <= 6` and the stripped text (or "\n") for `n >= 7`. */
  lemma HeadingOfPlainText(w: string, n: nat, text: string, mk: Markers)
    requires mk.Valid() && mk.magic != [] && mk.magic[0] != Hash
    requires AllWs(w) && n >= 1 && mk.comment !in text
    ensures ConvertLine(w + Rep(mk.comment, n) + mk.magic + text, mk) ==
            if n < LongRun then Rep(Hash, n) + text else Paragraph(text)
  {
    var c, m := mk.comment, mk.magic[0];
    var line := w + Rep(c, n) + mk.magic + text;
    var t := Rep(c, n) + ([m] + text);
    assert line == w + t;
    LStripUnique(w, t);
    HeadingLaw(line, mk, n, text);
    DropLongRunsNoComment(text, c);
    ReplaceCharAbsent(text, c, Hash);
  }

  /** Without a magic character, for a line that, stripped, is a run of `n`
      comment characters and text free of them: nothing is removed after the
      markers and there is no second strip, so it gives `n*'#' + text` for
      `n <= 6`, and the text as it is (a blank one as "\n") for `n >= 7`. */
  lemma NoMagicLaw(line: string, mk: Markers, n: nat, text: string)
    requires mk.magic == [] && n >= 1 && mk.comment !in text
    requires LStrip(line) == Rep(mk.comment, n) + text
    ensures ConvertLine(line, mk) ==
            if n < LongRun then Rep(Hash, n) + text
            else if text == "" || text == " " then "\n" else text
  {
    var c := mk.comment;
    var t := Rep(c, n) + text;
    DropLongRunsAfterRun(c, n, text);
    DropLongRunsNoComment(text, c);
    ReplaceCharAbsent(text, c, Hash);
    if n < LongRun {
      assert DropLongRuns(t, c) == t;
      ReplaceAppend(Rep(c, n), text, c);
      ReplaceRun(c, n);
      var hashed := Rep(Hash, n) + text;
      assert ReplaceChar(t, c, Hash) == hashed;
      assert hashed[0] == Hash;
    } else {
      assert DropLongRuns(t, c) == text;
    }
  }

  /** The same with leading whitespace `w` written out. */
  lemma EmptyMagicLaw(w: string, n: nat, text: string, mk: Markers)
    requires mk.Valid() && mk.magic == []
    requires AllWs(w) && n >= 1 && mk.comment !in text
    ensures ConvertLine(w + Rep(mk.comment, n) + text, mk) ==
            if n < LongRun then Rep(Hash, n) + text
            else if text == "" || text == " " then "\n" else text
  {
    var t := Rep(mk.comment, n) + text;
    assert w + Rep(mk.comment, n) + text == w + t;
    LStripUnique(w, t);
    NoMagicLaw(w + t, mk, n, text);
  }

  /** With comment '#' and magic '%', "#%" gives a level-one heading for any
      text free of '#'; the repository's test expects "#% import modules" to
      become "# import modules". */
  lemma LevelOneExample(text: string)
    requires '#' !in text
    ensures ConvertLine("#%" + text, Markers('#', "%")) == "#" + text
  {
    HeadingOfPlainText("", 1, text, Markers('#', "%"));
    assert "#%" + text == "" + Rep('#', 1) + "%" + text;
  }

  /** "##%" gives a level-two heading, as in "##% read markdown from file". */
  lemma LevelTwoExample(text: string)
    requires '#' !in text
    ensures ConvertLine("##%" + text, Markers('#', "%")) == "##" + text
  {
    HeadingOfPlainText("", 2, text, Markers('#', "%"));
    assert "##%" + text == "" + Rep('#', 2) + "%" + text;
  }

  /** Seven comment characters mark paragraph text: "#######%" + text gives
      the text with its leading blanks stripped. */
  lemma ParagraphExample(text: string)
    requires '#' !in text
    ensures ConvertLine("#######%" + text, Markers('#', "%")) == Paragraph(text)
  {
    HeadingOfPlainText("", 7, text, Markers('#', "%"));
    assert "#######%" + text == "" + Rep('#', 7) + "%" + text;
  }

  /** "#######%\n" gives the blank line that ends a Markdown paragraph. */
  lemma BlankParagraphExample()
    ensures ConvertLine("#######%\n", Markers('#', "%")) == "\n"
  {
    HeadingOfPlainText("", 7, "\n", Markers('#', "%"));
    assert "#######%\n" == "" + Rep('#', 7) + "%" + "\n";
  }

  /** Without a magic character there is no second strip: "#" + text stays
      as it is, for instance "# text\n". */
  lemma NoMagicExample(text: string)
    requires '#' !in text
    ensures ConvertLine("#" + text, Markers('#', "")) == "#" + text
  {
    EmptyMagicLaw("", 1, text, Markers('#', ""));
    assert "#" + text == "" + Rep('#', 1) + text;
  }

  /** A level-one marker with nothing after it keeps its heading marker:
      "#%\n" gives "#\n", not a blank line. */
  lemma EmptyHeadingExample()
    ensures ConvertLine("#%\n", Markers('#', "%")) == "#\n"
  {
    HeadingOfPlainText("", 1, "\n", Markers('#', "%"));
    assert "#%\n" == "" + Rep('#', 1) + "%" + "\n";
  }
}

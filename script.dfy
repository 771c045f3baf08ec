/** The command-line entry point of contents.py: extract and convert the
    input's marked lines, stop with exit status 2 when the result is only
    blank lines, otherwise write the Markdown to a file named after the
    input. File access and the pandoc run are not part of the model; the
    outcome says which file would be written and with what lines. */
module ContentsScript {
  import opened Text
  import opened PosixPath
  import opened LineMatcher
  import opened Transcoder
  import opened Toc

  /** The exit status when there is nothing to write. */
  const NothingToDocument: int := 2

  /** Every Markdown line is a bare newline (true of no lines at all). */
  predicate AllBlank(markdown: seq<string>) {
    forall j :: 0 <= j < |markdown| ==> markdown[j] == "\n"
  }

  /** What a run of the script ends with. */
  datatype Outcome = Exit(status: int) | Write(fileName: string, markdown: seq<string>)

  /** The name of the Markdown file: prefix, the input's base name with its
      extension, postfix and ".md", in the working directory. */
  function MarkdownFileName(fileName: string, prefix: string, postfix: string): string {
    prefix + Basename(fileName) + postfix + ".md"
  }

  /** A run of the script on the input's lines. */
  function Run(lines: seq<string>, mk: Markers, fileName: string, prefix: string, postfix: string): Outcome {
    var markdown := TableOfContents(lines, mk);
    if AllBlank(markdown) then Exit(NothingToDocument)
    else Write(MarkdownFileName(fileName, prefix, postfix), markdown)
  }

  /** The script stops with status 2 exactly when every marked line of the
      input converts to a bare newline; an input without marked lines is the
      special case of no lines at all. */
  lemma {:induction false} ExitIffAllMarkedBlank(lines: seq<string>, mk: Markers, fileName: string,
                                                 prefix: string, postfix: string)
    ensures Run(lines, mk, fileName, prefix, postfix) == Exit(NothingToDocument) <==>
            forall x :: x in lines && Marked(x, mk) ==> ConvertLine(x, mk) == "\n"
  {
    var kept := Filter(lines, mk);
    var markdown := ConvertAll(kept, mk);
    if AllBlank(markdown) {
      forall x | x in lines && Marked(x, mk)
        ensures ConvertLine(x, mk) == "\n"
      {
        FilterKeepsExactly(lines, mk, x);
        var j :| 0 <= j < |kept| && kept[j] == x;
        assert markdown[j] == "\n";
      }
    }
    if forall x :: x in lines && Marked(x, mk) ==> ConvertLine(x, mk) == "\n" {
      forall j | 0 <= j < |markdown|
        ensures markdown[j] == "\n"
      {
        FilterKeepsExactly(lines, mk, kept[j]);
      }
    }
  }

  /** An input with no marked line makes the script stop with status 2. */
  lemma NoMarkedLineExits(lines: seq<string>, mk: Markers, fileName: string, prefix: string, postfix: string)
    requires forall x :: x in lines ==> !Marked(x, mk)
    ensures Run(lines, mk, fileName, prefix, postfix) == Exit(NothingToDocument)
  {
    ExitIffAllMarkedBlank(lines, mk, fileName, prefix, postfix);
  }

  /** When it does not stop, the script writes the table of contents to the
      Markdown file, and that table has a line that is not blank. */
  lemma WritesTableOfContents(lines: seq<string>, mk: Markers, fileName: string, prefix: string, postfix: string)
    requires Run(lines, mk, fileName, prefix, postfix) != Exit(NothingToDocument)
    ensures Run(lines, mk, fileName, prefix, postfix) ==
            Write(MarkdownFileName(fileName, prefix, postfix), TableOfContents(lines, mk))
    ensures exists x :: x in lines && Marked(x, mk) && ConvertLine(x, mk) != "\n"
  {
    ExitIffAllMarkedBlank(lines, mk, fileName, prefix, postfix);
  }

  /** The Markdown file goes to the working directory, not next to the
      input: its name has no directory part. */
  lemma MarkdownFileInWorkingDirectory(fileName: string, prefix: string, postfix: string)
    requires Sep !in prefix && Sep !in postfix
    ensures Dirname(MarkdownFileName(fileName, prefix, postfix)) == []
    ensures Basename(MarkdownFileName(fileName, prefix, postfix)) == MarkdownFileName(fileName, prefix, postfix)
  {
    var r := MarkdownFileName(fileName, prefix, postfix);
    assert Sep !in ".md";
    assert Sep !in r;
    assert RFind(r, Sep) == -1;
  }

  /** The example's strings spelled out piece by piece. Kept apart from
      `MarkdownFileNameExample`, so that the solver compares literals only here. */
  lemma ScriptExampleSpelling(d: string, n: string)
    requires d == "src" && n == "foo.py"
    ensures d + [Sep] + n == "src/foo.py"
    ensures n + "_contents" + ".md" == "foo.py_contents.md"
  {
  }

  /** "src/foo.py" with postfix "_contents" is written as
      "foo.py_contents.md": the directory goes, the ".py" stays. */
  lemma MarkdownFileNameExample()
    ensures MarkdownFileName("src/foo.py", "", "_contents") == "foo.py_contents.md"
  {
    var d, n := "src", "foo.py";
    assert d[|d| - 1] != Sep;
    assert Sep !in n;
    JoinSplits(d, n);
    ScriptExampleSpelling(d, n);
    assert Join(d, n) == "src/foo.py";
  }
}

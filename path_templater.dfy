/** The path templater, `modify_path`: the output path for an input file,
    with prefix, postfix, an optional new extension and, in one variant, an
    explicit output file or directory. */
module PathTemplater {
  import opened PosixPath

  /** The input's file name without directory and extension. */
  function Stem(fileName: string): (r: string)
    ensures Sep !in r
  {
    Basename(SplitExt(fileName).0)
  }

  /** The extension written after the final dot: the one asked for, else the
      input's own, with its leading dots removed. */
  function ChosenExt(fileName: string, extension: Option<string>): string {
    LStripDots(extension.GetOr(SplitExt(fileName).1))
  }

  /** `modify_path` of contents/contents.py and output/contents.py: the
      input's directory joined with prefix, stem and postfix, then a dot and
      the chosen extension. */
  function ModifyPath(fileName: string, postfix: string, prefix: string,
                      extension: Option<string>): string
  {
    Join(Dirname(fileName), prefix + Stem(fileName) + postfix) + [ExtSep] + ChosenExt(fileName, extension)
  }

  /** The output keeps the input's directory, and its file name is prefix,
      stem, postfix, a dot and the chosen extension (when none of those
      brings in a separator of its own). */
  lemma ModifyPathSplits(fileName: string, postfix: string, prefix: string,
                         extension: Option<string>)
    requires Sep !in prefix && Sep !in postfix && Sep !in ChosenExt(fileName, extension)
    ensures Dirname(ModifyPath(fileName, postfix, prefix, extension)) == Dirname(fileName)
    ensures Basename(ModifyPath(fileName, postfix, prefix, extension)) ==
            prefix + Stem(fileName) + postfix + [ExtSep] + ChosenExt(fileName, extension)
  {
    var d, name, ext := Dirname(fileName), prefix + Stem(fileName) + postfix, ChosenExt(fileName, extension);
    JoinAppend(d, name, ExtSep, ext);
    JoinSplits(d, name + [ExtSep] + ext);
  }

  /** `modify_path` of doxy_codes/main.py. `outputIsDir` is what
      `os.path.isdir(outputPath)` answers. */
  function ModifyPathOut(fileName: string, postfix: string, prefix: string,
                         outputPath: string, extension: Option<string>,
                         outputIsDir: bool): string
  {
    if outputPath != [] && !outputIsDir then outputPath
    else
      var directory := if outputPath == [] then Dirname(fileName) else outputPath;
      Join(directory, prefix + Stem(fileName) + postfix) + [ExtSep] + ChosenExt(fileName, extension)
  }

  /** An output path that is not an existing directory is the result
      verbatim; an empty one gives the simple variant's path. */
  lemma ModifyPathOutFileOrEmpty(fileName: string, postfix: string, prefix: string,
                                 outputPath: string, extension: Option<string>, outputIsDir: bool)
    ensures outputPath != [] && !outputIsDir ==>
              ModifyPathOut(fileName, postfix, prefix, outputPath, extension, outputIsDir) == outputPath
    ensures outputPath == [] ==>
              ModifyPathOut(fileName, postfix, prefix, outputPath, extension, outputIsDir) ==
              ModifyPath(fileName, postfix, prefix, extension)
  {
  }

  /** An existing output directory takes the place of the input's
      directory: the result starts with it and ends with the templated
      file name. */
  lemma ModifyPathOutDirectory(fileName: string, postfix: string, prefix: string,
                               outputPath: string, extension: Option<string>)
    requires outputPath != []
    requires Sep !in prefix && Sep !in postfix && Sep !in ChosenExt(fileName, extension)
    ensures var r := ModifyPathOut(fileName, postfix, prefix, outputPath, extension, true);
            |outputPath| <= |r| && r[..|outputPath|] == outputPath &&
            Basename(r) == prefix + Stem(fileName) + postfix + [ExtSep] + ChosenExt(fileName, extension)
  {
    var name, ext := prefix + Stem(fileName) + postfix, ChosenExt(fileName, extension);
    var b := name + [ExtSep] + ext;
    JoinAppend(outputPath, name, ExtSep, ext);
    assert b[0] != Sep && Sep !in b;
    JoinBasename(outputPath, b);
    JoinPrefix(outputPath, b);
  }

  /** The extension `contents()` forces on its output. */
  const MarkdownExt: string := "md"

  /** The path `contents()` writes its Markdown to: `modify_path` with the
      extension forced to "md". */
  function MarkdownPath(fileName: string, prefix: string, postfix: string): string {
    ModifyPath(fileName, postfix, prefix, Some(MarkdownExt))
  }

  /** The Markdown file sits in the input's directory and is named prefix,
      stem, postfix and ".md". */
  lemma MarkdownPathSplits(fileName: string, prefix: string, postfix: string)
    requires Sep !in prefix && Sep !in postfix
    ensures Dirname(MarkdownPath(fileName, prefix, postfix)) == Dirname(fileName)
    ensures Basename(MarkdownPath(fileName, prefix, postfix)) ==
            prefix + Stem(fileName) + postfix + [ExtSep] + MarkdownExt
  {
    assert MarkdownExt[0] != ExtSep;
    assert LStripDots(MarkdownExt) == MarkdownExt;
    ModifyPathSplits(fileName, postfix, prefix, Some(MarkdownExt));
  }

  lemma {:induction false} LStripDotsAfterDots(k: nat, e: string)
    ensures LStripDots(seq(k, _ => ExtSep) + e) == LStripDots(e)
    decreases k
  {
    if k > 0 {
      assert (seq(k, _ => ExtSep) + e)[1..] == seq(k - 1, _ => ExtSep) + e;
      LStripDotsAfterDots(k - 1, e);
    } else {
      assert seq(k, _ => ExtSep) + e == e;
    }
  }

  /** Leading dots of a requested extension do not matter: "md", ".md" and
      "..md" give the same path. */
  lemma ExtensionDotsIgnored(fileName: string, postfix: string, prefix: string, k: nat, e: string)
    ensures ModifyPath(fileName, postfix, prefix, Some(seq(k, _ => ExtSep) + e)) ==
            ModifyPath(fileName, postfix, prefix, Some(e))
  {
    LStripDotsAfterDots(k, e);
  }

  /** `splitext` of "dir/name.ext" whose name has a non-dot character and
      whose extension has neither dot nor separator. */
  lemma SplitExtPlain(d: string, n: string, x: string)
    requires Sep !in n && HasNonDot(n)
    requires Sep !in x && ExtSep !in x
    ensures SplitExt(d + [Sep] + n + [ExtSep] + x) == (d + [Sep] + n, [ExtSep] + x)
  {
    var head, tail := d + [Sep] + n, [ExtSep] + x;
    var f := head + tail;
    assert f == d + [Sep] + n + [ExtSep] + x;
    // the last separator ends `d`
    assert f == (d + [Sep]) + (n + tail);
    RFindAppend(d + [Sep], n + tail, Sep);
    RFindLast(d, Sep);
    assert RFind(f, Sep) == |d|;
    // the last dot starts `tail`
    assert f == (head + [ExtSep]) + x;
    RFindAppend(head + [ExtSep], x, ExtSep);
    RFindLast(head, ExtSep);
    assert RFind(f, ExtSep) == |head|;
    assert f[|d| + 1..|head|] == n;
    assert f[..|head|] == head && f[|head|..] == tail;
  }

  /** The stem of "dir/name.ext" is "name". */
  lemma PlainStem(d: string, n: string, x: string)
    requires d != [] && d[|d| - 1] != Sep
    requires Sep !in n && HasNonDot(n)
    requires Sep !in x && ExtSep !in x
    ensures Stem(d + [Sep] + n + [ExtSep] + x) == n
  {
    SplitExtPlain(d, n, x);
    JoinPlain(d, n);
    JoinSplits(d, n);
  }

  /** The directory of "dir/name" is "dir". */
  lemma NameDirname(d: string, b: string)
    requires d != [] && d[|d| - 1] != Sep
    requires b != [] && Sep !in b
    ensures Dirname(d + [Sep] + b) == d
  {
    JoinPlain(d, b);
    JoinSplits(d, b);
  }

  /** The directory of "dir/name.ext" is "dir". */
  lemma PlainDirname(d: string, n: string, x: string)
    requires d != [] && d[|d| - 1] != Sep
    requires Sep !in n && Sep !in x
    ensures Dirname(d + [Sep] + n + [ExtSep] + x) == d
  {
    var b := n + [ExtSep] + x;
    assert d + [Sep] + n + [ExtSep] + x == d + [Sep] + b;
    NameDirname(d, b);
  }

  /** `modify_path` put together from the input's directory, stem and
      chosen extension. */
  lemma ModifyPathParts(f: string, d: string, stem: string, ext: string, postfix: string,
                        prefix: string, extension: Option<string>)
    requires Dirname(f) == d && Stem(f) == stem && ChosenExt(f, extension) == ext
    ensures ModifyPath(f, postfix, prefix, extension) == Join(d, prefix + stem + postfix) + [ExtSep] + ext
  {
  }

  /** A name made of a separator-free prefix and a non-empty rest does not
      start with a separator. */
  lemma AffixedName(prefix: string, n: string, postfix: string)
    requires Sep !in prefix && n != [] && n[0] != Sep
    ensures var name := prefix + n + postfix; name != [] && name[0] != Sep
  {
    var name := prefix + n + postfix;
    if prefix == [] {
      assert name[0] == n[0];
    } else {
      assert name[0] == prefix[0];
    }
  }

  /** For a path "dir/name.ext" whose directory does not end with a
      separator, the result is "dir/" + prefix + name + postfix + "." and the
      chosen extension. */
  lemma ModifyPlainPath(d: string, n: string, x: string, postfix: string, prefix: string,
                        extension: Option<string>)
    requires d != [] && d[|d| - 1] != Sep
    requires Sep !in n && HasNonDot(n)
    requires Sep !in x && ExtSep !in x
    requires Sep !in prefix
    ensures ModifyPath(d + [Sep] + n + [ExtSep] + x, postfix, prefix, extension) ==
            d + [Sep] + (prefix + n + postfix) + [ExtSep] + LStripDots(extension.GetOr([ExtSep] + x))
  {
    var f := d + [Sep] + n + [ExtSep] + x;
    var ext := LStripDots(extension.GetOr([ExtSep] + x));
    SplitExtPlain(d, n, x);
    PlainStem(d, n, x);
    PlainDirname(d, n, x);
    ModifyPathParts(f, d, n, ext, postfix, prefix, extension);
    AffixedName(prefix, n, postfix);
    JoinPlain(d, prefix + n + postfix);
  }

  /** The extension `splitext` returns loses exactly its dot. */
  lemma LStripDotsOwnExt(x: string)
    requires ExtSep !in x
    ensures LStripDots([ExtSep] + x) == x
  {
    assert ([ExtSep] + x)[1..] == x;
    assert LStripDots(x) == x;
  }


  lemma PlainWithoutAffixes(d: string, n: string, x: string, e: string)
    requires d != [] && d[|d| - 1] != Sep
    requires Sep !in n && HasNonDot(n)
    requires Sep !in x && ExtSep !in x
    requires e == []
    ensures ModifyPath(d + [Sep] + n + [ExtSep] + x, e, e, None) ==
            d + [Sep] + n + [ExtSep] + LStripDots([ExtSep] + x)
  {
    ModifyPlainPath(d, n, x, e, e, None);
    EmptyAffixes(n, e);
  }

  /** Empty affixes leave the name as it is. `e` stands for the empty string
      so that the solver meets no string literal in the proofs that use it. */
  lemma EmptyAffixes(n: string, e: string)
    requires e == []
    ensures e + n + e == n
  {
  }

  /** Without prefix, postfix and new extension the simple variant gives the
      input path back. */
  lemma ModifyPathIdentity(d: string, n: string, x: string)
    requires d != [] && d[|d| - 1] != Sep
    requires Sep !in n && HasNonDot(n)
    requires Sep !in x && ExtSep !in x
    ensures ModifyPath(d + [Sep] + n + [ExtSep] + x, "", "", None) == d + [Sep] + n + [ExtSep] + x
  {
    var f := d + [Sep] + n + [ExtSep] + x;
    PlainWithoutAffixes(d, n, x, "");
    LStripDotsOwnExt(x);
  }

  /** The example's strings spelled out piece by piece. Kept apart from
      `ModifyPathExample`, so that the solver compares literals only here. */
  lemma ExampleSpelling(d: string, n: string, x: string)
    requires d == "dir" && n == "name" && x == "ext"
    ensures d + [Sep] + n + [ExtSep] + x == "dir/name.ext"
    ensures d + [Sep] + ("p_" + n + "_q") + [ExtSep] + MarkdownExt == "dir/p_name_q.md"
  {
  }

  /** The worked example: "dir/name.ext" with postfix "_q", prefix "p_" and
      extension "md" gives "dir/p_name_q.md". */
  lemma ModifyPathExample()
    ensures ModifyPath("dir/name.ext", "_q", "p_", Some(MarkdownExt)) == "dir/p_name_q.md"
  {
    var d, n, x := "dir", "name", "ext";
    assert n[0] != ExtSep;
    ModifyPlainPath(d, n, x, "_q", "p_", Some(MarkdownExt));
    assert LStripDots(MarkdownExt) == MarkdownExt;
    ExampleSpelling(d, n, x);
  }

  /** `splitext` finds no extension in "dir/name" when the name has no dot. */
  lemma SplitExtNoDot(d: string, n: string)
    requires Sep !in n && ExtSep !in n
    ensures SplitExt(d + [Sep] + n) == (d + [Sep] + n, [])
  {
    var f := d + [Sep] + n;
    RFindAppend(d + [Sep], n, Sep);
    RFindLast(d, Sep);
    RFindAppend(d + [Sep], n, ExtSep);
    assert RFind(f, ExtSep) < |d|;
  }

  /** An input without an extension keeps none, but the result still ends
      with the dot: "dir/name" gives "dir/" + prefix + "name" + postfix + ".". */
  lemma NoExtensionTrailingDot(d: string, n: string, postfix: string, prefix: string)
    requires d != [] && d[|d| - 1] != Sep
    requires n != [] && Sep !in n && ExtSep !in n
    requires Sep !in prefix
    ensures ModifyPath(d + [Sep] + n, postfix, prefix, None) == d + [Sep] + (prefix + n + postfix) + [ExtSep]
  {
    var f := d + [Sep] + n;
    SplitExtNoDot(d, n);
    JoinPlain(d, n);
    JoinSplits(d, n);
    assert Stem(f) == n;
    NameDirname(d, n);
    ModifyPathParts(f, d, n, [], postfix, prefix, None);
    AffixedName(prefix, n, postfix);
    JoinPlain(d, prefix + n + postfix);
    assert Join(d, prefix + n + postfix) + [ExtSep] + [] == d + [Sep] + (prefix + n + postfix) + [ExtSep];
  }
}

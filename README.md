# contents — the extraction-and-conversion engine in Dafny

`contents` pulls Markdown out of source-code comments. A line is a Markdown
comment when it starts with optional whitespace, one or more comment
characters and the magic character (`#` and `%` by default, as in
`##% a heading`). The engine keeps those lines (`extract_md`), turns each one
into a Markdown line (`convert`): n comment characters become a heading of
level n, seven or more mark ordinary paragraph text, the magic character
goes and a line left blank becomes `"\n"`. `get_toc` composes the two.
`modify_path` computes where the Markdown file goes: the input's directory,
prefix + stem + postfix, a dot and an extension. One variant of
`modify_path` also takes an explicit output file or directory.

The model works on the lines of a file as a `seq<string>`.
`extract_md` and `convert` are loops that append to a list, so they are
methods (`LineMatcher.ExtractMd`, `Transcoder.Convert`). Each one's `ensures`
says its result equals a specification function on the whole input
(`LineMatcher.Filter`, `Transcoder.ConvertAll`), and lemmas about those
functions state the laws. `get_toc` and `modify_path` are straight-line
compositions and are pure functions.

Modules:

- `Text`: the string operations `convert` uses.
  - `str.lstrip()` and `re.sub(r"^\s*", "", s)` are `LStrip`.
  - `re.sub(c + "{7,}", "", s)` is `DropLongRuns`, a left-to-right scan that deletes each maximal run of seven or more.
  - `str.replace` is `ReplaceChar`.
  - `re.sub(m, "", s, count=1)` is `RemoveFirst`.
- `PosixPath`: POSIX `basename`, `dirname`, `splitext` and two-argument `join`, together with `str.rfind` and `str.lstrip(".")`.
- `LineMatcher`: `extract_md`. Also the regular expression's language, as an independent definition that the scan is proved equal to.
- `Transcoder`: `convert` and its laws.
- `Toc`: `get_toc`.
- `PathTemplater`: both variants of `modify_path`, and the forced-`"md"` path of `contents()`.
- `ContentsScript`: the `__main__` block of contents.py.
  - It stops with status 2 when the Markdown is only blank lines.
  - Otherwise it names the output `prefix + basename + postfix + ".md"`.

## Copies in the repository

The repository keeps near-identical copies of the engine. The same
definitions model all of them:

| operation | doxy_codes/main.py | contents/contents.py | output/contents.py | contents.py |
|---|---|---|---|---|
| `extract_md` → `ExtractMd`, `Filter` | 27-36 | 30-39 | 60-69 | 117-130 |
| `convert` → `Convert`, `ConvertAll`, `ConvertLine` | 50-70 | 50-70 | 80-100 | 134-158 |
| `get_toc` → `GetToc`, `TableOfContents` | 85-92 | 82-89 | 112-119 | — |
| `modify_path` → `ModifyPathOut` / `ModifyPath` | 109-124 (with `output_path`) | 101-108 | 131-138 | — |

Notes on the copies and on what the model follows:

- **`os` is never imported in contents/contents.py.** Its `modify_path` calls `os.path` (lines 103-107), but the file imports only `re` (line 17). As written, every call raises `NameError`. The model gives that copy the intended behaviour, which is the same as output/contents.py.
- **The threshold is seven.** Markdown has six heading levels, and the documented example (contents.py:92) uses seven comment characters to mark paragraph text. The code deletes runs of seven or more (`"{7,}"`), so six characters still give a level-6 heading. The model follows the code (`Text.LongRun`).
- **`"#%\n"` becomes `"#\n"`.** Only the magic character is removed, so a heading marker with nothing after it keeps its `"#"` (`Transcoder.EmptyHeadingExample`). Only a paragraph marker with nothing after it, such as `"#######%\n"`, gives `"\n"`.
- **Whitespace is space and `\t` through `\r`.** Python also counts `\x1c`-`\x1f` and non-ASCII spaces; the model does not.
- **Markers are literal characters.** The comment character and the magic character are single literal characters, and the magic character may be the empty string.
- **`os.path.isdir(output_path)` is a parameter.** It is the boolean `outputIsDir`.

## Model

| member | source | states |
|---|---|---|
| `Text.LStrip` | doxy_codes/main.py:53 | stripping never lengthens a line, and what is left is empty or starts with a non-whitespace character |
| `Text.LStripSuffix` | doxy_codes/main.py:53 | what `lstrip` leaves is a suffix of the line, and everything it removed is whitespace |
| `Text.LStripUnique` | doxy_codes/main.py:64 | whitespace followed by text whose first character is not whitespace strips to exactly that text |
| `Text.RunLength` | doxy_codes/main.py:29-30 | the greedy `c+`: every character of the leading run is `c`, and the character after it is not |
| `Text.RunLengthAtLeast` | doxy_codes/main.py:29-30 | `k` leading copies of `c` give a run of at least `k`, and exactly `k` when the next character differs |
| `Text.DropLongRuns` | contents/contents.py:55 | deleting long runs never lengthens the line |
| `Text.DropLongRunsLeavesNoLongRun` | contents/contents.py:55 | no run of seven or more comment characters is left anywhere in the line, not only at its start |
| `Text.DropLongRunsKeepsOthers` | contents/contents.py:55 | every character other than the comment character survives, in order: erasing the comment character from input and output gives the same string |
| `Text.DropLongRunsIdentity` | contents/contents.py:55 | a line without a run of seven or more is left unchanged |
| `Text.DropLongRunsNoComment` | contents/contents.py:55 | a line without the comment character is left unchanged |
| `Text.DropLongRunsLead` | contents/contents.py:55 | the leading run survives whole when shorter than seven and is gone when seven or longer |
| `Text.DropLongRunsAfterRun` | contents/contents.py:55 | a leading run of `n` followed by another character is kept (`n < 7`) or deleted (`n >= 7`), and the rest is scanned on its own |
| `Text.ReplaceChar` | contents/contents.py:56 | `replace` keeps the length of the line |
| `Text.ReplaceCharAt` | contents/contents.py:56 | position by position, every comment character becomes `#` and every other character stays |
| `Text.ReplaceCharAbsent` | contents/contents.py:56 | a line without the comment character is left unchanged |
| `Text.FirstIndex` | doxy_codes/main.py:62 | the position of the first occurrence: it holds the character and no earlier position does |
| `Text.RemoveFirst` | doxy_codes/main.py:62 | a line without the magic character is unchanged; otherwise it loses exactly one character |
| `Text.RemoveFirstCutsFirst` | doxy_codes/main.py:62 | `count=1`: the result is the line with its first magic character cut out and nothing else changed |
| `Text.RemoveFirstAfter` | doxy_codes/main.py:62 | with no magic character before position `p`, removing the first one gives prefix plus rest; later occurrences stay |
| `PosixPath.RFind` | doxy_codes/main.py:114 | `rfind`: the index of the last occurrence, or -1, and no occurrence after it |
| `PosixPath.RStripSlashes` | doxy_codes/main.py:120 | `rstrip("/")` never lengthens a path and leaves no trailing separator |
| `PosixPath.Basename` | doxy_codes/main.py:114 | `basename` contains no separator |
| `PosixPath.Dirname` | doxy_codes/main.py:120 | `dirname` is empty, the root, or a path without a trailing separator |
| `PosixPath.SplitExt` | doxy_codes/main.py:114-117 | `splitext`: root and extension concatenate to the path; the extension is empty or one dot followed by neither dot nor separator |
| `PosixPath.LStripDots` | doxy_codes/main.py:118 | `lstrip(".")` never lengthens the extension and leaves no leading dot |
| `PosixPath.LStripDotsSuffix` | doxy_codes/main.py:118 | what `lstrip(".")` leaves is a suffix of the extension |
| `PosixPath.Join` | doxy_codes/main.py:123 | `os.path.join` with two arguments; no contract of its own, its laws are `JoinPlain`, `JoinAppend`, `JoinPrefix`, `JoinSplits` and `JoinBasename` below |
| `PosixPath.JoinPlain` | doxy_codes/main.py:123 | `join` puts exactly one separator between a directory not ending in one and a relative name |
| `PosixPath.JoinAppend` | doxy_codes/main.py:123 | `join(d, b) + "." + ext` equals `join(d, b + "." + ext)` for a separator-free name `b` |
| `PosixPath.JoinPrefix` | doxy_codes/main.py:123 | joining a relative name keeps the directory as a prefix |
| `PosixPath.JoinSplits` | doxy_codes/main.py:123 | `dirname` and `basename` of `join(d, b)` give back `d` and `b` for a directory in `dirname` shape |
| `PosixPath.JoinBasename` | doxy_codes/main.py:122-123 | `basename(join(d, b))` is `b` for any directory `d`, including a user-given output directory |
| `LineMatcher.Marked` | doxy_codes/main.py:29-33 | the `re.match` test as a scan; no contract of its own, `MarkedIffPattern` proves it equal to the pattern's language and `EmptyMagicFirstNonWs`, `MarkedStartsWithComment` give its consequences |
| `LineMatcher.MarkedIffPattern` | doxy_codes/main.py:29-33 | the scan agrees, in both directions, with the regular-expression language: whitespace, at least one comment character, then the magic character at the line start |
| `LineMatcher.EmptyMagicFirstNonWs` | doxy_codes/main.py:29-30 | with an empty magic character a line is kept exactly when its first non-whitespace character is the comment character |
| `LineMatcher.MarkedStartsWithComment` | output/contents.py:62-67 | every kept line has the comment character as its first non-whitespace character |
| `LineMatcher.Filter` | contents/contents.py:30-39 | the kept lines are never more than the file's lines |
| `LineMatcher.FilterAppend` | contents/contents.py:33-38 | filtering two pieces of a file and concatenating equals filtering the whole: each line is judged alone and order is kept |
| `LineMatcher.FilterKeepsExactly` | contents.py:117-130 | a line is in the result exactly when it is in the file and matches the pattern |
| `LineMatcher.ExtractMd` | doxy_codes/main.py:27-36 | the append loop returns exactly the filtered lines, in file order |
| `Transcoder.ConvertLine` | doxy_codes/main.py:52-69 | no converted line is `""` or `" "`; with a magic character each one is `"\n"` or starts with a non-whitespace character |
| `Transcoder.ConvertAll` | output/contents.py:80-100 | one output line per input line, in order, each the conversion of its own input line alone |
| `Transcoder.Convert` | contents.py:134-158 | the append loop returns exactly `ConvertAll` of its input: as many lines as it was given, the j-th being the conversion of the j-th input line |
| `Transcoder.MarkersThenBody` | contents/contents.py:55-56 | steps 2 and 3 turn a leading run of `n` comment characters into `n` hashes (none for `n >= 7`) and treat the rest on its own |
| `Transcoder.MarkedShape` | doxy_codes/main.py:29-30 | a marked line, once stripped, is its comment run, the magic character and the rest |
| `Transcoder.HeadingLaw` | doxy_codes/main.py:53-68 | a line that strips to `n` comment characters, the magic character and a rest gives `n` hashes and the converted rest for `n <= 6`, and the stripped converted rest (or `"\n"`) for `n >= 7` |
| `Transcoder.HeadingOfPlainText` | contents.py:140-152 | whitespace, `n` comment characters, the magic character and text free of comment characters give `n` hashes and the text for `1 <= n <= 6`, and the text stripped (or `"\n"`) for `n >= 7` |
| `Transcoder.NoMagicLaw` | contents/contents.py:53-68 | without a magic character nothing after the markers is removed and there is no second strip: `n` hashes and the text, or the text itself for `n >= 7` |
| `Transcoder.EmptyMagicLaw` | contents/contents.py:53-68 | the same with the leading whitespace written out |
| `Transcoder.LevelOneExample` | tests/test_basic.py:22 | `"#%" + text` becomes `"#" + text`, as in `"#% import modules\n"` → `"# import modules\n"` |
| `Transcoder.LevelTwoExample` | tests/test_basic.py:22-23 | `"##%" + text` becomes `"##" + text`, as in `"##% read markdown from file\n"` |
| `Transcoder.ParagraphExample` | contents.py:89-93 | seven comment characters mark paragraph text: `"#######%" + text` becomes the text with leading blanks stripped |
| `Transcoder.BlankParagraphExample` | output/contents.py:83-98 | `"#######%\n"` becomes the blank line `"\n"` that ends a paragraph |
| `Transcoder.NoMagicExample` | contents/contents.py:57-64 | with an empty magic character `"#" + text` stays as it is, e.g. `"# text\n"` |
| `Transcoder.EmptyHeadingExample` | doxy_codes/main.py:55-68 | `"#%\n"` becomes `"#\n"`: a heading marker with nothing after it is kept |
| `Toc.TableOfContents` | contents/contents.py:82-89 | the table never has more lines than the file, and none of them is `""` or `" "` |
| `Toc.GetToc` | doxy_codes/main.py:85-92 | `get_toc` is `convert` applied to `extract_md` with the same characters |
| `Toc.ConvertAllAppend` | output/contents.py:82-99 | converting two blocks of lines and concatenating equals converting the concatenation |
| `Toc.TableOfContentsAppend` | output/contents.py:112-119 | the table of contents of two pieces of a file is the two tables one after the other |
| `PathTemplater.Stem` | contents/contents.py:104 | the stem, `basename(splitext(f)[0])`, contains no separator |
| `PathTemplater.ChosenExt` | doxy_codes/main.py:116-118 | the extension: the given one or the input's own, without leading dots; no contract of its own, its laws are `ExtensionDotsIgnored`, `LStripDotsAfterDots` and `LStripDotsOwnExt` |
| `PathTemplater.ModifyPath` | contents/contents.py:101-108 | the simple `modify_path`; no contract of its own, its laws are `ModifyPathSplits`, `ModifyPlainPath`, `ExtensionDotsIgnored`, `ModifyPathIdentity`, `NoExtensionTrailingDot` and `ModifyPathExample` |
| `PathTemplater.ModifyPathSplits` | contents/contents.py:101-108 | the result keeps `dirname(file_name)` as its directory, and its basename is prefix + stem + postfix + "." + extension |
| `PathTemplater.ModifyPathOut` | doxy_codes/main.py:109-124 | `modify_path` with `output_path`; no contract of its own, its laws are `ModifyPathOutFileOrEmpty` and `ModifyPathOutDirectory` |
| `PathTemplater.ModifyPathOutFileOrEmpty` | doxy_codes/main.py:111-120 | a non-empty `output_path` that is not a directory is returned verbatim whatever prefix, postfix and extension are; an empty one gives the simple variant's path |
| `PathTemplater.ModifyPathOutDirectory` | doxy_codes/main.py:113-123 | an existing output directory replaces the input's directory: the result starts with it and its basename is prefix + stem + postfix + "." + extension |
| `PathTemplater.MarkdownPath` | output/contents.py:192-195 | the path `contents()` writes its Markdown to; no contract of its own, its law is `MarkdownPathSplits` |
| `PathTemplater.MarkdownPathSplits` | output/contents.py:192-195 | `contents()` writes its Markdown into the input file's directory, named prefix + stem + postfix + ".md" |
| `PathTemplater.LStripDotsAfterDots` | output/contents.py:136 | any number of leading dots before an extension are all stripped |
| `PathTemplater.ExtensionDotsIgnored` | output/contents.py:136 | extensions `"md"`, `".md"` and `"..md"` give the same path |
| `PathTemplater.SplitExtPlain` | contents/contents.py:103-104 | `splitext("dir/name.ext")` is `("dir/name", ".ext")` |
| `PathTemplater.PlainStem` | contents/contents.py:104 | the stem of `"dir/name.ext"` is `"name"` |
| `PathTemplater.PlainDirname` | contents/contents.py:107 | the directory of `"dir/name.ext"` is `"dir"` |
| `PathTemplater.NameDirname` | contents/contents.py:107 | the directory of `"dir/name"` is `"dir"` |
| `PathTemplater.ModifyPlainPath` | output/contents.py:131-138 | `"dir/name.ext"` becomes `"dir/" + prefix + "name" + postfix + "."` followed by the chosen extension without leading dots |
| `PathTemplater.LStripDotsOwnExt` | contents/contents.py:103-106 | the input's own extension loses exactly its dot |
| `PathTemplater.ModifyPathIdentity` | contents/contents.py:101-108 | with no prefix, postfix or new extension, `modify_path("dir/name.ext")` is `"dir/name.ext"` |
| `PathTemplater.ModifyPathExample` | output/contents.py:131-138 | `modify_path("dir/name.ext", postfix="_q", prefix="p_", extension="md")` is `"dir/p_name_q.md"` |
| `PathTemplater.SplitExtNoDot` | contents/contents.py:103 | a name without a dot has an empty extension |
| `PathTemplater.NoExtensionTrailingDot` | contents/contents.py:104-107 | an input without an extension yields a path ending in a bare `"."` |
| `ContentsScript.Run` | contents.py:168-184 | a run of the script as an outcome, exit status or file written; no contract of its own, its laws are `ExitIffAllMarkedBlank`, `NoMarkedLineExits` and `WritesTableOfContents` |
| `ContentsScript.MarkdownFileName` | contents.py:178-180 | the name of the Markdown file; no contract of its own, its laws are `MarkdownFileInWorkingDirectory` and `MarkdownFileNameExample` |
| `ContentsScript.ExitIffAllMarkedBlank` | contents.py:175-176 | the script exits with status 2 exactly when every marked line converts to `"\n"`, which includes the case of no marked line |
| `ContentsScript.NoMarkedLineExits` | contents.py:175-176 | a file without marked lines makes the script exit with status 2 |
| `ContentsScript.WritesTableOfContents` | contents.py:175-184 | when it does not exit, the script writes the table of contents to the `.md` file, and some marked line converts to more than a blank line |
| `ContentsScript.MarkdownFileInWorkingDirectory` | contents.py:178-180 | the Markdown file name has no directory part: the file goes to the working directory, not next to the input |
| `ContentsScript.MarkdownFileNameExample` | contents.py:178-180 | `"src/foo.py"` with postfix `"_contents"` is written as `"foo.py_contents.md"`: the directory goes, the extension stays |

## Left out

- Reading and writing files. This covers opening, reading, writing and closing in `extract_md`, `contents()` and the `__main__` block. The model takes the file as its sequence of lines and returns the lines that would be written.
- External programs and environment probing: `is_tool`, `pandoc`, every `subprocess` call, `texi2pdf` and the `os.name` checks.
- Command-line plumbing: `make_parser`, `CustomFormatter` and the `__doc__ += format_help()` line.
- The status returned by `contents()` and anything the script does after writing the `.md` file.
- The `ui.py` front ends, the package `__init__`, utils/run.py and setup.py. They compose the modelled operations, write files or call modules that are not part of this model.
- General regular-expression semantics. The comment and magic strings are spliced into patterns unescaped. The model takes them as single literal characters, with the magic character possibly empty. Metacharacters and multi-character strings are not modelled.
- Further whitespace. Python's `\s` and `str.lstrip()` also accept `\x1c`-`\x1f` and non-ASCII spaces; the model takes only space and `\t` through `\r`.
- The `NameError` that contents/contents.py raises, because `os` is not imported there. That copy is given the intended behaviour.
- The filesystem state behind `os.path.isdir`. It is a boolean parameter.
- MarkedIffPattern: stated for valid markers only, where the comment character is not whitespace and differs from the magic character. With equal characters the regex could backtrack into the run, which the scan does not model.
- HeadingLaw: stated for a magic character other than `#`. When the magic character is `#`, the first hash produced by step 3 is the one `count=1` removes, not the magic character.

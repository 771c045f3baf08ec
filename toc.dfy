/** `get_toc`: the matcher followed by the transcoder. */
module Toc {
  import opened Text
  import opened LineMatcher
  import opened Transcoder

  /** The Markdown lines `get_toc` returns for a file's lines. */
  function TableOfContents(lines: seq<string>, mk: Markers): (r: seq<string>)
    ensures |r| <= |lines|
    ensures forall j :: 0 <= j < |r| ==> r[j] != "" && r[j] != " "
  {
    ConvertAll(Filter(lines, mk), mk)
  }

  /** `get_toc`: extract the marked lines, then convert them. */
  method GetToc(lines: seq<string>, mk: Markers) returns (toc: seq<string>)
    ensures toc == TableOfContents(lines, mk)
    ensures |toc| <= |lines|
  {
    var matched := ExtractMd(lines, mk);
    toc := Convert(matched, mk);
  }

  lemma {:induction false} ConvertAllAppend(a: seq<string>, b: seq<string>, mk: Markers)
    ensures ConvertAll(a + b, mk) == ConvertAll(a, mk) + ConvertAll(b, mk)
    decreases |b|
  {
    if b == [] {
      assert a + b == a;
    } else {
      var init, last := b[..|b| - 1], b[|b| - 1];
      assert (a + b)[..|a + b| - 1] == a + init;
      assert (a + b)[|a + b| - 1] == last;
      ConvertAllAppend(a, init, mk);
    }
  }

  /** The table of contents of two pieces of a file is the two tables one
      after the other: no line merges with or moves past another. */
  lemma TableOfContentsAppend(a: seq<string>, b: seq<string>, mk: Markers)
    ensures TableOfContents(a + b, mk) == TableOfContents(a, mk) + TableOfContents(b, mk)
  {
    FilterAppend(a, b, mk);
    ConvertAllAppend(Filter(a, mk), Filter(b, mk), mk);
  }
}

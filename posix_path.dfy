/** The POSIX flavour of Python's `os.path` as `modify_path` uses it:
    `basename`, `dirname`, `splitext` and `join` (two arguments), together
    with `str.rfind` and `str.lstrip(".")`. */
module PosixPath {

  datatype Option<T> = None | Some(value: T) {
    function GetOr(default: T): T {
      match this
      case Some(v) => v
      case None => default
    }
  }

  const Sep: char := '/'
  const ExtSep: char := '.'

  /** `s.rfind(ch)`: the index of the last `ch`, or -1. */
  function RFind(s: string, ch: char): (r: int)
    ensures -1 <= r < |s|
    ensures r >= 0 ==> s[r] == ch
    ensures forall j :: r < j < |s| ==> s[j] != ch
  {
    if s == [] then -1
    else if s[|s| - 1] == ch then |s| - 1
    else RFind(s[..|s| - 1], ch)
  }

  lemma {:induction false} RFindAppend(x: string, y: string, ch: char)
    requires ch !in y
    ensures RFind(x + y, ch) == RFind(x, ch)
    decreases |y|
  {
    if y == [] {
      assert x + y == x;
    } else {
      assert (x + y)[..|x + y| - 1] == x + y[..|y| - 1];
      RFindAppend(x, y[..|y| - 1], ch);
    }
  }

  lemma RFindLast(x: string, ch: char)
    ensures RFind(x + [ch], ch) == |x|
  {
  }

  predicate AllSlashes(s: string) {
    forall j :: 0 <= j < |s| ==> s[j] == Sep
  }

  /** `s.rstrip("/")`. */
  function RStripSlashes(s: string): (r: string)
    ensures |r| <= |s|
    ensures r == [] || r[|r| - 1] != Sep
  {
    if s != [] && s[|s| - 1] == Sep then RStripSlashes(s[..|s| - 1]) else s
  }

  /** `posixpath.basename`: everything after the last separator. */
  function Basename(p: string): (r: string)
    ensures Sep !in r
  {
    var i := RFind(p, Sep) + 1;
    assert forall j :: 0 <= j < |p| - i ==> p[i..][j] == p[i + j];
    p[i..]
  }

  /** The shape of every `dirname`: empty, the root (only separators), or a
      path that does not end with a separator. */
  predicate DirShape(d: string) {
    d == [] || AllSlashes(d) || d[|d| - 1] != Sep
  }

  /** `posixpath.dirname`: everything up to the last separator, with trailing
      separators removed unless only separators remain. */
  function Dirname(p: string): (r: string)
    ensures DirShape(r)
  {
    var head := p[..RFind(p, Sep) + 1];
    if head != [] && !AllSlashes(head) then RStripSlashes(head) else head
  }

  predicate HasNonDot(s: string) {
    exists j :: 0 <= j < |s| && s[j] != ExtSep
  }

  /** `posixpath.splitext`: the extension is the part from the last dot, when
      that dot lies in the last path component and is not one of its leading
      dots. */
  function SplitExt(p: string): (r: (string, string))
    ensures r.0 + r.1 == p
    ensures r.1 == [] || (r.1[0] == ExtSep && Sep !in r.1 && ExtSep !in r.1[1..])
  {
    var sepIndex := RFind(p, Sep);
    var dotIndex := RFind(p, ExtSep);
    if dotIndex > sepIndex && HasNonDot(p[sepIndex + 1..dotIndex]) then
      assert forall j :: 0 <= j < |p| - dotIndex ==> p[dotIndex..][j] == p[dotIndex + j];
      (p[..dotIndex], p[dotIndex..])
    else (p, [])
  }

  /** `posixpath.join(a, b)`. */
  function Join(a: string, b: string): (r: string)
  {
    if b != [] && b[0] == Sep then b
    else if a == [] || a[|a| - 1] == Sep then a + b
    else a + [Sep] + b
  }

  /** `s.lstrip(".")`. */
  function LStripDots(s: string): (r: string)
    ensures |r| <= |s|
    ensures r == [] || r[0] != ExtSep
    decreases |s|
  {
    if s != [] && s[0] == ExtSep then LStripDots(s[1..]) else s
  }

  /** What `lstrip(".")` leaves is a suffix of its input. */
  lemma {:induction false} LStripDotsSuffix(s: string)
    ensures LStripDots(s) == s[|s| - |LStripDots(s)|..]
    decreases |s|
  {
    if s != [] && s[0] == ExtSep {
      LStripDotsSuffix(s[1..]);
      assert s[1..][|s| - 1 - |LStripDots(s)|..] == s[|s| - |LStripDots(s)|..];
    }
  }

  /** A directory not ending in a separator, joined with a relative name,
      gets one separator in between. */
  lemma JoinPlain(d: string, b: string)
    requires d != [] && d[|d| - 1] != Sep
    requires b != [] && b[0] != Sep
    ensures Join(d, b) == d + [Sep] + b
  {
  }

  /** A character other than the separator, and text after it, appended
      after a separator-free name stay in the last component. */
  lemma JoinAppend(d: string, b: string, ch: char, tail: string)
    requires Sep !in b && ch != Sep
    ensures Join(d, b) + [ch] + tail == Join(d, b + [ch] + tail)
  {
    var bt := b + [ch] + tail;
    assert bt[0] != Sep by {
      if b == [] {
        assert bt[0] == ch;
      } else {
        assert bt[0] == b[0];
      }
    }
    if d == [] || d[|d| - 1] == Sep {
      assert d + b + [ch] + tail == d + bt;
    } else {
      assert d + [Sep] + b + [ch] + tail == d + [Sep] + bt;
    }
  }

  /** Joining a relative name keeps the directory as a prefix. */
  lemma JoinPrefix(d: string, b: string)
    requires b != [] && b[0] != Sep
    ensures |d| <= |Join(d, b)| && Join(d, b)[..|d|] == d
  {
    if d == [] || d[|d| - 1] == Sep {
      assert (d + b)[..|d|] == d;
    } else {
      assert (d + [Sep] + b)[..|d|] == d;
    }
  }

  /** Joining a directory in `dirname` shape with a separator-free name gives
      a path whose `dirname` and `basename` are exactly those two. */
  lemma JoinSplits(d: string, b: string)
    requires DirShape(d)
    requires b != [] && Sep !in b
    ensures Dirname(Join(d, b)) == d
    ensures Basename(Join(d, b)) == b
  {
    var p := Join(d, b);
    if d == [] {
      assert p == [] + b;
      RFindAppend([], b, Sep);
    } else if d[|d| - 1] == Sep {
      assert d == d[..|d| - 1] + [Sep];
      RFindLast(d[..|d| - 1], Sep);
      RFindAppend(d, b, Sep);
      assert p[..|d|] == d;
    } else {
      RFindLast(d, Sep);
      RFindAppend(d + [Sep], b, Sep);
      var head := p[..|d| + 1];
      assert head == d + [Sep];
      assert head[|d| - 1] != Sep;
      assert head[..|head| - 1] == d;
      assert RStripSlashes(d) == d;
      assert RStripSlashes(head) == d;
    }
  }

  /** Whatever the directory, the name joined onto it is the `basename`. */
  lemma JoinBasename(d: string, b: string)
    requires b != [] && Sep !in b
    ensures Basename(Join(d, b)) == b
  {
    if d == [] || d[|d| - 1] == Sep {
      RFindAppend(d, b, Sep);
      if d != [] {
        assert d == d[..|d| - 1] + [Sep];
        RFindLast(d[..|d| - 1], Sep);
      }
      assert Join(d, b)[..|d|] == d;
    } else {
      RFindLast(d, Sep);
      RFindAppend(d + [Sep], b, Sep);
    }
  }
}

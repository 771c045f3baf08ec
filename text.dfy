/** String operations the engine relies on: Python's `str.lstrip()`,
    `str.replace`, and the two regular-expression substitutions used by
    `convert` (deleting long runs of the comment character, deleting the first
    magic character). Strings are `seq<char>`. */
module Text {

  lemma SplitAt<T>(s: seq<T>, i: nat)
    requires i <= |s|
    ensures s == s[..i] + s[i..]
  {
  }

  /** Python's whitespace, restricted to ASCII: space, tab, newline,
      vertical tab, form feed and carriage return ('\t' .. '\r'). */
  predicate IsWs(ch: char) {
    ch == ' ' || '\t' <= ch <= '\r'
  }

  predicate AllWs(s: string) {
    forall j :: 0 <= j < |s| ==> IsWs(s[j])
  }

  /** `s.lstrip()`: `s` without its leading whitespace. */
  function LStrip(s: string): (r: string)
    ensures |r| <= |s|
    ensures r == [] || !IsWs(r[0])
    decreases |s|
  {
    if s != [] && IsWs(s[0]) then LStrip(s[1..]) else s
  }

  /** What `lstrip` removes is a whitespace prefix: the result is the rest. */
  lemma {:induction false} LStripSuffix(s: string)
    ensures LStrip(s) == s[|s| - |LStrip(s)|..]
    ensures AllWs(s[..|s| - |LStrip(s)|])
    decreases |s|
  {
    if s != [] && IsWs(s[0]) {
      var r := LStrip(s[1..]);
      LStripSuffix(s[1..]);
      assert s[1..][|s| - 1 - |r|..] == s[|s| - |r|..];
      assert forall j :: 1 <= j < |s| - |r| ==> s[j] == s[1..][..|s| - 1 - |r|][j - 1];
    } else {
      assert s[0..] == s;
    }
  }

  /** Whitespace followed by a non-blank start strips to exactly that start. */
  lemma {:induction false} LStripUnique(w: string, t: string)
    requires AllWs(w)
    requires t == [] || !IsWs(t[0])
    ensures LStrip(w + t) == t
    decreases |w|
  {
    if w == [] {
      assert w + t == t;
    } else {
      assert (w + t)[1..] == w[1..] + t;
      LStripUnique(w[1..], t);
    }
  }

  /** Number of copies of `c` at the start of `s`. */
  function RunLength(s: string, c: char): (n: nat)
    ensures n <= |s|
    ensures forall j :: 0 <= j < n ==> s[j] == c
    ensures n < |s| ==> s[n] != c
  {
    if s != [] && s[0] == c then 1 + RunLength(s[1..], c) else 0
  }

  /** A run of `k` copies of `c` at the start of `s`; exactly `k` when the
      next character is something else. */
  lemma RunLengthAtLeast(s: string, c: char, k: nat)
    requires k <= |s|
    requires forall j :: 0 <= j < k ==> s[j] == c
    ensures RunLength(s, c) >= k
    ensures k < |s| && s[k] != c ==> RunLength(s, c) == k
  {
    var n := RunLength(s, c);
  }

  /** `n` copies of `c`. */
  function Rep(c: char, n: nat): (r: string)
    ensures |r| == n
    ensures forall j :: 0 <= j < n ==> r[j] == c
  {
    if n == 0 then [] else [c] + Rep(c, n - 1)
  }

  lemma RunLengthRep(c: char, n: nat, t: string)
    requires t == [] || t[0] != c
    ensures RunLength(Rep(c, n) + t, c) == n
  {
    var s := Rep(c, n) + t;
    assert forall j :: 0 <= j < n ==> s[j] == c;
    assert n < |s| ==> s[n] == t[0];
  }

  /** The shortest run of comment characters that `convert` deletes. */
  const LongRun: nat := 7

  /** `re.sub(c + "{7,}", "", s)`: the scan tries a match at each position
      from left to right; where seven or more `c` start, it deletes the whole
      (greedy) run and resumes after it, otherwise it keeps one character. */
  function DropLongRuns(s: string, c: char): (r: string)
    ensures |r| <= |s|
    decreases |s|
  {
    if s == [] then []
    else if RunLength(s, c) >= LongRun then DropLongRuns(s[RunLength(s, c)..], c)
    else [s[0]] + DropLongRuns(s[1..], c)
  }

  /** No position of `s` starts a run of seven or more `c`. */
  predicate NoLongRun(s: string, c: char) {
    forall i :: 0 <= i <= |s| ==> RunLength(s[i..], c) < LongRun
  }

  /** `s` without any `c`. */
  function Erase(s: string, c: char): (r: string)
    ensures c !in r
    ensures |r| <= |s|
  {
    if s == [] then [] else (if s[0] == c then [] else [s[0]]) + Erase(s[1..], c)
  }

  /** After the substitution the line starts with the same run of `c`
      when it was short, and with none when it was long. */
  lemma {:induction false} DropLongRunsLead(s: string, c: char)
    ensures RunLength(DropLongRuns(s, c), c) ==
            if RunLength(s, c) >= LongRun then 0 else RunLength(s, c)
    decreases |s|
  {
    if s == [] {
    } else if RunLength(s, c) >= LongRun {
      DropLongRunsLead(s[RunLength(s, c)..], c);
    } else {
      var rest := DropLongRuns(s[1..], c);
      DropLongRunsLead(s[1..], c);
      assert ([s[0]] + rest)[1..] == rest;
    }
  }

  /** Every run of seven or more `c`, anywhere in the line, is gone. */
  lemma {:induction false} DropLongRunsLeavesNoLongRun(s: string, c: char)
    ensures NoLongRun(DropLongRuns(s, c), c)
    decreases |s|
  {
    var r := DropLongRuns(s, c);
    if s == [] {
      assert r[0..] == [];
    } else if RunLength(s, c) >= LongRun {
      DropLongRunsLeavesNoLongRun(s[RunLength(s, c)..], c);
    } else {
      var rest := DropLongRuns(s[1..], c);
      DropLongRunsLeavesNoLongRun(s[1..], c);
      DropLongRunsLead(s, c);
      forall i | 0 <= i <= |r|
        ensures RunLength(r[i..], c) < LongRun
      {
        if i > 0 {
          assert r[i..] == rest[i - 1..];
        } else {
          assert r[0..] == r;
        }
      }
    }
  }

  lemma {:induction false} EraseRun(s: string, c: char, k: nat)
    requires k <= |s|
    requires forall j :: 0 <= j < k ==> s[j] == c
    ensures Erase(s, c) == Erase(s[k..], c)
    decreases k
  {
    if k > 0 {
      EraseRun(s[1..], c, k - 1);
      assert s[1..][k - 1..] == s[k..];
    }
  }

  /** The substitution deletes only comment characters: everything else
      survives, in order. */
  lemma {:induction false} DropLongRunsKeepsOthers(s: string, c: char)
    ensures Erase(DropLongRuns(s, c), c) == Erase(s, c)
    decreases |s|
  {
    if s == [] {
    } else if RunLength(s, c) >= LongRun {
      DropLongRunsKeepsOthers(s[RunLength(s, c)..], c);
      EraseRun(s, c, RunLength(s, c));
    } else {
      var rest := DropLongRuns(s[1..], c);
      DropLongRunsKeepsOthers(s[1..], c);
      assert ([s[0]] + rest)[1..] == rest;
    }
  }

  /** A line without long runs passes through unchanged. */
  lemma {:induction false} DropLongRunsIdentity(s: string, c: char)
    requires NoLongRun(s, c)
    ensures DropLongRuns(s, c) == s
    decreases |s|
  {
    if s != [] {
      assert s[0..] == s;
      forall i | 0 <= i <= |s[1..]|
        ensures RunLength(s[1..][i..], c) < LongRun
      {
        assert s[1..][i..] == s[i + 1..];
      }
      DropLongRunsIdentity(s[1..], c);
    }
  }

  lemma DropLongRunsNoComment(s: string, c: char)
    requires c !in s
    ensures DropLongRuns(s, c) == s
  {
    forall i | 0 <= i <= |s|
      ensures RunLength(s[i..], c) < LongRun
    {
      if i < |s| {
        assert s[i..][0] == s[i];
      }
    }
    DropLongRunsIdentity(s, c);
  }

  /** Regrouping a concatenation. A separate lemma, so that the solver does
      this one step only where a proof asks for it. */
  lemma AppendAssoc<T>(a: seq<T>, b: seq<T>, c: seq<T>)
    ensures a + (b + c) == a + b + c
  {
  }

  /** The pieces of `n` copies of `c` followed by `t`. */
  lemma RepAppendParts(c: char, n: nat, t: string)
    ensures (Rep(c, n) + t)[n..] == t
    ensures n > 0 ==> (Rep(c, n) + t)[0] == c && (Rep(c, n) + t)[1..] == Rep(c, n - 1) + t
  {
    if n > 0 {
      assert Rep(c, n) == [c] + Rep(c, n - 1);
    }
  }

  /** A long leading run goes as a whole. */
  lemma DropLongRunsLongRun(c: char, n: nat, t: string)
    requires n >= LongRun && (t == [] || t[0] != c)
    ensures DropLongRuns(Rep(c, n) + t, c) == DropLongRuns(t, c)
  {
    RunLengthRep(c, n, t);
    RepAppendParts(c, n, t);
  }

  /** A short leading run keeps its first character, and the scan goes on
      one character later. */
  lemma DropLongRunsShortRun(c: char, n: nat, t: string)
    requires 0 < n < LongRun && (t == [] || t[0] != c)
    ensures DropLongRuns(Rep(c, n) + t, c) == [c] + DropLongRuns(Rep(c, n - 1) + t, c)
  {
    RunLengthRep(c, n, t);
    RepAppendParts(c, n, t);
  }

  /** A leading run of `n` comment characters is kept when short and deleted
      when long; the scan then carries on with the rest. */
  lemma {:induction false} DropLongRunsAfterRun(c: char, n: nat, t: string)
    requires t == [] || t[0] != c
    ensures DropLongRuns(Rep(c, n) + t, c) ==
            (if n >= LongRun then [] else Rep(c, n)) + DropLongRuns(t, c)
    decreases n
  {
    if n == 0 {
      assert Rep(c, n) + t == t;
    } else if n >= LongRun {
      DropLongRunsLongRun(c, n, t);
    } else {
      DropLongRunsShortRun(c, n, t);
      DropLongRunsAfterRun(c, n - 1, t);
      assert Rep(c, n) == [c] + Rep(c, n - 1);
      AppendAssoc([c], Rep(c, n - 1), DropLongRuns(t, c));
    }
  }

  /** `s.replace(c, d)`. */
  function ReplaceChar(s: string, c: char, d: char): (r: string)
    ensures |r| == |s|
  {
    if s == [] then [] else [if s[0] == c then d else s[0]] + ReplaceChar(s[1..], c, d)
  }

  /** Every `c` becomes `d` and every other character stays. */
  lemma {:induction false} ReplaceCharAt(s: string, c: char, d: char)
    ensures forall j :: 0 <= j < |s| ==> ReplaceChar(s, c, d)[j] == if s[j] == c then d else s[j]
  {
    if s != [] {
      ReplaceCharAt(s[1..], c, d);
    }
  }

  lemma {:induction false} ReplaceCharAbsent(s: string, c: char, d: char)
    requires c !in s
    ensures ReplaceChar(s, c, d) == s
  {
    if s != [] {
      ReplaceCharAbsent(s[1..], c, d);
      assert s == [s[0]] + s[1..];
    }
  }

  /** Index of the first `x` in `s`. */
  function FirstIndex(s: string, x: char): (i: nat)
    requires x in s
    ensures i < |s| && s[i] == x && x !in s[..i]
  {
    if s[0] == x then 0
    else
      var i := 1 + FirstIndex(s[1..], x);
      assert s[..i] == [s[0]] + s[1..][..i - 1];
      i
  }

  /** `re.sub(x, "", s, count=1)` for a literal character `x`: only the
      first occurrence goes. */
  function RemoveFirst(s: string, x: char): (r: string)
    ensures x !in s ==> r == s
    ensures |r| == if x in s then |s| - 1 else |s|
  {
    if s == [] then []
    else if s[0] == x then s[1..]
    else [s[0]] + RemoveFirst(s[1..], x)
  }

  /** The result is the input with exactly its first `x` cut out. */
  lemma {:induction false} RemoveFirstCutsFirst(s: string, x: char)
    requires x in s
    ensures RemoveFirst(s, x) == s[..FirstIndex(s, x)] + s[FirstIndex(s, x) + 1..]
  {
    if s[0] != x {
      assert x in s[1..] by {
        var k :| 0 <= k < |s| && s[k] == x;
        assert s[1..][k - 1] == x;
      }
      RemoveFirstCutsFirst(s[1..], x);
      var i := FirstIndex(s, x);
      assert s[..i] == [s[0]] + s[1..][..i - 1];
      assert s[i + 1..] == s[1..][i..];
    }
  }

  lemma {:induction false} RemoveFirstAfter(p: string, x: char, t: string)
    requires x !in p
    ensures RemoveFirst(p + [x] + t, x) == p + t
    decreases |p|
  {
    var s := p + [x] + t;
    if p == [] {
      assert s == [x] + t;
    } else {
      assert s[1..] == p[1..] + [x] + t;
      RemoveFirstAfter(p[1..], x, t);
      assert p + t == [p[0]] + (p[1..] + t);
    }
  }
}

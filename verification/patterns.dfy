/** The two regular expressions of the extractor, `#include[^\n]*` and
    `//[^\n]*`, written out by hand. Both have the shape `P[^\n]*` for a literal
    prefix `P` without a newline, so one scanner serves both: the engine searches
    for the leftmost `P`, extends the match up to (not including) the next
    newline or the end of the text, and resumes after the match.
    `re.findall` returns the matches and `re.sub(..., "", s)` the text between
    them. */
module Patterns {
  import opened Text

  predicate NoNewline(s: string) {
    forall k :: 0 <= k < |s| ==> s[k] != '\n'
  }

  /** A literal prefix the scanner accepts: non-empty and newline-free. */
  predicate ValidPrefix(p: string) {
    |p| > 0 && NoNewline(p)
  }

  /** What `[^\n]*` matches at the start of `s`. */
  function RestOfLine(s: string): (r: string)
    ensures StartsWith(s, r) && NoNewline(r)
    ensures |r| == |s| || s[|r|] == '\n'
  {
    if |s| == 0 || s[0] == '\n' then ""
    else
      var r := RestOfLine(s[1..]);
      assert s[1..][..|r|] == s[1..|r| + 1];
      [s[0]] + r
  }

  /** A match never stops inside its own prefix, which has no newline. */
  lemma RestOfLineCoversPrefix(s: string, p: string)
    requires ValidPrefix(p) && StartsWith(s, p)
    ensures |RestOfLine(s)| >= |p|
  {
    var r := RestOfLine(s);
    if |r| < |p| {
      assert s[|r|] == p[|r|];
    }
  }

  /** `[^\n]*` on a newline-free text followed by a newline or nothing takes exactly that text. */
  lemma {:induction false} RestOfLineExact(a: string, b: string)
    requires NoNewline(a)
    requires b == "" || b[0] == '\n'
    ensures RestOfLine(a + b) == a
    decreases |a|
  {
    if |a| > 0 {
      RestOfLineExact(a[1..], b);
      assert (a + b)[1..] == a[1..] + b;
    } else {
      assert a + b == b;
    }
  }

  /** The text split into the stretches between matches (`gaps`) and the
      matches themselves. */
  datatype LineScan = LineScan(gaps: seq<string>, matches: seq<string>)

  /** gaps[0] + matches[0] + gaps[1] + ... + matches[n-1] + gaps[n] */
  function Weave(gaps: seq<string>, matches: seq<string>): string
    requires |gaps| == |matches| + 1
  {
    if |matches| == 0 then gaps[0]
    else gaps[0] + matches[0] + Weave(gaps[1..], matches[1..])
  }

  function Concat(xs: seq<string>): string
  {
    if |xs| == 0 then "" else xs[0] + Concat(xs[1..])
  }

  /** One match `m` seen from the scanner: it follows the stretch `g`, starts
      with `p`, holds no newline, is the leftmost occurrence of `p` after the
      previous match, and runs up to a newline (the stretch `next` after it
      starts with one) or to the end of the text. */
  ghost predicate MatchAt(g: string, m: string, next: string, isLast: bool, p: string) {
    && StartsWith(m, p)
    && NoNewline(m)
    && Find(g + m, p) == |g|
    && ((next != "" && next[0] == '\n') || (next == "" && isLast))
  }

  ghost predicate MatchOk(ls: LineScan, p: string, i: int)
    requires |ls.gaps| == |ls.matches| + 1
  {
    0 <= i < |ls.matches| ==>
      MatchAt(ls.gaps[i], ls.matches[i], ls.gaps[i + 1], i + 1 == |ls.matches|, p)
  }

  /** What the regex engine produces for `p[^\n]*` on `s`, described without
      running it: the pieces interleave back to `s`, every match is as
      `MatchAt` says, and no occurrence of `p` is left after the last match. */
  ghost predicate IsLineScanOf(s: string, p: string, ls: LineScan) {
    && |ls.gaps| == |ls.matches| + 1
    && Weave(ls.gaps, ls.matches) == s
    && (forall i :: MatchOk(ls, p, i))
    && NoOccurrence(ls.gaps[|ls.matches|], p)
  }

  /** A first match followed by a valid scan of the rest is a valid scan. */
  lemma ConsLineScanIntro(g: string, m: string, gs: seq<string>, ms: seq<string>, p: string)
    requires |gs| == |ms| + 1
    requires MatchAt(g, m, gs[0], |ms| == 0, p)
    requires IsLineScanOf(Weave(gs, ms), p, LineScan(gs, ms))
    ensures IsLineScanOf(g + m + Weave(gs, ms), p, LineScan([g] + gs, [m] + ms))
  {
    var ls := LineScan([g] + gs, [m] + ms);
    var tail := LineScan(gs, ms);
    assert ls.gaps[1..] == gs && ls.matches[1..] == ms;
    forall i ensures MatchOk(ls, p, i) {
      if 0 < i <= |ms| {
        assert MatchOk(tail, p, i - 1);
        assert ls.gaps[i] == gs[i - 1] && ls.matches[i] == ms[i - 1] && ls.gaps[i + 1] == gs[i];
      }
    }
    assert ls.gaps[|ls.matches|] == gs[|ms|];
  }

  /** ... and every valid scan with a match has that shape. */
  lemma ConsLineScanElim(s: string, g: string, m: string, gs: seq<string>, ms: seq<string>, p: string)
    requires |gs| == |ms| + 1
    requires IsLineScanOf(s, p, LineScan([g] + gs, [m] + ms))
    ensures s == g + m + Weave(gs, ms)
    ensures MatchAt(g, m, gs[0], |ms| == 0, p)
    ensures IsLineScanOf(Weave(gs, ms), p, LineScan(gs, ms))
  {
    var ls := LineScan([g] + gs, [m] + ms);
    var tail := LineScan(gs, ms);
    assert ls.gaps[1..] == gs && ls.matches[1..] == ms;
    assert MatchOk(ls, p, 0);
    forall i ensures MatchOk(tail, p, i) {
      if 0 <= i < |ms| {
        assert MatchOk(ls, p, i + 1);
        assert ls.gaps[i + 1] == gs[i] && ls.matches[i + 1] == ms[i] && ls.gaps[i + 2] == gs[i + 1];
      }
    }
    assert ls.gaps[|ls.matches|] == gs[|ms|];
  }

  lemma PrefixSlice(s: string, n: nat, a: nat, b: nat)
    requires a <= b <= n <= |s|
    ensures s[..n][a..b] == s[a..b]
  {
    var u, v := s[..n][a..b], s[a..b];
    forall k | 0 <= k < |u| ensures u[k] == v[k] {
      assert u[k] == s[..n][a + k];
    }
  }

  lemma AppendSliceLeft(x: string, y: string, a: nat, b: nat)
    requires a <= b <= |x|
    ensures (x + y)[a..b] == x[a..b]
  {
    var u, v := (x + y)[a..b], x[a..b];
    forall k | 0 <= k < |u| ensures u[k] == v[k] {
      assert u[k] == (x + y)[a + k];
    }
  }

  /** The leftmost occurrence is whatever occurs with nothing before it. */
  lemma FindIs(s: string, p: string, k: nat)
    requires OccursAt(s, p, k)
    requires forall j :: 0 <= j < k ==> !OccursAt(s, p, j)
    ensures Find(s, p) == k
  {
    assert !NoOccurrence(s, p) by { assert k <= |s|; }
    var r := Find(s, p);
    assert r >= 0;
    assert !(r < k);
    assert !(k < r);
  }

  /** The leftmost occurrence in a prefix that still holds it is the leftmost occurrence overall. */
  lemma FindInPrefix(s: string, p: string, n: nat)
    requires n <= |s|
    requires Find(s, p) >= 0 && Find(s, p) + |p| <= n
    ensures Find(s[..n], p) == Find(s, p)
  {
    var k := Find(s, p);
    var t := s[..n];
    PrefixSlice(s, n, k, k + |p|);
    forall j | 0 <= j < k ensures !OccursAt(t, p, j) {
      assert !OccursAt(s, p, j);
      if j + |p| <= n {
        PrefixSlice(s, n, j, j + |p|);
      }
    }
    FindIs(t, p, k);
  }

  /** Conversely, the leftmost occurrence in `a` stays leftmost once text is appended. */
  lemma FindExtends(a: string, b: string, p: string)
    requires Find(a, p) >= 0
    ensures Find(a + b, p) == Find(a, p)
  {
    var k := Find(a, p);
    var s := a + b;
    AppendSliceLeft(a, b, k, k + |p|);
    forall j | 0 <= j < k ensures !OccursAt(s, p, j) {
      assert !OccursAt(a, p, j);
      AppendSliceLeft(a, b, j, j + |p|);
    }
    FindIs(s, p, k);
  }

  /** The regex scan of `p[^\n]*` over `s`. */
  function Scan(s: string, p: string): (r: LineScan)
    requires ValidPrefix(p)
    ensures |r.gaps| == |r.matches| + 1
    ensures StartsWith(s, r.gaps[0])
    ensures |s| > 0 && !StartsWith(s, p) ==> |r.gaps[0]| > 0
    ensures |s| == 0 ==> r == LineScan([""], [])
    decreases |s|
  {
    var k := Find(s, p);
    if k < 0 then LineScan([s], [])
    else
      RestOfLineCoversPrefix(s[k..], p);
      var m := RestOfLine(s[k..]);
      var rest := Scan(s[k + |m|..], p);
      LineScan([s[..k]] + rest.gaps, [m] + rest.matches)
  }

  /** One step of the scan: where the first match sits and what follows it. */
  lemma ScanStep(s: string, p: string) returns (k: nat, m: string, t: string)
    requires ValidPrefix(p) && Find(s, p) >= 0
    ensures k == Find(s, p) && m == RestOfLine(s[k..]) && k + |m| <= |s| && t == s[k + |m|..]
    ensures |m| >= |p| && StartsWith(m, p) && NoNewline(m)
    ensures s == s[..k] + m + t
    ensures t == "" || (t[0] == '\n' && !StartsWith(t, p))
    ensures Scan(s, p) == LineScan([s[..k]] + Scan(t, p).gaps, [m] + Scan(t, p).matches)
  {
    k := Find(s, p);
    m, t := LineAt(s, k, p);
  }

  /** The line of a match at `k`: the match runs to the end of the line and
      leaves either nothing or a newline behind it. */
  lemma LineAt(s: string, k: nat, p: string) returns (m: string, t: string)
    requires ValidPrefix(p) && OccursAt(s, p, k)
    ensures m == RestOfLine(s[k..]) && k + |m| <= |s| && t == s[k + |m|..]
    ensures |m| >= |p| && StartsWith(m, p) && NoNewline(m)
    ensures s == s[..k] + m + t
    ensures t == "" || (t[0] == '\n' && !StartsWith(t, p))
  {
    assert s[k..][..|p|] == p;
    RestOfLineCoversPrefix(s[k..], p);
    m := RestOfLine(s[k..]);
    t := s[k + |m|..];
    assert s[k..][..|m|] == s[k..k + |m|];
    assert s == s[..k] + m + t;
    PrefixSlice(s[k..], |m|, 0, |p|);
    assert m[..|p|] == p;
    if t != "" {
      assert t[0] == s[k..][|m|];
      assert t[0] != p[0];
    }
  }

  /** `Scan` produces exactly the decomposition `IsLineScanOf` describes. */
  lemma {:induction false} ScanIsLineScan(s: string, p: string)
    requires ValidPrefix(p)
    ensures IsLineScanOf(s, p, Scan(s, p))
    decreases |s|
  {
    if Find(s, p) >= 0 {
      var k, m, t := ScanStep(s, p);
      var rest := Scan(t, p);
      ScanIsLineScan(t, p);
      assert s[..k] + m == s[..k + |m|];
      FindInPrefix(s, p, k + |m|);
      if t != "" {
        assert rest.gaps[0] == t[..|rest.gaps[0]|];
      }
      assert MatchAt(s[..k], m, rest.gaps[0], |rest.matches| == 0, p);
      ConsLineScanIntro(s[..k], m, rest.gaps, rest.matches, p);
    }
  }

  /** The text after a match starts at a newline or is empty. */
  lemma AfterMatch(g: string, m: string, gs: seq<string>, ms: seq<string>, p: string)
    requires |gs| == |ms| + 1
    requires MatchAt(g, m, gs[0], |ms| == 0, p)
    ensures Weave(gs, ms) == "" || Weave(gs, ms)[0] == '\n'
  {
    if |ms| > 0 {
      assert Weave(gs, ms) == gs[0] + ms[0] + Weave(gs[1..], ms[1..]);
    }
  }

  /** The scan is the only decomposition of that shape: `IsLineScanOf`
      determines the regex result. */
  lemma {:induction false} LineScanUnique(s: string, p: string, ls: LineScan)
    requires ValidPrefix(p)
    requires IsLineScanOf(s, p, ls)
    ensures ls == Scan(s, p)
    decreases |ls.matches|
  {
    if |ls.matches| == 0 {
      assert ls.gaps == [s];
    } else {
      var g, m := ls.gaps[0], ls.matches[0];
      var gs, ms := ls.gaps[1..], ls.matches[1..];
      assert ls == LineScan([g] + gs, [m] + ms);
      ConsLineScanElim(s, g, m, gs, ms, p);
      var t := Weave(gs, ms);
      AfterMatch(g, m, gs, ms, p);
      LineScanUnique(t, p, LineScan(gs, ms));
      ScanAfterMatch(g, m, t, p);
    }
  }

  lemma SplitAt3(a: string, b: string, c: string)
    ensures (a + b + c)[..|a|] == a
    ensures (a + b + c)[|a|..] == b + c
    ensures (a + b + c)[|a| + |b|..] == c
  {
    assert a + b + c == a + (b + c);
  }

  /** Scanning a text whose leftmost match is `m` after `g`. */
  lemma ScanAfterMatch(g: string, m: string, t: string, p: string)
    requires ValidPrefix(p)
    requires StartsWith(m, p) && NoNewline(m) && Find(g + m, p) == |g|
    requires t == "" || t[0] == '\n'
    ensures Scan(g + m + t, p) == LineScan([g] + Scan(t, p).gaps, [m] + Scan(t, p).matches)
  {
    var s := g + m + t;
    assert Find(s, p) == |g| by {
      FindExtends(g + m, t, p);
      assert s == (g + m) + t;
    }
    var k, m', t' := ScanStep(s, p);
    SplitAt3(g, m, t);
    assert m' == m by {
      RestOfLineExact(m, t);
    }
  }

  /** `re.findall(p + "[^\n]*", s)`: every match starts with `p` and stops
      before a newline. */
  function LineMatches(s: string, p: string): (r: seq<string>)
    requires ValidPrefix(p)
    ensures forall i :: 0 <= i < |r| ==> StartsWith(r[i], p) && NoNewline(r[i])
  {
    var ls := Scan(s, p);
    ScanIsLineScan(s, p);
    forall i | 0 <= i < |ls.matches| ensures StartsWith(ls.matches[i], p) && NoNewline(ls.matches[i]) {
      assert MatchOk(ls, p, i);
    }
    ls.matches
  }

  /** `re.sub(p + "[^\n]*", "", s)`: every match deleted, newlines kept, and
      no occurrence of the prefix left behind. */
  function DeleteLineMatches(s: string, p: string): (r: string)
    requires ValidPrefix(p)
    ensures NoOccurrence(r, p)
    ensures CountChar(r, '\n') == CountChar(s, '\n')
  {
    DeleteLeavesNoMatch(s, p);
    DeleteKeepsNewlines(s, p);
    Concat(Scan(s, p).gaps)
  }

  lemma {:induction false} DeleteLeavesNoMatch(s: string, p: string)
    requires ValidPrefix(p)
    ensures NoOccurrence(Concat(Scan(s, p).gaps), p)
    ensures |s| == 0 ==> Concat(Scan(s, p).gaps) == ""
    ensures |s| > 0 && !StartsWith(s, p) ==>
              Concat(Scan(s, p).gaps) != "" && Concat(Scan(s, p).gaps)[0] == s[0]
    decreases |s|
  {
    if Find(s, p) < 0 {
      assert Concat(Scan(s, p).gaps) == s;
    } else {
      var k, m, t := ScanStep(s, p);
      var rest := Scan(t, p);
      DeleteLeavesNoMatch(t, p);
      var d := Concat(rest.gaps);
      assert Concat(Scan(s, p).gaps) == s[..k] + d;
      assert NoOccurrence(s[..k], p) by {
        forall j | 0 <= j <= k ensures !OccursAt(s[..k], p, j) {
          assert j < k ==> !OccursAt(s, p, j);
          if j + |p| <= k {
            PrefixSlice(s, k, j, j + |p|);
          }
        }
      }
      NoOccurrenceAcrossNewline(s[..k], d, p);
      if |s| > 0 && !StartsWith(s, p) {
        assert k > 0;
      }
    }
  }

  lemma {:induction false} DeleteKeepsNewlines(s: string, p: string)
    requires ValidPrefix(p)
    ensures CountChar(Concat(Scan(s, p).gaps), '\n') == CountChar(s, '\n')
    decreases |s|
  {
    if Find(s, p) < 0 {
      assert Concat(Scan(s, p).gaps) == s;
    } else {
      var k, m, t := ScanStep(s, p);
      var rest := Scan(t, p);
      DeleteKeepsNewlines(t, p);
      var d := Concat(rest.gaps);
      assert Concat(Scan(s, p).gaps) == s[..k] + d;
      CountCharAppend(s[..k] + m, t, '\n');
      CountCharAppend(s[..k], m, '\n');
      CountCharAppend(s[..k], d, '\n');
      CountCharAbsent(m, '\n');
    }
  }

  /** Gluing two occurrence-free texts at a newline creates no occurrence of a
      newline-free pattern. */
  lemma NoOccurrenceAcrossNewline(a: string, b: string, p: string)
    requires ValidPrefix(p)
    requires NoOccurrence(a, p) && NoOccurrence(b, p)
    requires b == "" || b[0] == '\n'
    ensures NoOccurrence(a + b, p)
  {
    var s := a + b;
    forall i | 0 <= i <= |s| ensures !OccursAt(s, p, i) {
      if i + |p| <= |s| {
        if i + |p| <= |a| {
          assert !OccursAt(a, p, i);
          AppendSliceLeft(a, b, i, i + |p|);
        } else if i >= |a| {
          assert !OccursAt(b, p, i - |a|);
          assert s[i..i + |p|] == b[i - |a|..i - |a| + |p|];
        } else {
          assert s[i..i + |p|][|a| - i] == b[0] == '\n';
        }
      }
    }
  }
}

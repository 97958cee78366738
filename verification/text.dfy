/** The handful of Python `str` operations the benchmark pipeline relies on,
    written out over `seq<char>`: `find`, `in`, `split`, `join`, `replace`,
    `strip`, `lstrip(chars)` and `str(int)`. */
module Text {

  /** `pat` occurs in `s` starting at index `i`. */
  predicate OccursAt(s: string, pat: string, i: int) {
    0 <= i && i + |pat| <= |s| && s[i..i + |pat|] == pat
  }

  predicate StartsWith(s: string, prefix: string) {
    |prefix| <= |s| && s[..|prefix|] == prefix
  }

  /** Concatenation regrouped. */
  lemma AppendThree<T>(a: seq<T>, b: seq<T>, c: seq<T>)
    ensures a + b + c == a + (b + c)
  {
  }

  lemma StartsWithConcat(a: string, b: string)
    ensures StartsWith(a + b, a)
  {
    assert (a + b)[..|a|] == a;
  }

  /** A text whose character at `k` differs from the prefix's does not start
      with it. */
  lemma NotStartsWithAt(s: string, prefix: string, k: nat)
    requires k < |prefix| && k < |s| && s[k] != prefix[k]
    ensures !StartsWith(s, prefix)
  {
    if |prefix| <= |s| {
      assert s[..|prefix|][k] == s[k];
    }
  }

  /** A text starts with its first part, however the rest is split. */
  lemma StartsWithAppended(x: string, a: string, b: string, c: string)
    ensures StartsWith(x + a + b + c, x)
  {
    assert x + a + b + c == x + (a + b + c);
    StartsWithConcat(x, a + b + c);
  }

  /** Two texts that share `x` and then differ do not extend one another. */
  lemma NotStartsWithDiverging(x: string, a: string, b: string, c: string, y: string)
    requires |a| > 0 && |y| > 0 && a[0] != y[0]
    ensures !StartsWith(x + a + b + c, x + y)
  {
    NotStartsWithAt(x + a + b + c, x + y, |x|);
  }

  /** `pat` occurs nowhere in `s`. */
  predicate NoOccurrence(s: string, pat: string) {
    forall i :: 0 <= i <= |s| ==> !OccursAt(s, pat, i)
  }

  /** `str.find` started at index `i`: the lowest index `>= i` where `pat` occurs, or -1. */
  function FindFrom(s: string, pat: string, i: nat): (r: int)
    requires i <= |s|
    ensures r == -1 || i <= r <= |s|
    ensures r >= 0 ==> OccursAt(s, pat, r)
    ensures forall j :: i <= j && (r < 0 || j < r) ==> !OccursAt(s, pat, j)
    decreases |s| - i
  {
    if i + |pat| > |s| then -1
    else if s[i..i + |pat|] == pat then i
    else FindFrom(s, pat, i + 1)
  }

  /** Python's `s.find(pat)`. */
  function Find(s: string, pat: string): (r: int)
    ensures r == -1 || 0 <= r <= |s|
    ensures r == -1 <==> NoOccurrence(s, pat)
    ensures r >= 0 ==> OccursAt(s, pat, r) && forall j :: 0 <= j < r ==> !OccursAt(s, pat, j)
  {
    FindFrom(s, pat, 0)
  }

  /** Python's `pat in s`. */
  predicate Contains(s: string, pat: string) {
    Find(s, pat) >= 0
  }

  lemma ContainsMeansOccurs(s: string, pat: string)
    ensures Contains(s, pat) <==> exists i :: OccursAt(s, pat, i)
  {
  }

  /** `pat` occurs in `a + pat + b`. */
  lemma ContainsInserted(a: string, pat: string, b: string)
    ensures Contains(a + pat + b, pat)
  {
    var s := a + pat + b;
    assert s[|a|..|a| + |pat|] == pat;
    assert OccursAt(s, pat, |a|);
  }

  /** No occurrence straddles the seam of `a + b` when `b`'s first character
      appears in `pat` only at its start. */
  lemma NoOccurrenceConcat(a: string, b: string, pat: string)
    requires NoOccurrence(a, pat) && NoOccurrence(b, pat)
    requires |b| > 0 && forall k :: 0 < k < |pat| ==> pat[k] != b[0]
    ensures NoOccurrence(a + b, pat)
  {
    var s := a + b;
    forall i | 0 <= i <= |s| ensures !OccursAt(s, pat, i) {
      if i + |pat| <= |s| {
        if i + |pat| <= |a| {
          assert s[i..i + |pat|] == a[i..i + |pat|];
          assert !OccursAt(a, pat, i);
        } else if i >= |a| {
          assert s[i..i + |pat|] == b[i - |a|..i - |a| + |pat|];
          assert !OccursAt(b, pat, i - |a|);
        } else {
          assert s[i..i + |pat|][|a| - i] == b[0];
          assert pat[|a| - i] != b[0];
        }
      }
    }
  }

  lemma SliceOfSlice(s: string, lo: nat, hi: nat, a: nat, b: nat)
    requires lo <= hi <= |s| && a <= b <= hi - lo
    ensures s[lo..hi][a..b] == s[lo + a..lo + b]
  {
    var u, v := s[lo..hi][a..b], s[lo + a..lo + b];
    forall k | 0 <= k < |u| ensures u[k] == v[k] {
      assert u[k] == s[lo..hi][a + k] == s[lo + a + k];
    }
  }

  /** An occurrence inside a slice is an occurrence in the whole string. */
  lemma NoOccurrenceSlice(s: string, pat: string, lo: nat, hi: nat)
    requires lo <= hi <= |s|
    requires NoOccurrence(s, pat)
    ensures NoOccurrence(s[lo..hi], pat)
  {
    forall i | 0 <= i <= hi - lo
      ensures !OccursAt(s[lo..hi], pat, i)
    {
      if i + |pat| <= hi - lo {
        SliceOfSlice(s, lo, hi, i, i + |pat|);
        assert !OccursAt(s, pat, lo + i);
      }
    }
  }

  // ---------------------------------------------------------------------------
  // split, join, replace

  /** Python's `sep.join(xs)`. */
  function Join(sep: string, xs: seq<string>): string
  {
    if |xs| == 0 then ""
    else if |xs| == 1 then xs[0]
    else xs[0] + sep + Join(sep, xs[1..])
  }

  /** Python's `s.split(sep)` for a non-empty separator: the pieces between the
      occurrences of `sep` found scanning left to right. */
  function Split(s: string, sep: string): (r: seq<string>)
    requires |sep| > 0
    ensures |r| >= 1
    ensures StartsWith(s, r[0])
    decreases |s|
  {
    if |s| < |sep| then [s]
    else if s[..|sep|] == sep then [""] + Split(s[|sep|..], sep)
    else
      var rest := Split(s[1..], sep);
      [[s[0]] + rest[0]] + rest[1..]
  }

  /** Python's `s.replace(target, repl)` for a non-empty `target`: occurrences are
      found left to right and never overlap; the replacement is not rescanned. */
  function Replace(s: string, target: string, repl: string): string
    requires |target| > 0
    decreases |s|
  {
    if |s| < |target| then s
    else if s[..|target|] == target then repl + Replace(s[|target|..], target, repl)
    else [s[0]] + Replace(s[1..], target, repl)
  }

  /** `s.replace(target, repl)` is `repl.join(s.split(target))`. */
  lemma {:induction false} ReplaceIsJoinOfSplit(s: string, target: string, repl: string)
    requires |target| > 0
    ensures Replace(s, target, repl) == Join(repl, Split(s, target))
    decreases |s|
  {
    if |s| < |target| {
    } else if s[..|target|] == target {
      ReplaceIsJoinOfSplit(s[|target|..], target, repl);
      JoinEmptyHead(repl, Split(s[|target|..], target));
    } else {
      ReplaceIsJoinOfSplit(s[1..], target, repl);
      JoinExtendHead(s[0], repl, Split(s[1..], target));
    }
  }

  lemma JoinEmptyHead(sep: string, rest: seq<string>)
    requires |rest| >= 1
    ensures Join(sep, [""] + rest) == sep + Join(sep, rest)
  {
    assert ([""] + rest)[1..] == rest;
  }

  lemma JoinExtendHead(c: char, sep: string, rest: seq<string>)
    requires |rest| >= 1
    ensures Join(sep, [[c] + rest[0]] + rest[1..]) == [c] + Join(sep, rest)
  {
    var pieces := [[c] + rest[0]] + rest[1..];
    if |rest| > 1 {
      assert pieces[1..] == rest[1..];
      var j := Join(sep, rest[1..]);
      assert [c] + rest[0] + sep + j == [c] + (rest[0] + sep + j);
    }
  }

  lemma {:induction false} ReplaceWithItself(s: string, target: string)
    requires |target| > 0
    ensures Replace(s, target, target) == s
    decreases |s|
  {
    if |s| < |target| {
    } else if s[..|target|] == target {
      ReplaceWithItself(s[|target|..], target);
      assert s == s[..|target|] + s[|target|..];
    } else {
      ReplaceWithItself(s[1..], target);
      assert s == [s[0]] + s[1..];
    }
  }

  /** Replacing a target that does not occur changes nothing. */
  lemma {:induction false} ReplaceAbsent(s: string, target: string, repl: string)
    requires |target| > 0 && NoOccurrence(s, target)
    ensures Replace(s, target, repl) == s
    decreases |s|
  {
    if |s| >= |target| {
      assert !OccursAt(s, target, 0);
      NoOccurrenceSlice(s, target, 1, |s|);
      assert s[1..|s|] == s[1..];
      ReplaceAbsent(s[1..], target, repl);
      assert s == [s[0]] + s[1..];
    }
  }

  /** An occurrence one character into `s` is an occurrence in `s[1..]`. */
  lemma OccursAtTail(s: string, pat: string, j: nat)
    requires |s| > 0
    ensures OccursAt(s, pat, j + 1) <==> OccursAt(s[1..], pat, j)
  {
    if j + 1 + |pat| <= |s| {
      assert s[j + 1..j + 1 + |pat|] == s[1..][j..j + |pat|];
    }
  }

  /** The first piece of `s.split(sep)` is `s` up to the leftmost occurrence
      of `sep`, and the whole of `s` when there is none; so a separator that
      overlaps itself, as in `"aaa".split("aa")`, is cut where it first starts. */
  lemma {:induction false} SplitFirstPiece(s: string, sep: string)
    requires |sep| > 0
    ensures var r := Split(s, sep);
      && (|r| == 1 <==> NoOccurrence(s, sep))
      && (|r| == 1 ==> r[0] == s)
      && (|r| > 1 ==> OccursAt(s, sep, |r[0]|)
                      && forall j :: 0 <= j < |r[0]| ==> !OccursAt(s, sep, j))
    decreases |s|
  {
    if |s| < |sep| {
    } else if s[..|sep|] == sep {
      assert OccursAt(s, sep, 0);
    } else {
      var rest := Split(s[1..], sep);
      SplitFirstPiece(s[1..], sep);
      assert !OccursAt(s, sep, 0);
      forall j: nat | j <= |s[1..]|
        ensures OccursAt(s, sep, j + 1) <==> OccursAt(s[1..], sep, j)
      {
        OccursAtTail(s, sep, j);
      }
      if |rest| == 1 {
        assert s == [s[0]] + s[1..];
        forall i | 0 <= i <= |s|
          ensures !OccursAt(s, sep, i)
        {
          if i > 0 { assert OccursAt(s, sep, (i - 1) + 1) <==> OccursAt(s[1..], sep, i - 1); }
        }
      } else {
        assert OccursAt(s[1..], sep, |rest[0]|);
        assert !NoOccurrence(s, sep) by {
          assert OccursAt(s, sep, |rest[0]| + 1);
        }
        forall j | 0 <= j < 1 + |rest[0]|
          ensures !OccursAt(s, sep, j)
        {
          if j > 0 { assert OccursAt(s, sep, (j - 1) + 1) <==> OccursAt(s[1..], sep, j - 1); }
        }
      }
    }
  }

  /** Splitting and re-joining with the same separator gives back the text. */
  lemma JoinSplit(s: string, sep: string)
    requires |sep| > 0
    ensures Join(sep, Split(s, sep)) == s
  {
    ReplaceIsJoinOfSplit(s, sep, sep);
    ReplaceWithItself(s, sep);
  }

  /** No piece of a split contains the separator. */
  lemma {:induction false} SplitPiecesFree(s: string, sep: string)
    requires |sep| > 0
    ensures forall k :: 0 <= k < |Split(s, sep)| ==> NoOccurrence(Split(s, sep)[k], sep)
    decreases |s|
  {
    var r := Split(s, sep);
    if |s| < |sep| {
    } else if s[..|sep|] == sep {
      SplitPiecesFree(s[|sep|..], sep);
      var rest := Split(s[|sep|..], sep);
      assert r == [""] + rest;
      forall k | 0 <= k < |r| ensures NoOccurrence(r[k], sep) {
        if k > 0 {
          assert r[k] == rest[k - 1];
        }
      }
    } else {
      SplitPiecesFree(s[1..], sep);
      var rest := Split(s[1..], sep);
      var p := [s[0]] + rest[0];
      assert r == [p] + rest[1..];
      assert p == s[..|p|];
      forall i | 0 <= i <= |p|
        ensures !OccursAt(p, sep, i)
      {
        if i == 0 && |sep| <= |p| {
          assert p[..|sep|] == s[..|sep|];
        } else if i > 0 && i + |sep| <= |p| {
          assert p[i..i + |sep|] == rest[0][i - 1..i - 1 + |sep|];
          assert !OccursAt(rest[0], sep, i - 1);
        }
      }
      forall k | 0 <= k < |r| ensures NoOccurrence(r[k], sep) {
        if k > 0 {
          assert r[k] == rest[k];
        }
      }
    }
  }

  // ---------------------------------------------------------------------------
  // strip

  /** Python's `str.isspace` for one character (the Unicode whitespace set
      that `str.strip()` removes). */
  predicate IsSpace(c: char) {
    || c == ' '
    || '\U{0009}' <= c <= '\U{000D}'
    || '\U{001C}' <= c <= '\U{001F}'
    || c == '\U{0085}' || c == '\U{00A0}' || c == '\U{1680}'
    || '\U{2000}' <= c <= '\U{200A}'
    || c == '\U{2028}' || c == '\U{2029}' || c == '\U{202F}'
    || c == '\U{205F}' || c == '\U{3000}'
  }

  predicate AllSpace(s: string) {
    forall k :: 0 <= k < |s| ==> IsSpace(s[k])
  }

  function StripLeft(s: string): (r: string)
    ensures |r| <= |s| && r == s[|s| - |r|..]
    ensures AllSpace(s[..|s| - |r|])
    ensures |r| > 0 ==> !IsSpace(r[0])
  {
    if |s| > 0 && IsSpace(s[0]) then
      var r := StripLeft(s[1..]);
      StripLeftStep(s, r);
      r
    else s
  }

  /** One more leading space in front of a left-stripped tail. */
  lemma StripLeftStep(s: string, r: string)
    requires |s| > 0 && IsSpace(s[0])
    requires |r| <= |s| - 1 && r == s[1..][|s| - 1 - |r|..]
    requires AllSpace(s[1..][..|s| - 1 - |r|])
    ensures r == s[|s| - |r|..] && AllSpace(s[..|s| - |r|])
  {
    var n := |s| - |r|;
    assert s[1..][n - 1..] == s[n..];
    forall k | 0 <= k < n ensures IsSpace(s[..n][k]) {
      if k > 0 {
        assert s[..n][k] == s[1..][..n - 1][k - 1];
      }
    }
  }

  function StripRight(s: string): (r: string)
    ensures |r| <= |s| && r == s[..|r|]
    ensures AllSpace(s[|r|..])
    ensures |r| > 0 ==> !IsSpace(r[|r| - 1])
  {
    if |s| > 0 && IsSpace(s[|s| - 1]) then
      var r := StripRight(s[..|s| - 1]);
      assert s[..|s| - 1][|r|..] == s[|r|..|s| - 1];
      r
    else s
  }

  /** `r` sits at offset `i` of `s`, everything around it is whitespace and it
      neither begins nor ends with whitespace. */
  predicate IsStripAt(s: string, r: string, i: int) {
    && 0 <= i && i + |r| <= |s|
    && s[i..i + |r|] == r
    && AllSpace(s[..i]) && AllSpace(s[i + |r|..])
    && (|r| > 0 ==> !IsSpace(r[0]) && !IsSpace(r[|r| - 1]))
  }

  ghost predicate IsStripOf(s: string, r: string) {
    exists i :: IsStripAt(s, r, i)
  }

  /** Python's `s.strip()`. */
  function Strip(s: string): (r: string)
    ensures IsStripOf(s, r)
  {
    var left := StripLeft(s);
    var r := StripRight(left);
    StripSides(s, left, r);
    r
  }

  /** Stripping the right side of the left-stripped text leaves a strip of
      the whole text. */
  lemma StripSides(s: string, left: string, r: string)
    requires |left| <= |s| && left == s[|s| - |left|..]
    requires AllSpace(s[..|s| - |left|]) && (|left| > 0 ==> !IsSpace(left[0]))
    requires |r| <= |left| && r == left[..|r|]
    requires AllSpace(left[|r|..]) && (|r| > 0 ==> !IsSpace(r[|r| - 1]))
    ensures IsStripAt(s, r, |s| - |left|)
  {
    var i := |s| - |left|;
    assert s[i..i + |r|] == left[..|r|];
    assert s[i + |r|..] == left[|r|..];
  }

  /** The description `IsStripOf` pins the stripped text down completely. */
  lemma SpaceBefore(s: string, i: nat)
    requires i <= |s| && AllSpace(s[..i])
    ensures forall k :: 0 <= k < i ==> IsSpace(s[k])
  {
    forall k | 0 <= k < i ensures IsSpace(s[k]) {
      assert s[..i][k] == s[k];
    }
  }

  lemma SpaceAfter(s: string, i: nat)
    requires i <= |s| && AllSpace(s[i..])
    ensures forall k :: i <= k < |s| ==> IsSpace(s[k])
  {
    forall k | i <= k < |s| ensures IsSpace(s[k]) {
      assert s[i..][k - i] == s[k];
    }
  }

  /** The description `IsStripOf` pins the stripped text down completely. */
  lemma StripOfUnique(s: string, a: string, b: string)
    requires IsStripOf(s, a) && IsStripOf(s, b)
    ensures a == b
  {
    var i :| IsStripAt(s, a, i);
    var j :| IsStripAt(s, b, j);
    SpaceBefore(s, i);
    SpaceBefore(s, j);
    SpaceAfter(s, i + |a|);
    SpaceAfter(s, j + |b|);
    if |a| > 0 {
      assert s[i] == a[0] && s[i + |a| - 1] == a[|a| - 1];
    }
    if |b| > 0 {
      assert s[j] == b[0] && s[j + |b| - 1] == b[|b| - 1];
    }
    if |a| > 0 && |b| > 0 {
      assert i == j && |a| == |b|;
    }
  }

  lemma StripIdempotent(s: string)
    ensures Strip(Strip(s)) == Strip(s)
  {
    var t := Strip(s);
    assert IsStripAt(t, t, 0);
    StripOfUnique(t, Strip(t), t);
  }

  /** Stripping keeps a prefix that begins and ends with non-whitespace. */
  lemma StripKeepsPrefix(s: string, p: string)
    requires StartsWith(s, p) && |p| > 0 && !IsSpace(p[0]) && !IsSpace(p[|p| - 1])
    ensures StartsWith(Strip(s), p)
  {
    var r := Strip(s);
    var i :| IsStripAt(s, r, i);
    StripAtKeepsPrefix(s, r, i, p);
  }

  lemma StripAtKeepsPrefix(s: string, r: string, i: int, p: string)
    requires IsStripAt(s, r, i)
    requires StartsWith(s, p) && |p| > 0 && !IsSpace(p[0]) && !IsSpace(p[|p| - 1])
    ensures StartsWith(r, p)
  {
    SpaceBefore(s, i);
    SpaceAfter(s, i + |r|);
    assert s[0] == p[0] && s[|p| - 1] == p[|p| - 1];
    assert i == 0;
    assert |p| <= |r|;
    assert r[..|p|] == s[..|p|];
  }

  /** The stripped text is a slice, so it holds no occurrence the original lacked. */
  lemma StripNoOccurrence(s: string, pat: string)
    requires NoOccurrence(s, pat)
    ensures NoOccurrence(Strip(s), pat)
  {
    var lo, hi := StripBounds(s);
    NoOccurrenceSlice(s, pat, lo, hi);
  }

  /** Where the stripped text sits in the original. */
  lemma StripBounds(s: string) returns (lo: nat, hi: nat)
    ensures lo <= hi <= |s| && Strip(s) == s[lo..hi]
  {
    var r := Strip(s);
    var i :| IsStripAt(s, r, i);
    lo, hi := i, i + |r|;
  }

  /** Python's `s.lstrip(chars)` for a single character `c`. */
  function LStripChar(s: string, c: char): (r: string)
    ensures |r| <= |s| && r == s[|s| - |r|..]
    ensures forall k :: 0 <= k < |s| - |r| ==> s[k] == c
    ensures |r| > 0 ==> r[0] != c
  {
    if |s| > 0 && s[0] == c then LStripChar(s[1..], c) else s
  }

  /** One leading `c` in front of text that does not start with `c`. */
  lemma LStripCharOnce(c: char, rest: string)
    requires |rest| > 0 ==> rest[0] != c
    ensures LStripChar([c] + rest, c) == rest
  {
    assert ([c] + rest)[1..] == rest;
  }

  // ---------------------------------------------------------------------------
  // counting

  function CountChar(s: string, c: char): nat
  {
    if |s| == 0 then 0 else (if s[0] == c then 1 else 0) + CountChar(s[1..], c)
  }

  lemma {:induction false} CountCharAppend(a: string, b: string, c: char)
    ensures CountChar(a + b, c) == CountChar(a, c) + CountChar(b, c)
    decreases |a|
  {
    if |a| > 0 {
      CountCharAppend(a[1..], b, c);
      assert (a + b)[1..] == a[1..] + b;
    } else {
      assert a + b == b;
    }
  }

  lemma {:induction false} CountCharAbsent(s: string, c: char)
    requires forall k :: 0 <= k < |s| ==> s[k] != c
    ensures CountChar(s, c) == 0
    decreases |s|
  {
    if |s| > 0 {
      CountCharAbsent(s[1..], c);
    }
  }

  // ---------------------------------------------------------------------------
  // str(int)

  predicate IsDigit(c: char) {
    '0' <= c <= '9'
  }

  function DigitChar(d: nat): (c: char)
    requires d < 10
    ensures IsDigit(c)
  {
    ('0' as int + d) as char
  }

  function DigitValue(c: char): nat
    requires IsDigit(c)
  {
    c as int - '0' as int
  }

  /** Python's `str(n)` for a natural number: decimal, no leading zeros. */
  function NatToString(n: nat): (r: string)
    ensures |r| > 0 && forall k :: 0 <= k < |r| ==> IsDigit(r[k])
    ensures |r| > 1 ==> r[0] != '0'
  {
    if n < 10 then [DigitChar(n)]
    else NatToString(n / 10) + [DigitChar(n % 10)]
  }

  /** Python's `str(i)`. */
  function IntToString(i: int): string
  {
    if i < 0 then "-" + NatToString(-i) else NatToString(i)
  }

  /** The value of a run of decimal digits, most significant first. */
  function ParseNat(s: string): nat
    requires forall k :: 0 <= k < |s| ==> IsDigit(s[k])
  {
    if |s| == 0 then 0 else ParseNat(s[..|s| - 1]) * 10 + DigitValue(s[|s| - 1])
  }

  /** Python's `int(s)` for text produced by `str(i)`. */
  function ParseInt(s: string): int
    requires |s| > 0
    requires s[0] == '-' ==> forall k :: 1 <= k < |s| ==> IsDigit(s[k])
    requires s[0] != '-' ==> forall k :: 0 <= k < |s| ==> IsDigit(s[k])
  {
    if s[0] == '-' then -(ParseNat(s[1..]) as int) else ParseNat(s)
  }

  lemma {:induction false} NatToStringRoundTrip(n: nat)
    ensures ParseNat(NatToString(n)) == n
    decreases n
  {
    if n >= 10 {
      NatToStringRoundTrip(n / 10);
      var s := NatToString(n);
      assert s[..|s| - 1] == NatToString(n / 10);
    }
  }

  lemma IntToStringRoundTrip(i: int)
    ensures ParseInt(IntToString(i)) == i
  {
    NatToStringRoundTrip(if i < 0 then -i else i);
    if i < 0 {
      assert IntToString(i)[1..] == NatToString(-i);
    }
  }

  lemma NatToStringInjective(a: nat, b: nat)
    ensures NatToString(a) == NatToString(b) ==> a == b
  {
    NatToStringRoundTrip(a);
    NatToStringRoundTrip(b);
  }
}

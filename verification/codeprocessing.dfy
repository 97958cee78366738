/** `src/codeProcessing.py`: turning a complete C++ program into the three
    parts the benchmark harness needs, by cutting out `int main`'s body,
    collecting the `#include` lines, and keeping the rest as definitions. */
module CodeProcessing {
  import opened Wrappers
  import opened Text
  import opened Patterns
  import opened Benchmark

  const IncludePrefix: string := "#include"
  const CommentPrefix: string := "//"
  const MainSignature: string := "int main"
  const ReturnZero: string := "return 0;"

  // ---------------------------------------------------------------------
  // Comments
  // ---------------------------------------------------------------------

  /** `stripComments`: every `//` comment deleted up to the end of its line;
      the line breaks themselves stay, so line structure is kept. */
  function StripComments(s: string): (r: string)
    ensures NoOccurrence(r, CommentPrefix)
    ensures CountChar(r, '\n') == CountChar(s, '\n')
  {
    DeleteLineMatches(s, CommentPrefix)
  }

  /** Text without `//` passes through unchanged. */
  lemma StripCommentsNoComment(s: string)
    requires NoOccurrence(s, CommentPrefix)
    ensures StripComments(s) == s
  {
    assert Find(s, CommentPrefix) < 0;
    assert Scan(s, CommentPrefix) == LineScan([s], []);
    assert Concat([s]) == s + Concat([]);
    assert s + "" == s;
  }

  lemma StripCommentsIdempotent(s: string)
    ensures StripComments(StripComments(s)) == StripComments(s)
  {
    StripCommentsNoComment(StripComments(s));
  }

  // ---------------------------------------------------------------------
  // Brace depth
  // ---------------------------------------------------------------------

  function Delta(c: char): int {
    if c == '{' then 1 else if c == '}' then -1 else 0
  }

  /** Brace depth after reading `s`: opening minus closing braces. */
  function Balance(s: string): int
  {
    if |s| == 0 then 0 else Balance(s[..|s| - 1]) + Delta(s[|s| - 1])
  }

  lemma {:induction false} BalanceAppend(a: string, b: string)
    ensures Balance(a + b) == Balance(a) + Balance(b)
    decreases |b|
  {
    if |b| == 0 {
      assert a + b == a;
    } else {
      var b' := b[..|b| - 1];
      assert (a + b)[..|a + b| - 1] == a + b';
      BalanceAppend(a, b');
    }
  }

  predicate NoBraces(s: string) {
    forall k :: 0 <= k < |s| ==> s[k] != '{' && s[k] != '}'
  }

  lemma {:induction false} BalanceNoBraces(s: string)
    requires NoBraces(s)
    ensures Balance(s) == 0
    decreases |s|
  {
    if |s| > 0 {
      BalanceNoBraces(s[..|s| - 1]);
    }
  }

  /** Reading one more character of `code` from `start`. */
  lemma BalanceStep(code: string, start: nat, j: nat)
    requires start <= j < |code|
    ensures Balance(code[start..j + 1]) == Balance(code[start..j]) + Delta(code[j])
  {
    assert code[start..j + 1][..j - start] == code[start..j];
  }

  /** Braces in `s` never close more than they opened, and all are closed. */
  predicate Balanced(s: string) {
    Balance(s) == 0 && forall k :: 0 <= k <= |s| ==> Balance(s[..k]) >= 0
  }

  // ---------------------------------------------------------------------
  // findMainBody
  // ---------------------------------------------------------------------

  /** Where `main` sits in the program: the whole function `code[funcStart..funcEnd]`
      and its body `code[bodyStart..bodyEnd]` between the braces. */
  datatype FuncRange = FuncRange(funcStart: nat, funcEnd: nat, bodyStart: nat, bodyEnd: nat)

  /** The `}` at `j` is the one that ends the loop: read from `start`, the
      depth just before it is one, so it brings the depth back to zero. */
  predicate ClosesAt(code: string, start: nat, j: nat)
    requires start <= j < |code|
  {
    code[j] == '}' && Balance(code[start..j]) == 1
  }

  /** How many characters of `code[start..hi]` are read at depth zero: the
      steps by which the loop moves `bodyStart`. */
  function ZeroCount(code: string, start: nat, hi: nat): (n: nat)
    requires start <= hi <= |code|
    ensures n <= hi - start
    decreases hi - start
  {
    if hi == start then 0
    else ZeroCount(code, start, hi - 1) + (if Balance(code[start..hi - 1]) == 0 then 1 else 0)
  }

  /** The reference description of the range `findMainBody` reports for a
      `main` found at `start`: the body ends at the first brace that brings
      the depth back to zero (or at the end of the text), and starts after
      the characters read at depth zero. */
  predicate IsMainRange(code: string, start: nat, r: FuncRange) {
    && r.funcStart == start
    && start <= r.bodyEnd <= |code|
    && (r.bodyEnd == |code| || ClosesAt(code, start, r.bodyEnd))
    && (forall k :: start <= k < r.bodyEnd ==> !ClosesAt(code, start, k))
    && r.bodyStart == start + ZeroCount(code, start, r.bodyEnd)
    && r.funcEnd == r.bodyEnd + 1
  }

  /** No range that satisfies the description ends before another one. */
  lemma IsMainRangeEndsFirst(code: string, start: nat, a: FuncRange, b: FuncRange)
    requires IsMainRange(code, start, a) && IsMainRange(code, start, b)
    ensures a.bodyEnd <= b.bodyEnd
  {
    if b.bodyEnd < |code| {
      assert ClosesAt(code, start, b.bodyEnd);
    }
  }

  /** The description leaves no choice. */
  lemma IsMainRangeUnique(code: string, start: nat, a: FuncRange, b: FuncRange)
    requires IsMainRange(code, start, a) && IsMainRange(code, start, b)
    ensures a == b
  {
    IsMainRangeEndsFirst(code, start, a, b);
    IsMainRangeEndsFirst(code, start, b, a);
  }

  /** The `for char in subs` loop resumed at index `j`, with `depth` and
      `bodyStart` as the loop holds them (`bodyEnd` is always `j`); returns
      the final `(bodyStart, bodyEnd)`. */
  function Walk(code: string, start: nat, j: nat, depth: int, bodyStart: nat): (r: (nat, nat))
    requires start <= bodyStart <= j <= |code|
    ensures start <= r.0 <= r.1 && j <= r.1 <= |code|
    ensures r.1 < |code| ==> code[r.1] == '}'
    decreases |code| - j
  {
    if j == |code| then (bodyStart, j)
    else
      var bs := if depth == 0 then bodyStart + 1 else bodyStart;
      if code[j] == '}' && depth - 1 == 0 then (bs, j)
      else Walk(code, start, j + 1, depth + Delta(code[j]), bs)
  }

  /** Started with the depth and the count of depth-zero characters read so
      far, the loop stops at the first brace that closes `main` and has then
      counted the characters read at depth zero. */
  lemma {:induction false} WalkStopsAtClose(code: string, start: nat, j: nat, depth: int, bodyStart: nat)
    requires start <= j <= |code|
    requires depth == Balance(code[start..j])
    requires bodyStart == start + ZeroCount(code, start, j)
    requires forall k :: start <= k < j ==> !ClosesAt(code, start, k)
    ensures var r := Walk(code, start, j, depth, bodyStart);
      && (r.1 == |code| || ClosesAt(code, start, r.1))
      && (forall k :: start <= k < r.1 ==> !ClosesAt(code, start, k))
      && r.0 == start + ZeroCount(code, start, r.1)
    decreases |code| - j
  {
    if j == |code| || (code[j] == '}' && depth - 1 == 0) {
      WalkStopsHere(code, start, j, depth, bodyStart);
    } else {
      var bs := if depth == 0 then bodyStart + 1 else bodyStart;
      var depth' := depth + Delta(code[j]);
      WalkStep(code, start, j, depth, bodyStart);
      WalkStopsAtClose(code, start, j + 1, depth', bs);
      WalkMoves(code, start, j, depth, bodyStart);
    }
  }

  lemma WalkStopsHere(code: string, start: nat, j: nat, depth: int, bodyStart: nat)
    requires start <= j <= |code|
    requires depth == Balance(code[start..j])
    requires bodyStart == start + ZeroCount(code, start, j)
    requires j == |code| || (code[j] == '}' && depth - 1 == 0)
    ensures Walk(code, start, j, depth, bodyStart) == (bodyStart, j)
    ensures j == |code| || ClosesAt(code, start, j)
  {
  }

  lemma WalkMoves(code: string, start: nat, j: nat, depth: int, bodyStart: nat)
    requires start <= bodyStart <= j < |code|
    requires !(code[j] == '}' && depth - 1 == 0)
    ensures Walk(code, start, j, depth, bodyStart)
         == Walk(code, start, j + 1, depth + Delta(code[j]), if depth == 0 then bodyStart + 1 else bodyStart)
  {
  }

  /** The loop's state after reading a character that does not close `main`. */
  lemma WalkStep(code: string, start: nat, j: nat, depth: int, bodyStart: nat)
    requires start <= j < |code|
    requires depth == Balance(code[start..j])
    requires bodyStart == start + ZeroCount(code, start, j)
    requires forall k :: start <= k < j ==> !ClosesAt(code, start, k)
    requires !(code[j] == '}' && depth == 1)
    ensures depth + Delta(code[j]) == Balance(code[start..j + 1])
    ensures (if depth == 0 then bodyStart + 1 else bodyStart) == start + ZeroCount(code, start, j + 1)
    ensures forall k :: start <= k < j + 1 ==> !ClosesAt(code, start, k)
  {
    BalanceStep(code, start, j);
  }

  /** `findMainBody`: `None` stands for the empty string it returns when the
      text has no `int main`. */
  function FindMainBody(code: string): (r: Option<FuncRange>)
    ensures r.None? <==> !Contains(code, MainSignature)
    ensures r.Some? ==> r.value.funcStart <= r.value.bodyStart <= r.value.bodyEnd < r.value.funcEnd <= |code| + 1
  {
    var start := Find(code, MainSignature);
    if start < 0 then None
    else
      var w := Walk(code, start, start, 0, start);
      Some(FuncRange(start, w.1 + 1, w.0, w.1))
  }

  /** The range found is the one the reference description pins down. */
  lemma FindMainBodyIsMainRange(code: string)
    requires Contains(code, MainSignature)
    ensures IsMainRange(code, Find(code, MainSignature), FindMainBody(code).value)
  {
    var start := Find(code, MainSignature);
    WalkStopsAtClose(code, start, start, 0, start);
  }

  // ---------------------------------------------------------------------
  // A well-formed main
  // ---------------------------------------------------------------------

  /** The program `pre + "int main" + sig + "{" + body + "}" + post`. */
  function MainProgram(pre: string, sig: string, body: string, post: string): string
  {
    pre + MainSignature + sig + "{" + body + "}" + post
  }

  /** Depth, read from `main`, at each point of a well-formed main. */
  lemma MainDepths(pre: string, sig: string, body: string, post: string, k: nat)
    requires NoBraces(sig)
    requires |pre| <= k <= |pre| + |MainSignature| + |sig| + 1 + |body|
    ensures var code := MainProgram(pre, sig, body, post);
      var open := |pre| + |MainSignature| + |sig|;
      && (k <= open ==> Balance(code[|pre|..k]) == 0)
      && (open < k ==> Balance(code[|pre|..k]) == 1 + Balance(body[..k - open - 1]))
  {
    var code := MainProgram(pre, sig, body, post);
    var head := MainSignature + sig;
    var open := |pre| + |head|;
    assert code == pre + (head + "{" + body + "}" + post);
    var seg := code[|pre|..k];
    assert NoBraces(head) by {
      forall i | 0 <= i < |head| ensures head[i] != '{' && head[i] != '}' {
        if i >= |MainSignature| {
          assert head[i] == sig[i - |MainSignature|];
        }
      }
    }
    if k <= open {
      assert seg == head[..k - |pre|];
      BalanceNoBraces(head[..k - |pre|]);
    } else {
      var m := k - open - 1;
      assert seg == head + "{" + body[..m];
      BalanceNoBraces(head);
      BalanceAppend(head, "{");
      BalanceAppend(head + "{", body[..m]);
      assert Balance("{") == Balance("") + Delta('{');
    }
  }

  /** Counting the depth-zero characters of a well-formed main: the signature
      and the opening brace, and nothing inside the body. */
  lemma {:induction false} MainZeroCount(pre: string, sig: string, body: string, post: string, hi: nat)
    requires NoBraces(sig) && Balanced(body)
    requires |pre| <= hi <= |pre| + |MainSignature| + |sig| + 1 + |body|
    ensures var open := |pre| + |MainSignature| + |sig|;
      ZeroCount(MainProgram(pre, sig, body, post), |pre|, hi) == (if hi <= open then hi - |pre| else open + 1 - |pre|)
    decreases hi
  {
    if hi > |pre| {
      MainZeroCount(pre, sig, body, post, hi - 1);
      MainDepths(pre, sig, body, post, hi - 1);
      var open := |pre| + |MainSignature| + |sig|;
      if hi - 1 > open {
        assert Balance(body[..hi - 1 - open - 1]) >= 0;
      }
    }
  }

  /** No brace inside a balanced body ends the loop. */
  lemma MainNoEarlyClose(pre: string, sig: string, body: string, post: string, k: nat)
    requires NoBraces(sig) && Balanced(body)
    requires |pre| <= k < |pre| + |MainSignature| + |sig| + 1 + |body|
    ensures !ClosesAt(MainProgram(pre, sig, body, post), |pre|, k)
  {
    var code := MainProgram(pre, sig, body, post);
    var open := |pre| + |MainSignature| + |sig|;
    MainDepths(pre, sig, body, post, k);
    if open < k && code[k] == '}' {
      var m := k - open - 1;
      assert code[k] == body[m];
      assert body[..m + 1] == body[..m] + [body[m]];
      BalanceAppend(body[..m], [body[m]]);
      assert Balance([body[m]]) == Balance([]) + Delta(body[m]);
      assert Balance(body[..m + 1]) >= 0;
    }
  }

  /** For a `main` whose body has matched braces (and whose signature has
      none), `findMainBody` reports exactly the braces around the body. */
  lemma FindMainBodyWellFormed(pre: string, sig: string, body: string, post: string)
    requires NoBraces(sig) && Balanced(body)
    requires Find(MainProgram(pre, sig, body, post), MainSignature) == |pre|
    ensures var open := |pre| + |MainSignature| + |sig|;
      FindMainBody(MainProgram(pre, sig, body, post))
        == Some(FuncRange(|pre|, open + |body| + 2, open + 1, open + 1 + |body|))
  {
    var code, expected := MainRangeWellFormed(pre, sig, body, post);
    FindMainBodyFinds(code, |pre|, expected);
  }

  /** Whatever range meets the description at the first `int main` is the
      one `findMainBody` reports. */
  lemma FindMainBodyFinds(code: string, start: nat, expected: FuncRange)
    requires Find(code, MainSignature) == start
    requires IsMainRange(code, start, expected)
    ensures FindMainBody(code) == Some(expected)
  {
    FindMainBodyIsMainRange(code);
    IsMainRangeUnique(code, start, FindMainBody(code).value, expected);
  }

  /** The braces around the body meet the reference description. */
  lemma MainRangeWellFormed(pre: string, sig: string, body: string, post: string)
      returns (code: string, expected: FuncRange)
    requires NoBraces(sig) && Balanced(body)
    ensures code == MainProgram(pre, sig, body, post)
    ensures var open := |pre| + |MainSignature| + |sig|;
      expected == FuncRange(|pre|, open + |body| + 2, open + 1, open + 1 + |body|)
    ensures IsMainRange(code, |pre|, expected)
  {
    code := MainProgram(pre, sig, body, post);
    var open := |pre| + |MainSignature| + |sig|;
    expected := FuncRange(|pre|, open + |body| + 2, open + 1, open + 1 + |body|);
    var close := open + 1 + |body|;
    forall k | |pre| <= k < close ensures !ClosesAt(code, |pre|, k) {
      MainNoEarlyClose(pre, sig, body, post, k);
    }
    MainDepths(pre, sig, body, post, close);
    assert body[..|body|] == body;
    assert code[close] == '}';
    MainZeroCount(pre, sig, body, post, close);
  }

  // ---------------------------------------------------------------------
  // The range on arbitrary text
  // ---------------------------------------------------------------------

  /** Before any brace the depth stays zero. */
  lemma FlatBeforeBrace(code: string, start: nat, o: nat, k: nat)
    requires start <= k <= o <= |code| && NoBraces(code[start..o])
    ensures Balance(code[start..k]) == 0
  {
    var seg := code[start..k];
    forall i | 0 <= i < |seg| ensures seg[i] != '{' && seg[i] != '}' {
      assert seg[i] == code[start..o][i];
    }
    BalanceNoBraces(seg);
  }

  /** Once the brace at `o` is open, the depth stays positive until the loop
      stops at `e`. */
  lemma {:induction false} InsideMain(code: string, start: nat, o: nat, e: nat, k: nat)
    requires start <= o < k <= e < |code|
    requires code[o] == '{' && Balance(code[start..o]) == 0
    requires forall j :: start <= j < e ==> !ClosesAt(code, start, j)
    ensures Balance(code[start..k]) >= 1
    decreases k
  {
    BalanceStep(code, start, k - 1);
    if k - 1 > o {
      InsideMain(code, start, o, e, k - 1);
      assert !ClosesAt(code, start, k - 1);
    }
  }

  /** The depth-zero characters are those up to and including the brace at `o`. */
  lemma {:induction false} ZeroCountToBrace(code: string, start: nat, o: nat, hi: nat)
    requires start <= hi <= |code| && start <= o
    requires forall k :: start <= k <= o && k <= |code| ==> Balance(code[start..k]) == 0
    requires forall k :: o < k < hi ==> Balance(code[start..k]) >= 1
    ensures ZeroCount(code, start, hi) == (if hi <= o + 1 then hi - start else o + 1 - start)
    decreases hi
  {
    if hi > start {
      ZeroCountToBrace(code, start, o, hi - 1);
    }
  }

  /** Depth read from `start` inside the body is one more than the depth read
      from the body's start. */
  lemma BodyDepth(code: string, start: nat, o: nat, e: nat, m: nat)
    requires start <= o < e <= |code| && m <= e - o - 1
    requires Balance(code[start..o + 1]) == 1
    ensures Balance(code[start..o + 1 + m]) == 1 + Balance(code[o + 1..e][..m])
  {
    assert code[start..o + 1 + m] == code[start..o + 1] + code[o + 1..e][..m];
    BalanceAppend(code[start..o + 1], code[o + 1..e][..m]);
  }

  /** With the brace at `o` opened and the loop stopping at `e`, the text
      between them has matched braces. */
  lemma BodyBalanced(code: string, start: nat, o: nat, e: nat)
    requires start <= o < e < |code| && code[o] == '{' && Balance(code[start..o]) == 0
    requires forall j :: start <= j < e ==> !ClosesAt(code, start, j)
    requires ClosesAt(code, start, e)
    ensures Balanced(code[o + 1..e])
  {
    BalanceStep(code, start, o);
    var body := code[o + 1..e];
    forall m | 0 <= m <= |body| ensures Balance(body[..m]) >= 0 {
      BodyDepth(code, start, o, e, m);
      if m > 0 {
        InsideMain(code, start, o, e, o + 1 + m);
      }
    }
    BodyDepth(code, start, o, e, |body|);
    assert body[..|body|] == body;
    BalanceStep(code, start, e);
  }

  /** A range meeting the description, when the first brace from `start` is
      the opening one at `o` and the loop stopped at a closing brace. */
  lemma MainRangeDecomposes(code: string, start: nat, r: FuncRange, o: nat)
    requires IsMainRange(code, start, r) && r.bodyEnd < |code|
    requires start <= o < |code| && code[o] == '{' && NoBraces(code[start..o])
    ensures r.bodyStart == o + 1 && o < r.bodyEnd
    ensures code[r.bodyEnd] == '}' && Balanced(code[r.bodyStart..r.bodyEnd])
  {
    var e := r.bodyEnd;
    forall k | start <= k <= o && k <= |code| ensures Balance(code[start..k]) == 0 {
      FlatBeforeBrace(code, start, o, k);
    }
    forall k | o < k < e + 1 ensures Balance(code[start..k]) >= 1 {
      InsideMain(code, start, o, e, k);
    }
    ZeroCountToBrace(code, start, o, e);
    BodyBalanced(code, start, o, e);
  }

  /** When the first brace after `int main` opens and the loop stops at a
      closing brace, the body starts right after that first brace, ends at
      the brace that closes it, and has matched braces in between. */
  lemma FindMainBodyDecomposes(code: string, o: nat)
    requires Contains(code, MainSignature)
    requires Find(code, MainSignature) <= o < |code| && code[o] == '{'
    requires NoBraces(code[Find(code, MainSignature)..o])
    requires FindMainBody(code).value.bodyEnd < |code|
    ensures var r := FindMainBody(code).value;
      && r.bodyStart == o + 1 && o < r.bodyEnd
      && code[r.bodyEnd] == '}'
      && Balanced(code[r.bodyStart..r.bodyEnd])
  {
    FindMainBodyIsMainRange(code);
    MainRangeDecomposes(code, Find(code, MainSignature), FindMainBody(code).value, o);
  }

  /** Without any brace after `int main`, the loop runs off the end: the body
      range is empty at the end of the text and `funcEnd` is one past it. */
  lemma FindMainBodyNoBraces(code: string)
    requires Contains(code, MainSignature)
    requires NoBraces(code[Find(code, MainSignature)..])
    ensures FindMainBody(code) == Some(FuncRange(Find(code, MainSignature), |code| + 1, |code|, |code|))
  {
    FindMainBodyIsMainRange(code);
    MainRangeNoBraces(code, Find(code, MainSignature), FindMainBody(code).value);
  }

  /** The range described for a `main` followed by no brace at all. */
  lemma MainRangeNoBraces(code: string, start: nat, r: FuncRange)
    requires IsMainRange(code, start, r) && NoBraces(code[start..])
    ensures r == FuncRange(start, |code| + 1, |code|, |code|)
  {
    forall j | start <= j < |code| ensures code[j] != '}' {
      assert code[start..][j - start] == code[j];
    }
    assert r.bodyEnd == |code|;
    assert code[start..] == code[start..|code|];
    forall k | start <= k <= |code| ensures Balance(code[start..k]) == 0 {
      FlatBeforeBrace(code, start, |code|, k);
    }
    ZeroCountToBrace(code, start, |code|, |code|);
  }

  // ---------------------------------------------------------------------
  // extract
  // ---------------------------------------------------------------------

  /** `extract` reads `bodyStart` off the empty string `findMainBody` returns
      for a text without `int main`, which raises `AttributeError`. */
  datatype ExtractError = MainNotFound

  /** Python's `s[i:]`, which is empty once `i` is past the end. */
  function SliceFrom(s: string, i: nat): (r: string)
    ensures i <= |s| ==> r == s[i..]
    ensures i > |s| ==> r == ""
  {
    if i <= |s| then s[i..] else ""
  }

  /** `[s.strip() for s in xs]`. */
  function StripAll(xs: seq<string>): (r: seq<string>)
    ensures |r| == |xs| && forall i :: 0 <= i < |xs| ==> r[i] == Strip(xs[i])
  {
    seq(|xs|, i requires 0 <= i < |xs| => Strip(xs[i]))
  }

  lemma StripNoNewline(s: string)
    requires NoNewline(s)
    ensures NoNewline(Strip(s))
  {
    var r := Strip(s);
    var i :| IsStripAt(s, r, i);
    forall k | 0 <= k < |r| ensures r[k] != '\n' {
      assert r[k] == s[i + k];
    }
  }

  /** `[s.strip() for s in re.findall(includeRegex, code)]`: each line still
      starts with `#include` and stays on one line. */
  function Includes(code: string): (r: seq<string>)
    ensures |r| == |LineMatches(code, IncludePrefix)|
    ensures forall i :: 0 <= i < |r| ==> r[i] == Strip(LineMatches(code, IncludePrefix)[i])
    ensures forall i :: 0 <= i < |r| ==> StartsWith(r[i], IncludePrefix) && NoNewline(r[i])
  {
    var matches := LineMatches(code, IncludePrefix);
    StripAllKeepsIncludes(matches);
    StripAll(matches)
  }

  lemma StripAllKeepsIncludes(lines: seq<string>)
    requires forall i :: 0 <= i < |lines| ==> StartsWith(lines[i], IncludePrefix) && NoNewline(lines[i])
    ensures forall i :: 0 <= i < |lines| ==> StartsWith(StripAll(lines)[i], IncludePrefix) && NoNewline(StripAll(lines)[i])
  {
    forall i | 0 <= i < |lines|
      ensures StartsWith(Strip(lines[i]), IncludePrefix) && NoNewline(Strip(lines[i]))
    {
      StripKeepsPrefix(lines[i], IncludePrefix);
      StripNoNewline(lines[i]);
    }
  }

  /** The definitions part: no `#include` left, and already stripped. */
  function Definitions(rest: string): (r: string)
    ensures NoOccurrence(r, IncludePrefix) && Strip(r) == r
  {
    var cleaned := DeleteLineMatches(rest, IncludePrefix);
    StripNoOccurrence(cleaned, IncludePrefix);
    StripIdempotent(cleaned);
    Strip(cleaned)
  }

  /** The body part: every `return 0;` found scanning left to right removed
      (the pieces between them glued together), then stripped. */
  function MainStatements(body: string): (r: string)
    ensures r == Strip(Join("", Split(body, ReturnZero)))
    ensures Strip(r) == r
  {
    ReplaceIsJoinOfSplit(body, ReturnZero, "");
    StripIdempotent(Replace(body, ReturnZero, ""));
    Strip(Replace(body, ReturnZero, ""))
  }

  /** The three parts, cut at the given range of `main`. */
  function Cut(code: string, info: FuncRange): (r: Code)
    requires info.funcStart <= info.bodyStart <= info.bodyEnd <= |code|
    ensures |r.includes| == |LineMatches(code, IncludePrefix)|
    ensures forall i :: 0 <= i < |r.includes| ==>
      StartsWith(r.includes[i], IncludePrefix) && NoNewline(r.includes[i])
    ensures NoOccurrence(r.additionalDefs, IncludePrefix)
    ensures Strip(r.additionalDefs) == r.additionalDefs && Strip(r.body) == r.body
  {
    Code(Includes(code),
         Definitions(code[..info.funcStart] + SliceFrom(code, info.funcEnd)),
         MainStatements(code[info.bodyStart..info.bodyEnd]))
  }

  /** `extract`: the stripped `#include` lines, the program without `main`
      and without `#include` lines, and `main`'s body without `return 0;`. */
  function Extract(code: string): (r: Result<Code, ExtractError>)
    ensures r.Err? <==> !Contains(code, MainSignature)
    ensures r.Ok? ==> |r.value.includes| == |LineMatches(code, IncludePrefix)|
    ensures r.Ok? ==> forall i :: 0 <= i < |r.value.includes| ==>
      StartsWith(r.value.includes[i], IncludePrefix) && NoNewline(r.value.includes[i])
    ensures r.Ok? ==> NoOccurrence(r.value.additionalDefs, IncludePrefix)
    ensures r.Ok? ==> Strip(r.value.additionalDefs) == r.value.additionalDefs && Strip(r.value.body) == r.value.body
  {
    var found := FindMainBody(code);
    if found.None? then Err(MainNotFound) else Ok(Cut(code, found.value))
  }

  /** Where the pieces of a well-formed program sit. */
  lemma MainProgramSlices(pre: string, sig: string, body: string, post: string)
    ensures var code := MainProgram(pre, sig, body, post);
      var open := |pre| + |MainSignature| + |sig|;
      && |code| == open + |body| + 2 + |post|
      && code[..|pre|] == pre
      && code[open + 1..open + 1 + |body|] == body
      && code[open + |body| + 2..] == post
  {
    var code := MainProgram(pre, sig, body, post);
    var head := pre + MainSignature + sig + "{";
    assert code == head + (body + ("}" + post));
    assert code[..|pre|] == head[..|pre|];
    assert code[|head|..] == body + ("}" + post);
    assert code[|head|..|head| + |body|] == code[|head|..][..|body|];
    assert code[|head| + |body| + 1..] == code[|head|..][|body| + 1..];
  }

  /** On a well-formed `main`, `extract` cuts out exactly its body (with
      `return 0;` removed) and keeps exactly the text around the function. */
  lemma ExtractWellFormed(pre: string, sig: string, body: string, post: string)
    requires NoBraces(sig) && Balanced(body)
    requires Find(MainProgram(pre, sig, body, post), MainSignature) == |pre|
    ensures var code := MainProgram(pre, sig, body, post);
      Extract(code) == Ok(Code(Includes(code), Definitions(pre + post), MainStatements(body)))
  {
    var code, info := MainRangeWellFormed(pre, sig, body, post);
    FindMainBodyFinds(code, |pre|, info);
    MainProgramParts(pre, sig, body, post);
    ExtractOf(code, info, pre + post, body);
  }

  /** The text around `main` and the body, as `extract` slices them. */
  lemma MainProgramParts(pre: string, sig: string, body: string, post: string)
    ensures var code := MainProgram(pre, sig, body, post);
      var open := |pre| + |MainSignature| + |sig|;
      && open + |body| + 2 <= |code|
      && code[..|pre|] + SliceFrom(code, open + |body| + 2) == pre + post
      && code[open + 1..open + 1 + |body|] == body
  {
    MainProgramSlices(pre, sig, body, post);
  }

  /** `extract` on a text where `findMainBody` reports `info`. */
  lemma ExtractOf(code: string, info: FuncRange, outside: string, body: string)
    requires FindMainBody(code) == Some(info)
    requires code[..info.funcStart] + SliceFrom(code, info.funcEnd) == outside
    requires info.bodyEnd <= |code| && code[info.bodyStart..info.bodyEnd] == body
    ensures Extract(code) == Ok(Code(Includes(code), Definitions(outside), MainStatements(body)))
  {
  }

  /** A body with no `return 0;` and no surrounding whitespace comes out as written. */
  lemma ExtractKeepsPlainBody(pre: string, sig: string, body: string, post: string)
    requires NoBraces(sig) && Balanced(body)
    requires Find(MainProgram(pre, sig, body, post), MainSignature) == |pre|
    requires NoOccurrence(body, ReturnZero) && Strip(body) == body
    ensures Extract(MainProgram(pre, sig, body, post)).Ok?
    ensures Extract(MainProgram(pre, sig, body, post)).value.body == body
  {
    ExtractWellFormed(pre, sig, body, post);
    ReplaceAbsent(body, ReturnZero, "");
    assert MainStatements(body) == Strip(body);
  }
}

/** Python's `str.format` for the templates the pipeline uses: literal text in
    which `{{` and `}}` stand for single braces, and replacement fields
    `{name}` with plain names. A template is kept as the list of its pieces
    (`Format`); `FormatString` reads the raw template text the way Python does,
    and `FormatStringOfUnparse` shows the two agree. */
module StrFormat {
  import opened Wrappers
  import opened Text

  datatype Piece = Lit(text: string) | Field(name: string)

  predicate IdentChar(c: char) {
    'a' <= c <= 'z' || 'A' <= c <= 'Z' || IsDigit(c) || c == '_'
  }

  /** A field name Python looks up among the keyword arguments: an ASCII
      identifier. It holds none of `.`, `[`, `!` and `:`, which would make
      Python read an attribute, an index, a conversion or a format spec, and
      it does not start with a digit, so Python does not read it as the
      position of an argument. */
  predicate PlainName(n: string) {
    && |n| > 0 && !IsDigit(n[0])
    && forall k :: 0 <= k < |n| ==> IdentChar(n[k])
  }

  /** A field name Python reads as the position of an argument: digits only,
      or empty for automatic numbering. */
  predicate PositionalName(n: string) {
    forall k :: 0 <= k < |n| ==> IsDigit(n[k])
  }

  /** A name made of ASCII letters only. */
  predicate LetterName(n: string) {
    |n| > 0 && forall k :: 0 <= k < |n| ==> 'a' <= n[k] <= 'z' || 'A' <= n[k] <= 'Z'
  }

  lemma LetterNameIsPlain(n: string)
    requires LetterName(n)
    ensures PlainName(n)
  {
    forall k | 0 <= k < |n| ensures n[k] !in "{}.[]!:" {
      assert 'a' <= n[k] <= 'z' || 'A' <= n[k] <= 'Z';
    }
  }

  predicate WellFormedTemplate(t: seq<Piece>, env: map<string, string>) {
    forall i :: 0 <= i < |t| && t[i].Field? ==> PlainName(t[i].name) && t[i].name in env
  }

  function PieceText(p: Piece, env: map<string, string>): string
    requires p.Field? ==> p.name in env
  {
    match p
    case Lit(x) => x
    case Field(n) => env[n]
  }

  /** `template.format(**env)` on a template read into pieces: literal text is
      kept and each field is replaced by its value, which is never re-read. */
  function Format(t: seq<Piece>, env: map<string, string>): string
    requires WellFormedTemplate(t, env)
  {
    if |t| == 0 then "" else PieceText(t[0], env) + Format(t[1..], env)
  }

  /** Formatting a template piece by piece, from the front. */
  lemma FormatCons(p: Piece, t: seq<Piece>, env: map<string, string>)
    requires WellFormedTemplate([p] + t, env)
    ensures WellFormedTemplate(t, env) && (p.Field? ==> p.name in env)
    ensures Format([p] + t, env) == PieceText(p, env) + Format(t, env)
  {
    assert ([p] + t)[1..] == t;
    assert ([p] + t)[0] == p;
    forall i | 0 <= i < |t| && t[i].Field? ensures PlainName(t[i].name) && t[i].name in env {
      assert t[i] == ([p] + t)[i + 1];
    }
  }

  /** Formatting a template piece by piece, from the front, when the parts are
      known to be well formed. */
  lemma FormatPiece(p: Piece, t: seq<Piece>, env: map<string, string>)
    requires p.Field? ==> PlainName(p.name) && p.name in env
    requires WellFormedTemplate(t, env)
    ensures WellFormedTemplate([p] + t, env)
    ensures Format([p] + t, env) == PieceText(p, env) + Format(t, env)
  {
    forall i | 0 <= i < |[p] + t| && ([p] + t)[i].Field?
      ensures PlainName(([p] + t)[i].name) && ([p] + t)[i].name in env
    {
      if i > 0 {
        assert ([p] + t)[i] == t[i - 1];
      }
    }
    assert ([p] + t)[1..] == t;
  }

  /** A literal followed by a field, in front of the rest of a template. */
  lemma FormatLitField(a: string, f: string, t: seq<Piece>, env: map<string, string>)
    requires PlainName(f) && f in env && WellFormedTemplate(t, env)
    ensures WellFormedTemplate([Lit(a), Field(f)] + t, env)
    ensures Format([Lit(a), Field(f)] + t, env) == a + env[f] + Format(t, env)
  {
    FormatPiece(Field(f), t, env);
    FormatPiece(Lit(a), [Field(f)] + t, env);
    assert [Lit(a)] + ([Field(f)] + t) == [Lit(a), Field(f)] + t;
  }

  /** A template holding one field between two literals. */
  lemma FormatOneField(a: string, f: string, b: string, env: map<string, string>)
    requires PlainName(f) && f in env
    ensures WellFormedTemplate([Lit(a), Field(f), Lit(b)], env)
    ensures Format([Lit(a), Field(f), Lit(b)], env) == a + env[f] + b
  {
    FormatPiece(Lit(b), [], env);
    assert [Lit(b)] + [] == [Lit(b)];
    FormatLitField(a, f, [Lit(b)], env);
    assert [Lit(a), Field(f)] + [Lit(b)] == [Lit(a), Field(f), Lit(b)];
  }

  /** A template holding two fields, each between literals. */
  lemma FormatTwoFields(a: string, f1: string, b: string, f2: string, c: string, env: map<string, string>)
    requires PlainName(f1) && f1 in env && PlainName(f2) && f2 in env
    ensures WellFormedTemplate([Lit(a), Field(f1), Lit(b), Field(f2), Lit(c)], env)
    ensures Format([Lit(a), Field(f1), Lit(b), Field(f2), Lit(c)], env) == a + env[f1] + b + env[f2] + c
  {
    var t := [Lit(b), Field(f2), Lit(c)];
    FormatOneField(b, f2, c, env);
    FormatLitField(a, f1, t, env);
    assert [Lit(a), Field(f1)] + t == [Lit(a), Field(f1), Lit(b), Field(f2), Lit(c)];
  }

  /** A template holding three fields, each between literals. */
  lemma FormatThreeFields(a: string, f1: string, b: string, f2: string, c: string, f3: string, d: string,
                          env: map<string, string>)
    requires PlainName(f1) && f1 in env && PlainName(f2) && f2 in env && PlainName(f3) && f3 in env
    ensures WellFormedTemplate([Lit(a), Field(f1), Lit(b), Field(f2), Lit(c), Field(f3), Lit(d)], env)
    ensures Format([Lit(a), Field(f1), Lit(b), Field(f2), Lit(c), Field(f3), Lit(d)], env)
         == a + env[f1] + b + env[f2] + c + env[f3] + d
  {
    var t := [Lit(b), Field(f2), Lit(c), Field(f3), Lit(d)];
    FormatTwoFields(b, f2, c, f3, d, env);
    FormatLitField(a, f1, t, env);
    assert [Lit(a), Field(f1)] + t == [Lit(a), Field(f1), Lit(b), Field(f2), Lit(c), Field(f3), Lit(d)];
  }

  /** A template that opens with a field: three fields, each followed by a literal. */
  lemma FormatThreeFieldsFirst(f1: string, a: string, f2: string, b: string, f3: string, c: string,
                               env: map<string, string>)
    requires PlainName(f1) && f1 in env && PlainName(f2) && f2 in env && PlainName(f3) && f3 in env
    ensures WellFormedTemplate([Field(f1), Lit(a), Field(f2), Lit(b), Field(f3), Lit(c)], env)
    ensures Format([Field(f1), Lit(a), Field(f2), Lit(b), Field(f3), Lit(c)], env)
         == env[f1] + a + env[f2] + b + env[f3] + c
  {
    var t := [Lit(a), Field(f2), Lit(b), Field(f3), Lit(c)];
    FormatTwoFields(a, f2, b, f3, c, env);
    FormatPiece(Field(f1), t, env);
    assert [Field(f1)] + t == [Field(f1), Lit(a), Field(f2), Lit(b), Field(f3), Lit(c)];
  }

  lemma WellFormedAppend(t1: seq<Piece>, t2: seq<Piece>, env: map<string, string>)
    requires WellFormedTemplate(t1, env) && WellFormedTemplate(t2, env)
    ensures WellFormedTemplate(t1 + t2, env)
  {
    forall i | 0 <= i < |t1 + t2| && (t1 + t2)[i].Field?
      ensures PlainName((t1 + t2)[i].name) && (t1 + t2)[i].name in env
    {
      if i >= |t1| {
        assert (t1 + t2)[i] == t2[i - |t1|];
      }
    }
  }

  /** Formatting two templates one after the other. */
  lemma {:induction false} FormatAppend(t1: seq<Piece>, t2: seq<Piece>, env: map<string, string>)
    requires WellFormedTemplate(t1 + t2, env)
    ensures WellFormedTemplate(t1, env) && WellFormedTemplate(t2, env)
    ensures Format(t1 + t2, env) == Format(t1, env) + Format(t2, env)
  {
    if |t1| == 0 {
      assert t1 + t2 == t2;
    } else {
      assert t1 + t2 == [t1[0]] + (t1[1..] + t2);
      FormatCons(t1[0], t1[1..] + t2, env);
      FormatAppend(t1[1..], t2, env);
      assert t1 == [t1[0]] + t1[1..];
      FormatCons(t1[0], t1[1..], env);
    }
  }

  /** Literal text as it is written inside a format string: braces doubled. */
  function Escape(s: string): string
  {
    if |s| == 0 then ""
    else if s[0] == '{' then "{{" + Escape(s[1..])
    else if s[0] == '}' then "}}" + Escape(s[1..])
    else [s[0]] + Escape(s[1..])
  }

  /** One piece as it is written in a format string. */
  function PieceSource(p: Piece): string
  {
    match p
    case Lit(x) => Escape(x)
    case Field(n) => "{" + n + "}"
  }

  /** The template as it is written in the source text. */
  function Unparse(t: seq<Piece>): string
  {
    if |t| == 0 then "" else PieceSource(t[0]) + Unparse(t[1..])
  }

  datatype FormatError =
    | SingleCloseBrace   // "Single '}' encountered in format string"
    | UnclosedField      // "expected '}' before end of string"
    | PositionalIndex    // "Replacement index ... out of range": no positional arguments
    | UnsupportedField   // any other field that is not a plain name
    | MissingKey(name: string)

  function Prepend(s: string, r: Result<string, FormatError>): (q: Result<string, FormatError>)
    ensures q.Ok? <==> r.Ok?
    ensures r.Ok? ==> q.value == s + r.value
    ensures r.Err? ==> q == r
  {
    match r
    case Ok(v) => Ok(s + v)
    case Err(e) => Err(e)
  }

  /** Python's `raw.format(**env)`, read left to right. Only keyword
      arguments are given, so a positional field fails. */
  function FormatString(raw: string, env: map<string, string>): Result<string, FormatError>
    decreases |raw|
  {
    if |raw| == 0 then Ok("")
    else if raw[0] == '{' then
      if |raw| >= 2 && raw[1] == '{' then Prepend("{", FormatString(raw[2..], env))
      else
        var close := Find(raw[1..], "}");
        if close < 0 then Err(UnclosedField)
        else
          var name := raw[1..close + 1];
          if PositionalName(name) then Err(PositionalIndex)
          else if !PlainName(name) then Err(UnsupportedField)
          else if name !in env then Err(MissingKey(name))
          else Prepend(env[name], FormatString(raw[close + 2..], env))
    else if raw[0] == '}' then
      if |raw| >= 2 && raw[1] == '}' then Prepend("}", FormatString(raw[2..], env))
      else Err(SingleCloseBrace)
    else Prepend([raw[0]], FormatString(raw[1..], env))
  }

  lemma EscapeCons(s: string)
    requires |s| > 0
    ensures Escape(s) == Escape([s[0]]) + Escape(s[1..])
  {
    var head: string := if s[0] == '{' then "{{" else if s[0] == '}' then "}}" else [s[0]];
    assert [s[0]][1..] == [];
    assert Escape([s[0]]) == head + "";
    assert head + "" == head;
  }

  /** One escaped character at the front of the raw text. */
  lemma FormatStringEscapedChar(c: char, tail: string, env: map<string, string>)
    ensures FormatString(Escape([c]) + tail, env) == Prepend([c], FormatString(tail, env))
  {
    var raw := Escape([c]) + tail;
    if c == '{' || c == '}' {
      assert Escape([c]) == [c, c];
      assert raw[2..] == tail;
    } else {
      assert Escape([c]) == [c];
      assert raw[1..] == tail;
    }
  }

  lemma PrependTwice(a: string, b: string, r: Result<string, FormatError>)
    ensures Prepend(a, Prepend(b, r)) == Prepend(a + b, r)
  {
    if r.Ok? {
      assert a + (b + r.value) == (a + b) + r.value;
    }
  }

  /** Escaped literal text comes out of `str.format` exactly as it was meant. */
  lemma {:induction false} FormatStringEscaped(s: string, rest: string, env: map<string, string>)
    ensures FormatString(Escape(s) + rest, env) == Prepend(s, FormatString(rest, env))
    decreases |s|
  {
    if |s| == 0 {
      assert Escape(s) + rest == rest;
      var x := FormatString(rest, env);
      if x.Ok? {
        assert s + x.value == x.value;
      }
    } else {
      FormatStringEscaped(s[1..], rest, env);
      var tail := Escape(s[1..]) + rest;
      EscapeCons(s);
      AppendThree(Escape([s[0]]), Escape(s[1..]), rest);
      FormatStringEscapedChar(s[0], tail, env);
      PrependTwice([s[0]], s[1..], FormatString(rest, env));
      assert [s[0]] + s[1..] == s;
    }
  }

  /** A field is replaced by its value verbatim, braces in the value included. */
  lemma FormatStringField(n: string, rest: string, env: map<string, string>)
    requires PlainName(n) && n in env
    ensures FormatString("{" + n + "}" + rest, env) == Prepend(env[n], FormatString(rest, env))
  {
    var raw := "{" + n + "}" + rest;
    var inner := raw[1..];
    assert inner == n + "}" + rest;
    assert OccursAt(inner, "}", |n|) by {
      assert inner[|n|..|n| + 1] == "}";
    }
    forall j | 0 <= j < |n| ensures !OccursAt(inner, "}", j) {
      assert inner[j..j + 1] == [n[j]];
    }
    assert Find(inner, "}") == |n| by {
      var r := Find(inner, "}");
      assert r >= 0 by { assert !NoOccurrence(inner, "}"); }
      assert !(r < |n|);
      assert !(|n| < r);
    }
    assert raw[1..|n| + 1] == n;
    assert raw[|n| + 2..] == rest;
  }

  /** A field of digits, or an empty one, asks for a positional argument,
      which a call with keyword arguments only does not have, whatever `env`
      binds. */
  lemma FormatStringPositional(n: string, rest: string, env: map<string, string>)
    requires PositionalName(n)
    ensures FormatString("{" + n + "}" + rest, env) == Err(PositionalIndex)
  {
    var raw := "{" + n + "}" + rest;
    var inner := raw[1..];
    assert inner == n + "}" + rest;
    assert OccursAt(inner, "}", |n|) by {
      assert inner[|n|..|n| + 1] == "}";
    }
    forall j | 0 <= j < |n| ensures !OccursAt(inner, "}", j) {
      assert inner[j..j + 1] == [n[j]];
    }
    assert Find(inner, "}") == |n| by {
      var r := Find(inner, "}");
      assert r >= 0 by { assert !NoOccurrence(inner, "}"); }
      assert !(r < |n|);
      assert !(|n| < r);
    }
    assert raw[1..|n| + 1] == n;
  }

  /** `"{0}".format(**{"0": "x"})` fails, although the key is bound. */
  lemma DigitFieldNotKeyword()
    ensures FormatString("{0}", map["0" := "x"]) == Err(PositionalIndex)
  {
    FormatStringPositional("0", "", map["0" := "x"]);
    assert "{" + "0" + "}" + "" == "{0}";
  }

  /** Reading the written-out template gives the piece-wise result. */
  lemma {:induction false} FormatStringOfUnparse(t: seq<Piece>, env: map<string, string>)
    requires WellFormedTemplate(t, env)
    ensures FormatString(Unparse(t), env) == Ok(Format(t, env))
  {
    if |t| > 0 {
      FormatStringOfUnparse(t[1..], env);
      match t[0]
      case Lit(x) =>
        FormatStringEscaped(x, Unparse(t[1..]), env);
      case Field(n) =>
        FormatStringField(n, Unparse(t[1..]), env);
    }
  }
}

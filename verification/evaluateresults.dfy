/** The cell formatting of `src/evaluateResults.py`: the colour scale for
    runtime ratios and the LaTeX cells of the evaluation tables. Table
    assembly, the database queries and number formatting are not modelled;
    `fmtQty` is a parameter. */
module EvaluateResults {
  import opened Wrappers
  import opened Text
  import opened StrFormat
  import Utils

  // ---------------------------------------------------------------------
  // Colour scale
  // ---------------------------------------------------------------------

  /** A Python float: a number, modelled as a real, or NaN, which every
      comparison finds false. */
  datatype Float = Num(x: real) | NaN

  /** `val < bound` and `val > bound`: both false for NaN. */
  predicate Below(val: Float, bound: real) {
    val.Num? && val.x < bound
  }

  predicate Above(val: Float, bound: real) {
    val.Num? && val.x > bound
  }

  /** One entry `(min, max, color)` of a colour map. */
  datatype Interval = Interval(lo: real, hi: real, color: Option<string>)

  /** `colormapRedGreen`: green shades for speed-ups, nothing around zero,
      red shades for slow-downs. */
  const ColormapRedGreen: seq<Interval> := [
    Interval(-1.0, -0.7, Some("#B1D9A3")),
    Interval(-0.7, -0.4, Some("#CBE8BE")),
    Interval(-0.4, -0.1, Some("#E4F2D5")),
    Interval(-0.1, 0.1, None),
    Interval(0.1, 0.4, Some("#FCF6E1")),
    Interval(0.4, 0.7, Some("#FFCCCB")),
    Interval(0.7, 1.0, Some("#FCBABA"))
  ]

  const GreenShades: set<string> := {"#B1D9A3", "#CBE8BE", "#E4F2D5"}
  const RedShades: set<string> := {"#FCF6E1", "#FFCCCB", "#FCBABA"}

  predicate InInterval(val: real, iv: Interval) {
    iv.lo <= val <= iv.hi
  }

  /** `getColor`: walk the map in order; stop with nothing at the first
      interval that starts above the value, skip intervals that end below
      it, and take the colour of the first one that holds it. NaN passes
      both tests of the first entry and so takes its colour. */
  function GetColor(val: Float, cmap: seq<Interval>): (r: Option<string>)
    ensures val.Num? && r.Some? ==> exists i :: 0 <= i < |cmap| && InInterval(val.x, cmap[i]) && cmap[i].color == r
    ensures val.NaN? ==> r == if |cmap| == 0 then None else cmap[0].color
  {
    GetColorFrom(val, cmap, 0)
  }

  /** The loop of `getColor` from entry `i` on. */
  function GetColorFrom(val: Float, cmap: seq<Interval>, i: nat): (r: Option<string>)
    requires i <= |cmap|
    ensures val.Num? && r.Some? ==> exists j :: i <= j < |cmap| && InInterval(val.x, cmap[j]) && cmap[j].color == r
    ensures val.NaN? ==> r == if i == |cmap| then None else cmap[i].color
    decreases |cmap| - i
  {
    if i == |cmap| then None
    else if Below(val, cmap[i].lo) then None
    else if Above(val, cmap[i].hi) then GetColorFrom(val, cmap, i + 1)
    else cmap[i].color
  }

  /** The position of the first interval from `i` on holding `val`, or
      `|cmap|`. */
  function FirstContaining(val: real, cmap: seq<Interval>, i: nat): (k: nat)
    requires i <= |cmap|
    ensures i <= k <= |cmap|
    ensures k < |cmap| ==> InInterval(val, cmap[k])
    ensures forall j :: i <= j < k ==> !InInterval(val, cmap[j])
    decreases |cmap| - i
  {
    if i == |cmap| then i
    else if InInterval(val, cmap[i]) then i
    else FirstContaining(val, cmap, i + 1)
  }

  /** The colour of the first interval holding the value: what a lookup in
      a colour map means. */
  function ColorAt(val: real, cmap: seq<Interval>): Option<string>
  {
    var k := FirstContaining(val, cmap, 0);
    if k < |cmap| then cmap[k].color else None
  }

  /** Intervals that are proper and follow each other, sharing at most
      their end points. */
  predicate Ordered(cmap: seq<Interval>) {
    && (forall i :: 0 <= i < |cmap| ==> cmap[i].lo <= cmap[i].hi)
    && (forall i, j :: 0 <= i < j < |cmap| ==> cmap[i].hi <= cmap[j].lo)
  }

  lemma {:induction false} GetColorFromOrdered(val: real, cmap: seq<Interval>, i: nat)
    requires Ordered(cmap) && i <= |cmap|
    ensures var k := FirstContaining(val, cmap, i);
      GetColorFrom(Num(val), cmap, i) == if k < |cmap| then cmap[k].color else None
    decreases |cmap| - i
  {
    if i < |cmap| {
      if val < cmap[i].lo {
        forall j | i <= j < |cmap| ensures !InInterval(val, cmap[j]) {
          if j > i {
            assert cmap[i].hi <= cmap[j].lo;
          }
        }
      } else if val > cmap[i].hi {
        GetColorFromOrdered(val, cmap, i + 1);
      }
    }
  }

  /** On an ordered map the early exit of `getColor` is harmless: it
      returns the colour of the first interval holding the value, so a value
      on a shared end point takes the earlier interval's colour. */
  lemma GetColorOrdered(val: real, cmap: seq<Interval>)
    requires Ordered(cmap)
    ensures GetColor(Num(val), cmap) == ColorAt(val, cmap)
  {
    GetColorFromOrdered(val, cmap, 0);
  }

  lemma RedGreenOrdered()
    ensures Ordered(ColormapRedGreen)
  {
  }

  /** On an ordered map, an interval holding the value that starts after
      the previous one ends is the first to hold it. */
  lemma FirstContainingAt(val: real, cmap: seq<Interval>, k: nat)
    requires Ordered(cmap) && k < |cmap| && InInterval(val, cmap[k])
    requires k > 0 ==> val > cmap[k - 1].hi
    ensures FirstContaining(val, cmap, 0) == k
  {
    forall j | 0 <= j < k ensures !InInterval(val, cmap[j]) {
      if j < k - 1 {
        assert cmap[j].hi <= cmap[k - 1].lo;
      }
    }
  }

  /** On an ordered map, a value before the first interval or after the last
      is held by none. */
  lemma FirstContainingOutside(val: real, cmap: seq<Interval>)
    requires Ordered(cmap) && |cmap| > 0
    requires val < cmap[0].lo || val > cmap[|cmap| - 1].hi
    ensures FirstContaining(val, cmap, 0) == |cmap|
  {
    forall j | 0 <= j < |cmap| ensures !InInterval(val, cmap[j]) {
      if j > 0 {
        assert cmap[0].hi <= cmap[j].lo;
      }
      if j < |cmap| - 1 {
        assert cmap[j].hi <= cmap[|cmap| - 1].lo;
      }
    }
  }

  /** The colour `getColor` gives a value that entry `k` of the red-green
      map holds and the entry before it does not. */
  lemma RedGreenAt(val: real, k: nat)
    requires k < |ColormapRedGreen| && InInterval(val, ColormapRedGreen[k])
    requires k > 0 ==> val > ColormapRedGreen[k - 1].hi
    ensures GetColor(Num(val), ColormapRedGreen) == ColormapRedGreen[k].color
  {
    RedGreenOrdered();
    GetColorOrdered(val, ColormapRedGreen);
    FirstContainingAt(val, ColormapRedGreen, k);
  }

  /** Ratios in (-0.1, 0.1] and outside [-1, 1] get no colour. */
  lemma RedGreenNeutral(val: real)
    requires -0.1 < val <= 0.1 || val < -1.0 || val > 1.0
    ensures GetColor(Num(val), ColormapRedGreen).None?
  {
    if -0.1 < val <= 0.1 {
      RedGreenAt(val, 3);
    } else {
      RedGreenOrdered();
      GetColorOrdered(val, ColormapRedGreen);
      FirstContainingOutside(val, ColormapRedGreen);
    }
  }

  /** Ratios in [-1, -0.1] get a green shade. */
  lemma RedGreenGreen(val: real)
    requires -1.0 <= val <= -0.1
    ensures GetColor(Num(val), ColormapRedGreen).Some? && GetColor(Num(val), ColormapRedGreen).value in GreenShades
  {
    if val <= -0.7 {
      RedGreenAt(val, 0);
    } else if val <= -0.4 {
      RedGreenAt(val, 1);
    } else {
      RedGreenAt(val, 2);
    }
  }

  /** Ratios in (0.1, 1] get a red shade. */
  lemma RedGreenRed(val: real)
    requires 0.1 < val <= 1.0
    ensures GetColor(Num(val), ColormapRedGreen).Some? && GetColor(Num(val), ColormapRedGreen).value in RedShades
  {
    if val <= 0.4 {
      RedGreenAt(val, 4);
    } else if val <= 0.7 {
      RedGreenAt(val, 5);
    } else {
      RedGreenAt(val, 6);
    }
  }

  /** End points shared by two intervals take the earlier colour. */
  lemma RedGreenBoundaries()
    ensures GetColor(Num(-0.7), ColormapRedGreen) == Some("#B1D9A3")
    ensures GetColor(Num(-0.1), ColormapRedGreen) == Some("#E4F2D5")
    ensures GetColor(Num(0.1), ColormapRedGreen) == None
    ensures GetColor(Num(0.4), ColormapRedGreen) == Some("#FCF6E1")
  {
  }

  // ---------------------------------------------------------------------
  // Cells
  // ---------------------------------------------------------------------

  const FullCirc: string := "\\fullcirc"
  const EmptyCirc: string := "\\emptycirc"
  const HalfCirc: string := "\\halfcirc"

  /** The answers recorded by hand on whether a task improved. */
  const ImprovementAnswers: set<string> := {"y", "n", "~"}

  datatype CellError = ValueError

  /** `fmtImprovement`: a circle per answer; anything else raises. */
  function FmtImprovement(improvement: string): (r: Result<string, CellError>)
    ensures r.Ok? <==> improvement in ImprovementAnswers
    ensures r.Ok? ==> r.value in {FullCirc, EmptyCirc, HalfCirc}
  {
    if improvement == "y" then Ok(FullCirc)
    else if improvement == "n" then Ok(EmptyCirc)
    else if improvement == "~" then Ok(HalfCirc)
    else Err(ValueError)
  }

  /** The answer a circle stands for: the inverse of `fmtImprovement`. */
  function ReadImprovement(cell: string): Option<string>
  {
    if cell == FullCirc then Some("y")
    else if cell == EmptyCirc then Some("n")
    else if cell == HalfCirc then Some("~")
    else None
  }

  /** Every answer can be read back from its circle, so different answers
      get different circles. */
  lemma FmtImprovementRoundTrip(improvement: string)
    requires improvement in ImprovementAnswers
    ensures ReadImprovement(FmtImprovement(improvement).value) == Some(improvement)
  {
    CirclesDiffer();
  }

  /** The three circles differ in their second character, none of which is
      the `c` of `\cellcolor`. */
  lemma CirclesDiffer()
    ensures |FullCirc| > 1 && |EmptyCirc| > 1 && |HalfCirc| > 1
    ensures FullCirc[1] == 'f' && EmptyCirc[1] == 'e' && HalfCirc[1] == 'h'
  {
    assert FullCirc == "\\" + "fullcirc";
    assert EmptyCirc == "\\" + "emptycirc";
    assert HalfCirc == "\\" + "halfcirc";
  }

  /** `fmtBool`. */
  function FmtBool(val: bool): (r: string)
    ensures r in {FullCirc, EmptyCirc}
  {
    if val then FullCirc else EmptyCirc
  }

  /** `fmtBool` draws the circles of the answers "y" and "n". */
  lemma FmtBoolAgrees(val: bool)
    ensures Ok(FmtBool(val)) == FmtImprovement(if val then "y" else "n")
  {
  }

  const Bad: string := "#FFCCCB"
  const Good: string := "#CBE8BE"

  /** The LaTeX command that colours a table cell, and the wrapper's text up
      to the colour. */
  const CellColor: string := "\\cellcolor"
  const CellOpen: string := CellColor + "[HTML]{"

  /** The coloured cell wrapper `\cellcolor[HTML]{%(color)s}{%(content)s}`,
      read into pieces; `%` formatting with a dictionary substitutes the same
      way `str.format` does. */
  const ColorCellTemplate: seq<Piece> :=
    [Lit(CellOpen), Field("color"), Lit("}{"), Field("content"), Lit("}")]

  /** The plain wrapper `%(content)s`. */
  const PlainCellTemplate: seq<Piece> := [Field("content")]

  lemma ColorCellFormat(env: map<string, string>)
    requires "color" in env && "content" in env
    ensures WellFormedTemplate(ColorCellTemplate, env)
    ensures Format(ColorCellTemplate, env) == CellOpen + env["color"] + "}{" + env["content"] + "}"
  {
    LetterNameIsPlain("color");
    LetterNameIsPlain("content");
    FormatTwoFields(CellOpen, "color", "}{", "content", "}", env);
  }

  lemma PlainCellFormat(env: map<string, string>)
    requires "content" in env
    ensures WellFormedTemplate(PlainCellTemplate, env)
    ensures Format(PlainCellTemplate, env) == env["content"]
  {
    LetterNameIsPlain("content");
    FormatPiece(Field("content"), [], env);
    assert [Field("content")] + [] == PlainCellTemplate;
  }

  /** A cell with a background colour, given without its `#`. */
  function ColorCell(color: string, content: string): (r: string)
    ensures r == CellOpen + color + "}{" + content + "}"
  {
    var env := map["color" := color, "content" := content];
    ColorCellFormat(env);
    Format(ColorCellTemplate, env)
  }

  /** A coloured cell starts with the colouring command. */
  lemma ColorCellStartsWith(color: string, content: string)
    ensures StartsWith(ColorCell(color, content), CellColor)
  {
    var rest := "[HTML]{" + color + "}{" + content + "}";
    AppendAssoc(CellColor, "[HTML]{", color, "}{", content, "}");
    StartsWithConcat(CellColor, rest);
  }

  lemma AppendAssoc(a: string, b: string, c: string, d: string, e: string, f: string)
    ensures a + b + c + d + e + f == a + (b + c + d + e + f)
  {
  }

  /** A plain cell starting with a backslash command other than
      `\cellcolor` is not taken for a coloured one. */
  lemma PlainCellNotColored(content: string)
    requires |content| > 1 && content[1] != 'c'
    ensures !StartsWith(content, CellColor)
  {
    assert CellColor[1] == 'c';
    NotStartsWithAt(content, CellColor, 1);
  }

  /** A cell without a colour. */
  function PlainCell(content: string, color: string): (r: string)
    ensures r == content
  {
    var env := map["color" := color, "content" := content];
    PlainCellFormat(env);
    Format(PlainCellTemplate, env)
  }

  /** The colour of a slow task's cell, `#` stripped: bad for "n", good
      for "y", none otherwise. */
  function ImprovementColor(improvement: string): string
  {
    if improvement == "n" then "FFCCCB" else if improvement == "y" then "CBE8BE" else ""
  }

  /** `color.lstrip("#")` on the two colours `trfImprovement` uses. */
  lemma StripHashOfColors()
    ensures LStripChar(Bad, '#') == "FFCCCB" && LStripChar(Good, '#') == "CBE8BE"
    ensures LStripChar("", '#') == ""
  {
    assert Bad == ['#'] + "FFCCCB";
    LStripCharOnce('#', "FFCCCB");
    assert Good == ['#'] + "CBE8BE";
    LStripCharOnce('#', "CBE8BE");
  }

  /** `trfImprovement`: a fast task's cell is the bare circle; a slow task's
      cell is coloured bad for "n", good for "y" and left uncoloured for "~".
      An answer outside the three raises, as `fmtImprovement` does. */
  function TrfImprovement(taskIsFast: int, improvement: string): (r: Result<string, CellError>)
    ensures r.Ok? <==> improvement in ImprovementAnswers
    ensures r.Ok? && taskIsFast != 0 ==> r.value == FmtImprovement(improvement).value
    ensures r.Ok? && taskIsFast == 0 ==>
      r.value == CellOpen + ImprovementColor(improvement) + "}{" + FmtImprovement(improvement).value + "}"
  {
    var color := if taskIsFast == 0 && improvement == "n" then Bad
                 else if taskIsFast == 0 && improvement == "y" then Good
                 else "";
    StripHashOfColors();
    match FmtImprovement(improvement)
    case Err(e) => Err(e)
    case Ok(content) =>
      if taskIsFast != 0 then Ok(PlainCell(content, LStripChar(color, '#')))
      else Ok(ColorCell(LStripChar(color, '#'), content))
  }

  /** A cell is coloured exactly when its task is the slow version. */
  lemma TrfImprovementColoredIff(taskIsFast: int, improvement: string)
    requires improvement in ImprovementAnswers
    ensures StartsWith(TrfImprovement(taskIsFast, improvement).value, CellColor) <==> taskIsFast == 0
  {
    var content := FmtImprovement(improvement).value;
    if taskIsFast == 0 {
      ColorCellStartsWith(ImprovementColor(improvement), content);
    } else {
      CirclesDiffer();
      PlainCellNotColored(content);
    }
  }

  /** `trfRuntimeProp`: the formatted ratio, coloured by the red-green scale
      at the mapped ratio when the scale has a colour there. `fmtQty` is the
      number formatting, not modelled. */
  function TrfRuntimeProp(runtimeProp: Float, runtimePropMapped: Float, fmtQty: Float -> string): (r: string)
    ensures GetColor(runtimePropMapped, ColormapRedGreen).None? ==> r == fmtQty(runtimeProp)
    ensures GetColor(runtimePropMapped, ColormapRedGreen).Some? ==>
      r == CellOpen + LStripChar(GetColor(runtimePropMapped, ColormapRedGreen).value, '#')
           + "}{" + fmtQty(runtimeProp) + "}"
  {
    match GetColor(runtimePropMapped, ColormapRedGreen)
    case None => PlainCell(fmtQty(runtimeProp), "None")
    case Some(color) => ColorCell(LStripChar(color, '#'), fmtQty(runtimeProp))
  }

  /** With `fmtQty` writing `\num{...}`, a runtime cell is coloured exactly
      when the scale has a colour at the mapped ratio. */
  lemma TrfRuntimePropColoredIff(runtimeProp: Float, runtimePropMapped: Float, fmtQty: Float -> string)
    requires StartsWith(fmtQty(runtimeProp), "\\num{")
    ensures StartsWith(TrfRuntimeProp(runtimeProp, runtimePropMapped, fmtQty), CellColor)
        <==> GetColor(runtimePropMapped, ColormapRedGreen).Some?
  {
    var qty := fmtQty(runtimeProp);
    match GetColor(runtimePropMapped, ColormapRedGreen)
    case None =>
      assert qty[..5][1] == qty[1] == 'n';
      PlainCellNotColored(qty);
    case Some(color) =>
      ColorCellStartsWith(LStripChar(color, '#'), qty);
  }

  /** Hence a runtime cell is coloured exactly when the mapped ratio lies in
      [-1, -0.1] or in (0.1, 1], or is NaN. */
  lemma TrfRuntimePropColoredRange(runtimeProp: Float, runtimePropMapped: Float, fmtQty: Float -> string)
    requires StartsWith(fmtQty(runtimeProp), "\\num{")
    ensures StartsWith(TrfRuntimeProp(runtimeProp, runtimePropMapped, fmtQty), CellColor)
        <==> (|| runtimePropMapped.NaN?
              || -1.0 <= runtimePropMapped.x <= -0.1
              || 0.1 < runtimePropMapped.x <= 1.0)
  {
    TrfRuntimePropColoredIff(runtimeProp, runtimePropMapped, fmtQty);
    if runtimePropMapped.Num? {
      var m := runtimePropMapped.x;
      if -1.0 <= m <= -0.1 {
        RedGreenGreen(m);
      } else if 0.1 < m <= 1.0 {
        RedGreenRed(m);
      } else {
        RedGreenNeutral(m);
      }
    }
  }

  /** `np.log10(runtime / baseline)` against a positive baseline: NaN for a
      negative runtime; `log10` stands for the logarithm elsewhere. */
  function RuntimeLog(runtime: real, baseline: real, log10: real -> real): (r: Float)
    requires baseline > 0.0
  {
    if runtime < 0.0 then NaN else Num(log10(runtime / baseline))
  }

  /** `np.atan(p) / (np.pi / 2)`, with `scaledAtan` standing for it on a
      number; NaN stays NaN. */
  function MapRatio(p: Float, scaledAtan: real -> real): (r: Float)
  {
    match p
    case NaN => NaN
    case Num(x) => Num(scaledAtan(x))
  }

  /** A run that failed keeps the runtime -1, so its ratio's logarithm and
      the mapped ratio are NaN, and its cell takes the first colour of the
      scale, the darkest green of the best speed-ups. */
  lemma FailedRunCell(baseline: real, log10: real -> real, scaledAtan: real -> real, fmtQty: Float -> string)
    requires baseline > 0.0
    ensures var p := RuntimeLog(Utils.DefaultRuntime, baseline, log10);
      && p.NaN?
      && TrfRuntimeProp(p, MapRatio(p, scaledAtan), fmtQty) == ColorCell("B1D9A3", fmtQty(NaN))
  {
    var p := RuntimeLog(Utils.DefaultRuntime, baseline, log10);
    assert GetColor(MapRatio(p, scaledAtan), ColormapRedGreen) == Some("#B1D9A3");
    assert LStripChar("#B1D9A3", '#') == "B1D9A3";
  }
}

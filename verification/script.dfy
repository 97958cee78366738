/** The scratch script `script.py`: an earlier `findMainBody` that returns a
    dictionary of offsets instead of a `FuncRange`. Its loop is modelled as
    written and shown to report the same range. */
module Script {
  import opened Wrappers
  import opened Text
  import opened CodeProcessing

  /** The dictionary's keys. */
  const RangeKeys: set<string> := {"funcStart", "funcEnd", "bodyStart", "bodyEnd"}

  /** The dictionary the script returns for a range. */
  function RangeMap(info: FuncRange): (m: map<string, int>)
    ensures m.Keys == RangeKeys
    ensures m["funcStart"] == info.funcStart && m["funcEnd"] == info.funcEnd
    ensures m["bodyStart"] == info.bodyStart && m["bodyEnd"] == info.bodyEnd
  {
    map["funcStart" := info.funcStart as int, "funcEnd" := info.funcEnd as int,
        "bodyStart" := info.bodyStart as int, "bodyEnd" := info.bodyEnd as int]
  }

  /** `findMainBody` of `script.py`; `None` stands for the empty string it
      returns when the text has no `int main`. */
  method FindMainBody(code: string) returns (r: Option<map<string, int>>)
    ensures r.None? <==> !Contains(code, MainSignature)
    ensures r.Some? ==> (
      && r.value.Keys == RangeKeys
      && r.value["funcStart"] >= 0 && r.value["funcEnd"] >= 0
      && r.value["bodyStart"] >= 0 && r.value["bodyEnd"] >= 0
      && IsMainRange(code, Find(code, MainSignature),
           FuncRange(r.value["funcStart"], r.value["funcEnd"], r.value["bodyStart"], r.value["bodyEnd"])))
  {
    var funcStart := Find(code, MainSignature);
    if funcStart < 0 {
      return None;
    }
    var bodyStart, bodyEnd, depth := funcStart, funcStart, 0;
    var j := funcStart;
    while j < |code|
      invariant funcStart <= j <= |code| && bodyEnd == j
      invariant depth == Balance(code[funcStart..j])
      invariant bodyStart == funcStart + ZeroCount(code, funcStart, j)
      invariant forall k :: funcStart <= k < j ==> !ClosesAt(code, funcStart, k)
    {
      var c := code[j];
      if !(c == '}' && depth - 1 == 0) {
        WalkStep(code, funcStart, j, depth, bodyStart);
      }
      if depth == 0 {
        bodyStart := bodyStart + 1;
      }
      if c == '{' {
        depth := depth + 1;
      } else if c == '}' {
        depth := depth - 1;
        if depth == 0 {
          break;
        }
      }
      bodyEnd := bodyEnd + 1;
      j := j + 1;
    }
    var info := FuncRange(funcStart, bodyEnd + 1, bodyStart, bodyEnd);
    assert IsMainRange(code, funcStart, info);
    r := Some(RangeMap(info));
  }

  /** Both versions of `findMainBody` report the same offsets. */
  method FindMainBodyAgrees(code: string) returns (r: Option<map<string, int>>)
    ensures r.None? <==> CodeProcessing.FindMainBody(code).None?
    ensures r.Some? ==> var info := CodeProcessing.FindMainBody(code).value;
      r.value == map["funcStart" := info.funcStart as int, "funcEnd" := info.funcEnd as int,
                     "bodyStart" := info.bodyStart as int, "bodyEnd" := info.bodyEnd as int]
  {
    r := FindMainBody(code);
    if r.Some? {
      var info := CodeProcessing.FindMainBody(code).value;
      var mine := FuncRange(r.value["funcStart"], r.value["funcEnd"], r.value["bodyStart"], r.value["bodyEnd"]);
      FindMainBodyIsMainRange(code);
      IsMainRangeUnique(code, Find(code, MainSignature), mine, info);
      assert r.value.Keys == RangeKeys;
      assert r.value == map["funcStart" := info.funcStart as int, "funcEnd" := info.funcEnd as int,
                            "bodyStart" := info.bodyStart as int, "bodyEnd" := info.bodyEnd as int];
    }
  }
}

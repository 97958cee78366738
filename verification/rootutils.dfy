/** The older top-level `utils.py`: the same `BenchmarkResult`, stored as a
    database document whose key is the file name. */
module RootUtils {
  import opened Wrappers
  import opened Utils

  /** The values a document holds: the record's strings, flags and runtime. */
  datatype DocValue = Str(s: string) | Flag(b: bool) | Num(x: real)

  type Document = map<string, DocValue>

  /** The field names of the dataclass, as `asdict` writes them. */
  const FieldNames: set<string> :=
    {"code", "benchmarkCode", "output", "filename", "compiled", "executed", "runtimeAvg"}

  /** The keys of a stored document: the file name moves to `_key`. */
  const DocKeys: set<string> :=
    {"code", "benchmarkCode", "output", "_key", "compiled", "executed", "runtimeAvg"}

  /** `dataclasses.asdict`: one entry per field, holding the field's value. */
  function AsDict(b: BenchmarkResult): (d: Document)
    ensures d.Keys == FieldNames
    ensures d["code"] == Str(b.code) && d["benchmarkCode"] == Str(b.benchmarkCode)
    ensures d["output"] == Str(b.output) && d["filename"] == Str(b.filename)
    ensures d["compiled"] == Flag(b.compiled) && d["executed"] == Flag(b.executed)
    ensures d["runtimeAvg"] == Num(b.runtimeAvg)
  {
    map["code" := Str(b.code), "benchmarkCode" := Str(b.benchmarkCode), "output" := Str(b.output),
        "filename" := Str(b.filename), "compiled" := Flag(b.compiled), "executed" := Flag(b.executed),
        "runtimeAvg" := Num(b.runtimeAvg)]
  }

  /** `toDBDoc`: `asdict` with the `filename` entry popped and stored again
      under `_key`; every other entry is kept as it is. */
  function ToDBDoc(b: BenchmarkResult): (d: Document)
    ensures d.Keys == DocKeys && "filename" !in d
    ensures d["_key"] == AsDict(b)["filename"]
    ensures forall k :: k in d && k != "_key" ==> k in AsDict(b) && d[k] == AsDict(b)[k]
  {
    var dump := AsDict(b);
    var filename := dump["filename"];
    (dump - {"filename"})["_key" := filename]
  }

  /** Reading a stored document back; `None` when a key is missing or holds
      a value of the wrong kind. */
  function FromDBDoc(d: Document): Option<BenchmarkResult>
  {
    if DocKeys <= d.Keys
       && d["code"].Str? && d["benchmarkCode"].Str? && d["output"].Str? && d["_key"].Str?
       && d["compiled"].Flag? && d["executed"].Flag? && d["runtimeAvg"].Num?
    then Some(BenchmarkResult(d["code"].s, d["benchmarkCode"].s, d["output"].s, d["_key"].s,
                              d["compiled"].b, d["executed"].b, d["runtimeAvg"].x))
    else None
  }

  /** A stored record reads back as the record: `toDBDoc` loses nothing. */
  lemma FromToDBDoc(b: BenchmarkResult)
    ensures FromDBDoc(ToDBDoc(b)) == Some(b)
  {
    var d := ToDBDoc(b);
    assert d["code"] == Str(b.code) && d["_key"] == Str(b.filename);
  }

  /** Hence two records with the same document are the same record. */
  lemma ToDBDocInjective(a: BenchmarkResult, b: BenchmarkResult)
    requires ToDBDoc(a) == ToDBDoc(b)
    ensures a == b
  {
    FromToDBDoc(a);
    FromToDBDoc(b);
  }
}

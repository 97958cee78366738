/** `src/utils.py` (with the database plumbing left out): the record a
    benchmark run is stored as, and the classifier that turns the container's
    stderr into that record. */
module Utils {
  import opened Wrappers
  import opened Text
  import opened Benchmark

  /** `starmap(func, iterable)` over pairs: `func` applied to each unpacked
      pair, in order. */
  function Starmap<A, B, C>(f: (A, B) -> C, xs: seq<(A, B)>): (r: seq<C>)
    ensures |r| == |xs|
    ensures forall i :: 0 <= i < |xs| ==> r[i] == f(xs[i].0, xs[i].1)
  {
    if |xs| == 0 then [] else [f(xs[0].0, xs[0].1)] + Starmap(f, xs[1..])
  }

  lemma StarmapAppend<A, B, C>(f: (A, B) -> C, xs: seq<(A, B)>, ys: seq<(A, B)>)
    ensures Starmap(f, xs + ys) == Starmap(f, xs) + Starmap(f, ys)
  {
  }

  /** `Example`: one task of the collection, in its slow and fast version. */
  datatype Example = Example(key: string, title: string, description: string, codeSlow: string, codeFast: string)

  /** The runtime a result keeps when none was measured. Python floats are
      modelled as reals. */
  const DefaultRuntime: real := -1.0

  datatype BenchmarkResult = BenchmarkResult(
    code: string,
    benchmarkCode: string,
    output: string,
    filename: string,
    compiled: bool,
    executed: bool,
    runtimeAvg: real)

  /** The dataclass constructor with the defaults for the last three fields. */
  function NewResult(filename: string, code: string, benchmarkCode: string, output: string): (r: BenchmarkResult)
    ensures !r.compiled && !r.executed && r.runtimeAvg == DefaultRuntime
    ensures r.filename == filename && r.code == code && r.benchmarkCode == benchmarkCode && r.output == output
  {
    BenchmarkResult(code, benchmarkCode, output, filename, false, false, DefaultRuntime)
  }

  /** What `json.loads(stderr)["runtimeAvg"]` does with the text. */
  datatype JsonRead =
    | NotJson          // json.JSONDecodeError, caught
    | NoRuntimeKey     // KeyError, caught
    | NotAnObject      // the text is JSON but not an object: TypeError, not caught
    | Runtime(value: real)

  datatype CreateError = TypeError

  /** The record before the runtime is read: output copied from stderr, and
      the two flags set by the markers, compile marker first. */
  function Classify(filename: string, code: string, benchmarkCode: string, stderr: string): (r: BenchmarkResult)
    ensures r.output == stderr && r.runtimeAvg == DefaultRuntime
    ensures r.compiled <==> !Contains(stderr, CompilationFailed)
    ensures r.executed <==> !Contains(stderr, CompilationFailed) && !Contains(stderr, ExecutionFailed)
  {
    var result := NewResult(filename, code, benchmarkCode, stderr);
    if Contains(stderr, CompilationFailed) then result
    else if Contains(stderr, ExecutionFailed) then result.(compiled := true)
    else result.(compiled := true, executed := true)
  }

  /** `BenchmarkResult.create` with the markers the runner's shell script
      writes. `readRuntime` stands for `json.loads(...)["runtimeAvg"]`; stdout
      is never looked at. */
  function Create(filename: string, code: string, benchmarkCode: string, output: Output,
                  readRuntime: string -> JsonRead): (r: Result<BenchmarkResult, CreateError>)
    ensures r.Err? <==> !Contains(output.stderr, CompilationFailed) && !Contains(output.stderr, ExecutionFailed)
                        && readRuntime(output.stderr).NotAnObject?
    ensures r.Ok? ==> r.value.filename == filename && r.value.code == code
                      && r.value.benchmarkCode == benchmarkCode && r.value.output == output.stderr
    ensures r.Ok? ==> (r.value.compiled <==> !Contains(output.stderr, CompilationFailed))
    ensures r.Ok? ==> (r.value.executed <==> r.value.compiled && !Contains(output.stderr, ExecutionFailed))
    ensures r.Ok? && r.value.executed && readRuntime(output.stderr).Runtime? ==>
              r.value.runtimeAvg == readRuntime(output.stderr).value
    ensures r.Ok? && !(r.value.executed && readRuntime(output.stderr).Runtime?) ==>
              r.value.runtimeAvg == DefaultRuntime
  {
    var result := Classify(filename, code, benchmarkCode, output.stderr);
    if !result.executed then Ok(result)
    else
      match readRuntime(output.stderr)
      case NotJson => Ok(result)
      case NoRuntimeKey => Ok(result)
      case NotAnObject => Err(TypeError)
      case Runtime(v) => Ok(result.(runtimeAvg := v))
  }

  /** The implication chain: a run that executed also compiled, and only an
      executed run carries a runtime other than the default. */
  lemma CreateFlagsOrdered(filename: string, code: string, benchmarkCode: string, output: Output,
                           readRuntime: string -> JsonRead)
    requires Create(filename, code, benchmarkCode, output, readRuntime).Ok?
    ensures var r := Create(filename, code, benchmarkCode, output, readRuntime).value;
      (r.executed ==> r.compiled) && (r.runtimeAvg != DefaultRuntime ==> r.executed)
  {
  }

  /** The compile marker wins when both markers are present. */
  lemma CreateCompileMarkerFirst(filename: string, code: string, benchmarkCode: string, output: Output,
                                 readRuntime: string -> JsonRead)
    requires Contains(output.stderr, CompilationFailed)
    ensures Create(filename, code, benchmarkCode, output, readRuntime)
         == Ok(NewResult(filename, code, benchmarkCode, output.stderr))
  {
  }

  /** A failed compile leaves the compile marker in the script's stderr. */
  lemma ScriptCompileFailMarked(compile: StepResult, execute: StepResult)
    requires compile.exitCode != 0
    ensures Contains(ScriptStderr(compile, execute), CompilationFailed)
  {
    ContainsInserted(compile.stderr, CompilationFailed, "\n");
  }

  /** A failed run after a clean compile leaves only the execution marker. */
  lemma ScriptExecFailMarked(compile: StepResult, execute: StepResult)
    requires compile.exitCode == 0 && execute.exitCode != 0
    requires NoOccurrence(compile.stderr + execute.stderr, CompilationFailed)
    ensures !Contains(ScriptStderr(compile, execute), CompilationFailed)
    ensures Contains(ScriptStderr(compile, execute), ExecutionFailed)
  {
    var both := compile.stderr + execute.stderr;
    assert ScriptStderr(compile, execute) == both + (ExecutionFailed + "\n");
    ExecTailMarked(both);
    ExecTailNotCompileMarked(both);
  }

  lemma ExecTailMarked(both: string)
    ensures Contains(both + (ExecutionFailed + "\n"), ExecutionFailed)
  {
    ContainsInserted(both, ExecutionFailed, "\n");
    assert both + ExecutionFailed + "\n" == both + (ExecutionFailed + "\n");
  }

  lemma ExecTailNotCompileMarked(both: string)
    requires NoOccurrence(both, CompilationFailed)
    ensures !Contains(both + (ExecutionFailed + "\n"), CompilationFailed)
  {
    var tail := ExecutionFailed + "\n";
    assert |tail| < |CompilationFailed|;
    assert tail[0] == 'E';
    NoOccurrenceConcat(both, tail, CompilationFailed);
    ContainsMeansOccurs(both + tail, CompilationFailed);
  }

  /** A clean run leaves neither marker, provided the steps print none. */
  lemma ScriptCleanUnmarked(compile: StepResult, execute: StepResult)
    requires compile.exitCode == 0 && execute.exitCode == 0
    requires NoOccurrence(compile.stderr + execute.stderr, CompilationFailed)
    requires NoOccurrence(compile.stderr + execute.stderr, ExecutionFailed)
    ensures !Contains(ScriptStderr(compile, execute), CompilationFailed)
    ensures !Contains(ScriptStderr(compile, execute), ExecutionFailed)
  {
    var both := compile.stderr + execute.stderr;
    assert ScriptStderr(compile, execute) == both;
    ContainsMeansOccurs(both, CompilationFailed);
    ContainsMeansOccurs(both, ExecutionFailed);
  }

  /** `create` applied to what the runner's script writes classifies the run
      correctly, as long as neither the compiler nor the program prints a
      marker of its own. */
  lemma CreateOfScript(filename: string, code: string, benchmarkCode: string, stdout: string,
                       compile: StepResult, execute: StepResult, readRuntime: string -> JsonRead)
    requires NoOccurrence(compile.stderr + execute.stderr, CompilationFailed)
    requires NoOccurrence(compile.stderr + execute.stderr, ExecutionFailed)
    ensures var r := Create(filename, code, benchmarkCode, Output(stdout, ScriptStderr(compile, execute)), readRuntime);
      && (compile.exitCode != 0 || execute.exitCode != 0 ==> r.Ok?)
      && (r.Ok? ==> r.value.compiled == (compile.exitCode == 0))
      && (r.Ok? ==> r.value.executed == (compile.exitCode == 0 && execute.exitCode == 0))
  {
    if compile.exitCode != 0 {
      ScriptCompileFailMarked(compile, execute);
    } else if execute.exitCode != 0 {
      ScriptExecFailMarked(compile, execute);
    } else {
      ScriptCleanUnmarked(compile, execute);
    }
  }

  /** `TestInfo`: the test file a combined benchmark is written to, and the
      version (slow or fast) chosen for each task in it. */
  datatype TestInfo = TestInfo(testFile: string, choices: seq<int>)

  // ---------------------------------------------------------------------
  // The code as written
  // ---------------------------------------------------------------------

  /** `create` as `src/utils.py` writes it: its first step reads
      `Benchmarker.compFailMsg`, an attribute `Benchmarker` does not define. */
  datatype AsWrittenError = MissingAttribute(name: string)

  function CreateAsWritten(filename: string, code: string, benchmarkCode: string, output: Output,
                           readRuntime: string -> JsonRead): (r: Result<BenchmarkResult, AsWrittenError>)
    ensures r.Err? && r.error == MissingAttribute("compFailMsg")
  {
    Err(MissingAttribute("compFailMsg"))
  }

  /** No call of the code as written produces a record, while the corrected
      `Create` produces one for every run that did not execute. */
  lemma CreateAsWrittenNeverClassifies(filename: string, code: string, benchmarkCode: string, output: Output,
                                       readRuntime: string -> JsonRead)
    requires Contains(output.stderr, CompilationFailed) || Contains(output.stderr, ExecutionFailed)
    ensures CreateAsWritten(filename, code, benchmarkCode, output, readRuntime).Err?
    ensures Create(filename, code, benchmarkCode, output, readRuntime).Ok?
  {
  }
}

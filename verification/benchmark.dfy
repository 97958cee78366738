/** The benchmark runner of `src/benchmark.py`: the C++ harness a snippet is
    pasted into, the shell script the container runs, and the reader that
    splits Docker's multiplexed attach stream back into stdout and stderr. */
module Benchmark {
  import opened Wrappers
  import opened Text
  import opened StrFormat

  /** A snippet ready for benchmarking: the `#include` lines it needs, the
      definitions that live outside `main`, and the statements to time. */
  datatype Code = Code(includes: seq<string>, additionalDefs: string, body: string)

  datatype NanobenchOptions = NanobenchOptions(
    epochs: int,
    minEpochIterations: int,
    minEpochTimeMs: int,
    outputTemplate: string)

  /** The mustache template nanobench renders its result with: one JSON
      object holding the average runtime, with the quotes backslash-escaped
      because the text is pasted inside a C++ string literal. */
  const DefaultOutputTemplate: string :=
    "{ {{#result}} \\\"runtimeAvg\\\": {{average(elapsed)}} {{/result}} }"

  const DefaultOptions := NanobenchOptions(15, 10, 100, DefaultOutputTemplate)

  datatype Output = Output(stdout: string, stderr: string)

  // ---------------------------------------------------------------------
  // The harness program
  // ---------------------------------------------------------------------

  const HarnessHeader: string := "#include \"nanobench.h\"\n#include <iostream>\n#include <chrono>\n"

  /** The harness source of `Benchmarker.codeTemplate`, read into literal
      pieces and replacement fields; `Unparse` writes it back with doubled
      braces. */
  const HarnessPieces: seq<Piece> := [
    Lit(HarnessHeader),
    Field("includes"),
    Lit("\n\n"),
    Field("additionalDefs"),
    Lit("\n\nvoid benchmarkFunc() {\n    "),
    Field("benchmarkBody"),
    Lit("\n}\n\nint main() {\n    ankerl::nanobench::Bench benchmark;\n    benchmark\n    .output(nullptr)\n    .epochs("),
    Field("epochs"),
    Lit(")\n    .minEpochIterations("),
    Field("minEpochIterations"),
    Lit(")\n    .minEpochTime(std::chrono::duration_cast<std::chrono::nanoseconds>(\n        std::chrono::milliseconds("),
    Field("minEpochTimeMs"),
    Lit(")\n    ));\n    benchmark.run(\"test\", []() {benchmarkFunc();});\n    benchmark.render(\""),
    Field("nanobenchOutputTemplate"),
    Lit("\", std::cerr);\n}\n")
  ]

  /** The keyword arguments `renderTemplate` passes to `str.format`. */
  function HarnessEnv(code: Code, options: NanobenchOptions): map<string, string>
  {
    map[
      "includes" := Join("\n", code.includes),
      "additionalDefs" := code.additionalDefs,
      "benchmarkBody" := code.body,
      "epochs" := IntToString(options.epochs),
      "minEpochIterations" := IntToString(options.minEpochIterations),
      "minEpochTimeMs" := IntToString(options.minEpochTimeMs),
      "nanobenchOutputTemplate" := options.outputTemplate
    ]
  }

  lemma HarnessPiecesWellFormed(code: Code, options: NanobenchOptions)
    ensures WellFormedTemplate(HarnessPieces, HarnessEnv(code, options))
  {
    var env := HarnessEnv(code, options);
    assert forall i :: 0 <= i < |HarnessPieces| && HarnessPieces[i].Field? ==>
      i % 2 == 1 && HarnessPieces[i].name == HarnessFieldOrder[i / 2] && HarnessPieces[i].name in env;
    HarnessFieldNamesLetters();
    forall j | 0 <= j < |HarnessFieldOrder| ensures PlainName(HarnessFieldOrder[j]) {
      LetterNameIsPlain(HarnessFieldOrder[j]);
    }
  }

  lemma HarnessFieldNamesLetters()
    ensures forall j :: 0 <= j < |HarnessFieldOrder| ==> LetterName(HarnessFieldOrder[j])
  {
    CodeFieldNamesLetters();
    OptionFieldNamesLetters();
  }

  lemma CodeFieldNamesLetters()
    ensures LetterName("includes") && LetterName("additionalDefs") && LetterName("benchmarkBody")
  {
  }

  lemma OptionFieldNamesLetters()
    ensures LetterName("epochs") && LetterName("minEpochIterations") && LetterName("minEpochTimeMs")
    ensures LetterName("nanobenchOutputTemplate")
  {
  }

  /** The replacement fields of the harness in order, each a plain letter name. */
  const HarnessFieldOrder: seq<string> :=
    ["includes", "additionalDefs", "benchmarkBody", "epochs", "minEpochIterations", "minEpochTimeMs",
     "nanobenchOutputTemplate"]

  /** `Benchmarker.renderTemplate`: the snippet pasted into the harness, the
      includes one per line. */
  function RenderTemplate(code: Code, options: NanobenchOptions): (r: string)
    ensures StartsWith(r, HarnessHeader)
  {
    HarnessPiecesWellFormed(code, options);
    var r := Format(HarnessPieces, HarnessEnv(code, options));
    assert r == HarnessHeader + Format(HarnessPieces[1..], HarnessEnv(code, options));
    assert r[..|HarnessHeader|] == HarnessHeader;
    r
  }

  /** Rendering is what Python's `str.format` makes of the written template. */
  lemma RenderTemplateIsStrFormat(code: Code, options: NanobenchOptions)
    ensures FormatString(Unparse(HarnessPieces), HarnessEnv(code, options)) == Ok(RenderTemplate(code, options))
  {
    HarnessPiecesWellFormed(code, options);
    FormatStringOfUnparse(HarnessPieces, HarnessEnv(code, options));
  }

  /** With the default options the harness runs 15 epochs of at least 10
      iterations and 100 ms each. */
  lemma DefaultOptionsRendered(code: Code)
    ensures HarnessEnv(code, DefaultOptions)["epochs"] == "15"
    ensures HarnessEnv(code, DefaultOptions)["minEpochIterations"] == "10"
    ensures HarnessEnv(code, DefaultOptions)["minEpochTimeMs"] == "100"
    ensures HarnessEnv(code, DefaultOptions)["nanobenchOutputTemplate"] == DefaultOutputTemplate
  {
    assert NatToString(1) == "1";
    assert NatToString(10) == NatToString(1) + [DigitChar(0)];
    assert NatToString(15) == NatToString(1) + [DigitChar(5)];
    assert NatToString(100) == NatToString(10) + [DigitChar(0)];
  }

  // ---------------------------------------------------------------------
  // The container script
  // ---------------------------------------------------------------------

  /** The lines the script writes to stderr when a step fails. */
  const CompilationFailed: string := "Compilation failed"
  const ExecutionFailed: string := "Execution failed"

  /** What one step of the script (compiling, then running) did. */
  datatype StepResult = StepResult(exitCode: int, stderr: string)

  /** The stderr of `sh -c "g++ …; if failed, echo Compilation failed; ./a.out;
      if failed, echo Execution failed"`: the compiler's own stderr, then either
      the compile marker and nothing more, or the program's stderr followed by
      the execution marker when it exits non-zero. */
  function ScriptStderr(compile: StepResult, execute: StepResult): (r: string)
    ensures StartsWith(r, compile.stderr)
    ensures compile.exitCode != 0 ==> r == compile.stderr + CompilationFailed + "\n"
    ensures compile.exitCode == 0 && execute.exitCode == 0 ==> r == compile.stderr + execute.stderr
  {
    var r := if compile.exitCode != 0 then compile.stderr + CompilationFailed + "\n"
      else compile.stderr + execute.stderr + (if execute.exitCode != 0 then ExecutionFailed + "\n" else "");
    assert r[..|compile.stderr|] == compile.stderr;
    r
  }

  // ---------------------------------------------------------------------
  // Demultiplexing the attach stream
  // ---------------------------------------------------------------------

  type Bytes = seq<bv8>

  /** Stream identifiers in a frame header. */
  const StdoutStream: bv8 := 1
  const StderrStream: bv8 := 2

  /** `stdout | stderr << 1`: bit 0 asks for stdout, bit 1 for stderr. */
  function StreamMask(stdout: bool, stderr: bool): (m: bv8)
    ensures m & StdoutStream != 0 <==> stdout
    ensures m & StderrStream != 0 <==> stderr
    ensures m & 0xFC == 0
  {
    (if stdout then 1 else 0) | (if stderr then 2 else 0)
  }

  /** `sock.recv(n)` on a socket whose remaining content is `s`: the next
      `n` bytes, or all that is left. A socket that returns fewer bytes while
      more are still coming is not modelled. */
  function Recv(s: Bytes, n: nat): (r: Bytes)
    ensures |r| == (if n <= |s| then n else |s|) && r == s[..|r|]
  {
    s[..if n <= |s| then n else |s|]
  }

  /** `struct.unpack(">I", b)`: four bytes as a big-endian unsigned number. */
  function BigEndianU32(b: Bytes): (n: nat)
    requires |b| == 4
    ensures n < 0x1_0000_0000
  {
    ((b[0] as nat * 256 + b[1] as nat) * 256 + b[2] as nat) * 256 + b[3] as nat
  }

  /** The byte holding the number `x`. */
  function ByteOf(x: nat): (b: bv8)
    requires x < 256
    ensures b as nat == x
  {
    if x == 0 then 0 else ByteOf(x - 1) + 1
  }

  /** The four bytes `struct.pack(">I", n)` writes. */
  function BigEndianBytes(n: nat): (b: Bytes)
    requires n < 0x1_0000_0000
    ensures |b| == 4 && BigEndianU32(b) == n
  {
    var q1 := n / 256;
    var q2 := q1 / 256;
    var q3 := q2 / 256;
    var d0, d1, d2, d3 := q3, q2 % 256, q1 % 256, n % 256;
    assert q3 < 256;
    var b := [ByteOf(d0), ByteOf(d1), ByteOf(d2), ByteOf(d3)];
    assert BigEndianU32(b) == ((d0 * 256 + d1) * 256 + d2) * 256 + d3;
    b
  }

  /** What has been collected so far: `buffers[1]` and `buffers[2]`. */
  datatype Buffers = Buffers(stdout: Bytes, stderr: Bytes)

  const NoOutput := Buffers([], [])

  /** `buffers[streamID] += payload` for an identifier past the end of the
      three-element buffer list. */
  datatype StreamError = StreamIndexError(streamId: bv8)

  /** Whether the stream `id` is among those the mask asks for. */
  predicate Requested(id: bv8, mask: bv8) {
    id & mask != 0
  }

  /** The loop of `readStreamsFromSock` on a socket holding `sock`: read an
      eight-byte header, stop on a short header, read the payload, stop on an
      empty or short payload, keep the payload when its stream is selected,
      and fail on a selected stream the buffer list does not have. */
  function Demux(sock: Bytes, mask: bv8, acc: Buffers): Result<Buffers, StreamError>
    decreases |sock|
  {
    var header := Recv(sock, 8);
    if |header| < 8 then Ok(acc)
    else
      var id := header[0];
      var len := BigEndianU32(header[4..8]);
      var payload := Recv(sock[8..], len);
      if len > 0 && |payload| == len then
        var rest := sock[8 + len..];
        if !Requested(id, mask) then Demux(rest, mask, acc)
        else if id == StdoutStream then Demux(rest, mask, acc.(stdout := acc.stdout + payload))
        else if id == StderrStream then Demux(rest, mask, acc.(stderr := acc.stderr + payload))
        else Err(StreamIndexError(id))
      else Ok(acc)
  }

  /** The reader only appends to the buffers and leaves a stream that is
      not requested as it was. */
  lemma {:induction false} DemuxAppendsOnly(sock: Bytes, mask: bv8, acc: Buffers)
    ensures var r := Demux(sock, mask, acc);
      && (r.Ok? ==> acc.stdout <= r.value.stdout && acc.stderr <= r.value.stderr)
      && (r.Ok? && StdoutStream & mask == 0 ==> r.value.stdout == acc.stdout)
      && (r.Ok? && StderrStream & mask == 0 ==> r.value.stderr == acc.stderr)
    decreases |sock|
  {
    var header := Recv(sock, 8);
    if |header| == 8 {
      var id := header[0];
      var len := BigEndianU32(header[4..8]);
      var payload := Recv(sock[8..], len);
      if len > 0 && |payload| == len {
        var rest := sock[8 + len..];
        if !Requested(id, mask) {
          assert Demux(sock, mask, acc) == Demux(rest, mask, acc);
          DemuxAppendsOnly(rest, mask, acc);
        } else if id == StdoutStream {
          var acc1 := acc.(stdout := acc.stdout + payload);
          assert Demux(sock, mask, acc) == Demux(rest, mask, acc1);
          DemuxAppendsOnly(rest, mask, acc1);
        } else if id == StderrStream {
          var acc1 := acc.(stderr := acc.stderr + payload);
          assert Demux(sock, mask, acc) == Demux(rest, mask, acc1);
          DemuxAppendsOnly(rest, mask, acc1);
        }
      }
    }
  }

  /** The reader fails only on a requested stream identifier other than
      stdout's and stderr's. */
  lemma {:induction false} DemuxFailsOnlyOnUnknown(sock: Bytes, mask: bv8, acc: Buffers)
    ensures var r := Demux(sock, mask, acc);
      r.Err? ==> Requested(r.error.streamId, mask)
                 && r.error.streamId != StdoutStream && r.error.streamId != StderrStream
    decreases |sock|
  {
    var header := Recv(sock, 8);
    if |header| == 8 {
      var id := header[0];
      var len := BigEndianU32(header[4..8]);
      var payload := Recv(sock[8..], len);
      if len > 0 && |payload| == len {
        var rest := sock[8 + len..];
        if !Requested(id, mask) {
          DemuxFailsOnlyOnUnknown(rest, mask, acc);
        } else if id == StdoutStream {
          DemuxFailsOnlyOnUnknown(rest, mask, acc.(stdout := acc.stdout + payload));
        } else if id == StderrStream {
          DemuxFailsOnlyOnUnknown(rest, mask, acc.(stderr := acc.stderr + payload));
        } else {
          assert Demux(sock, mask, acc) == Err(StreamIndexError(id));
        }
      }
    }
  }

  /** `Benchmarker.readStreamsFromSock`; `decode` stands for
      `bytes.decode(errors="ignore")`. */
  function ReadStreamsFromSock(sock: Bytes, stdout: bool, stderr: bool, decode: Bytes -> string): (r: Result<Output, StreamError>)
    ensures r.Ok? <==> Demux(sock, StreamMask(stdout, stderr), NoOutput).Ok?
    ensures r.Ok? ==> r.value == Output(decode(Demux(sock, StreamMask(stdout, stderr), NoOutput).value.stdout),
                                        decode(Demux(sock, StreamMask(stdout, stderr), NoOutput).value.stderr))
    ensures r.Err? ==> r.error == Demux(sock, StreamMask(stdout, stderr), NoOutput).error
    ensures r.Ok? && !stdout ==> r.value.stdout == decode([])
    ensures r.Ok? && !stderr ==> r.value.stderr == decode([])
    ensures r.Err? ==> r.error.streamId != StdoutStream && r.error.streamId != StderrStream
                       && Requested(r.error.streamId, StreamMask(stdout, stderr))
  {
    DemuxAppendsOnly(sock, StreamMask(stdout, stderr), NoOutput);
    DemuxFailsOnlyOnUnknown(sock, StreamMask(stdout, stderr), NoOutput);
    match Demux(sock, StreamMask(stdout, stderr), NoOutput)
    case Ok(b) => Ok(Output(decode(b.stdout), decode(b.stderr)))
    case Err(e) => Err(e)
  }

  // ---------------------------------------------------------------------
  // The writer side: Docker's framing, as the partner of the reader
  // ---------------------------------------------------------------------

  /** One frame of the attach stream: a stream identifier, three bytes Docker
      leaves zero, and the payload. */
  datatype Frame = Frame(streamId: bv8, reserved: Bytes, payload: Bytes)

  predicate ValidFrame(f: Frame) {
    |f.reserved| == 3 && 0 < |f.payload| < 0x1_0000_0000
  }

  /** A frame the reader can consume without failing under `mask`. */
  predicate Routable(f: Frame, mask: bv8) {
    f.streamId & mask == 0 || f.streamId == StdoutStream || f.streamId == StderrStream
  }

  function EncodeFrame(f: Frame): (b: Bytes)
    requires ValidFrame(f)
    ensures |b| == 8 + |f.payload|
  {
    [f.streamId] + f.reserved + BigEndianBytes(|f.payload|) + f.payload
  }

  function Encode(frames: seq<Frame>): Bytes
    requires forall i :: 0 <= i < |frames| ==> ValidFrame(frames[i])
  {
    if |frames| == 0 then [] else EncodeFrame(frames[0]) + Encode(frames[1..])
  }

  /** The payloads, in order, of the frames on stream `id` when `mask` selects it. */
  function Collect(frames: seq<Frame>, id: bv8, mask: bv8): Bytes
  {
    if |frames| == 0 then []
    else Own(frames[0], id, mask) + Collect(frames[1..], id, mask)
  }

  function Deliver(acc: Buffers, f: Frame, mask: bv8): Buffers
  {
    if f.streamId & mask == 0 then acc
    else if f.streamId == StdoutStream then acc.(stdout := acc.stdout + f.payload)
    else if f.streamId == StderrStream then acc.(stderr := acc.stderr + f.payload)
    else acc
  }

  /** Where the parts of an encoded frame sit. */
  lemma FrameLayout(f: Frame, rest: Bytes)
    requires ValidFrame(f)
    ensures var s := EncodeFrame(f) + rest;
      |s| >= 8 + |f.payload| && s[0] == f.streamId && s[4..8] == BigEndianBytes(|f.payload|)
      && s[8..8 + |f.payload|] == f.payload && s[8 + |f.payload|..] == rest
  {
    var s := EncodeFrame(f) + rest;
    var len := |f.payload|;
    var h := [f.streamId] + f.reserved + BigEndianBytes(len);
    assert EncodeFrame(f) == h + f.payload;
    assert s == h + (f.payload + rest);
    assert s[4..8] == h[4..8];
    assert s[8..] == f.payload + rest;
    assert s[8..8 + len] == s[8..][..len];
  }

  /** The reader consumes exactly one encoded frame per round. */
  lemma DemuxFrame(f: Frame, rest: Bytes, mask: bv8, acc: Buffers)
    requires ValidFrame(f) && Routable(f, mask)
    ensures Demux(EncodeFrame(f) + rest, mask, acc) == Demux(rest, mask, Deliver(acc, f, mask))
  {
    var s := EncodeFrame(f) + rest;
    var len := |f.payload|;
    FrameLayout(f, rest);
    var header := Recv(s, 8);
    assert header[0] == f.streamId && header[4..8] == s[4..8];
    assert BigEndianU32(header[4..8]) == len;
    assert Recv(s[8..], len) == f.payload;
  }

  lemma EncodeCons(frames: seq<Frame>, rest: Bytes)
    requires |frames| > 0 && forall i :: 0 <= i < |frames| ==> ValidFrame(frames[i])
    ensures Encode(frames) + rest == EncodeFrame(frames[0]) + (Encode(frames[1..]) + rest)
  {
  }

  /** The part of one frame that `Collect` keeps for stream `id`. */
  function Own(f: Frame, id: bv8, mask: bv8): Bytes
  {
    if f.streamId == id && id & mask != 0 then f.payload else []
  }

  lemma DeliverOwn(acc: Buffers, f: Frame, mask: bv8)
    ensures Deliver(acc, f, mask) == Buffers(acc.stdout + Own(f, StdoutStream, mask), acc.stderr + Own(f, StderrStream, mask))
  {
    if f.streamId & mask == 0 {
      assert acc.stdout + [] == acc.stdout && acc.stderr + [] == acc.stderr;
    } else if f.streamId == StdoutStream {
      assert acc.stderr + [] == acc.stderr;
    } else if f.streamId == StderrStream {
      assert acc.stdout + [] == acc.stdout;
    } else {
      assert acc.stdout + [] == acc.stdout && acc.stderr + [] == acc.stderr;
    }
  }

  lemma CollectStep(frames: seq<Frame>, id: bv8, mask: bv8, prefix: Bytes)
    requires |frames| > 0
    ensures prefix + Own(frames[0], id, mask) + Collect(frames[1..], id, mask) == prefix + Collect(frames, id, mask)
  {
    var own := Own(frames[0], id, mask);
    var others := Collect(frames[1..], id, mask);
    assert Collect(frames, id, mask) == own + others;
    AppendThree(prefix, own, others);
  }


  /** Delivering the first frame, then collecting the others, collects them all. */
  lemma DeliverThenCollect(frames: seq<Frame>, mask: bv8, acc: Buffers)
    requires |frames| > 0
    ensures var acc1 := Deliver(acc, frames[0], mask);
      acc1.stdout + Collect(frames[1..], StdoutStream, mask) == acc.stdout + Collect(frames, StdoutStream, mask)
      && acc1.stderr + Collect(frames[1..], StderrStream, mask) == acc.stderr + Collect(frames, StderrStream, mask)
  {
    DeliverOwn(acc, frames[0], mask);
    CollectStep(frames, StdoutStream, mask, acc.stdout);
    CollectStep(frames, StderrStream, mask, acc.stderr);
  }

  /** Reading a run of encoded frames appends each selected payload to its stream. */
  lemma {:induction false} DemuxFrames(frames: seq<Frame>, rest: Bytes, mask: bv8, acc: Buffers)
    requires forall i :: 0 <= i < |frames| ==> ValidFrame(frames[i]) && Routable(frames[i], mask)
    ensures Demux(Encode(frames) + rest, mask, acc)
         == Demux(rest, mask, Buffers(acc.stdout + Collect(frames, StdoutStream, mask),
                                      acc.stderr + Collect(frames, StderrStream, mask)))
  {
    if |frames| == 0 {
      assert Encode(frames) + rest == rest;
      assert acc.stdout + [] == acc.stdout && acc.stderr + [] == acc.stderr;
    } else {
      EncodeCons(frames, rest);
      DemuxFrame(frames[0], Encode(frames[1..]) + rest, mask, acc);
      var acc1 := Deliver(acc, frames[0], mask);
      DemuxFrames(frames[1..], rest, mask, acc1);
      DeliverThenCollect(frames, mask, acc);
    }
  }

  /** Round trip: reading an encoded stream that ends cleanly (or in fewer
      than eight stray bytes) gives each selected stream's payloads in order. */
  lemma DemuxEncode(frames: seq<Frame>, tail: Bytes, mask: bv8)
    requires forall i :: 0 <= i < |frames| ==> ValidFrame(frames[i]) && Routable(frames[i], mask)
    requires |tail| < 8
    ensures Demux(Encode(frames) + tail, mask, NoOutput)
         == Ok(Buffers(Collect(frames, StdoutStream, mask), Collect(frames, StderrStream, mask)))
  {
    DemuxFrames(frames, tail, mask, NoOutput);
    CollectFromNothing(frames, mask);
  }

  /** A frame announcing an empty payload ends the read: whatever follows it is lost. */
  lemma DemuxStopsAtEmptyFrame(frames: seq<Frame>, id: bv8, reserved: Bytes, after: Bytes, mask: bv8)
    requires forall i :: 0 <= i < |frames| ==> ValidFrame(frames[i]) && Routable(frames[i], mask)
    requires |reserved| == 3
    ensures Demux(Encode(frames) + ([id] + reserved + [0, 0, 0, 0] + after), mask, NoOutput)
         == Ok(Buffers(Collect(frames, StdoutStream, mask), Collect(frames, StderrStream, mask)))
  {
    var rest := [id] + reserved + [0, 0, 0, 0] + after;
    DemuxFrames(frames, rest, mask, NoOutput);
    assert rest[4..8] == [0, 0, 0, 0];
    CollectFromNothing(frames, mask);
    DemuxEmptyFrame(rest, mask, Buffers(Collect(frames, StdoutStream, mask), Collect(frames, StderrStream, mask)));
  }

  /** A header announcing no payload ends the read with what was collected. */
  lemma DemuxEmptyFrame(sock: Bytes, mask: bv8, acc: Buffers)
    requires |sock| >= 8 && sock[4..8] == [0, 0, 0, 0]
    ensures Demux(sock, mask, acc) == Ok(acc)
  {
    var header := Recv(sock, 8);
    assert header[4..8] == sock[4..8];
  }

  /** A frame cut short by the end of the stream is dropped, not half-delivered. */
  lemma DemuxDropsTruncatedFrame(frames: seq<Frame>, f: Frame, n: nat, mask: bv8)
    requires forall i :: 0 <= i < |frames| ==> ValidFrame(frames[i]) && Routable(frames[i], mask)
    requires ValidFrame(f) && n < |EncodeFrame(f)|
    ensures Demux(Encode(frames) + EncodeFrame(f)[..n], mask, NoOutput)
         == Ok(Buffers(Collect(frames, StdoutStream, mask), Collect(frames, StderrStream, mask)))
  {
    DemuxFrames(frames, EncodeFrame(f)[..n], mask, NoOutput);
    CollectFromNothing(frames, mask);
    DemuxTruncated(f, n, mask, Buffers(Collect(frames, StdoutStream, mask), Collect(frames, StderrStream, mask)));
  }

  /** The reader stops, keeping what it has, on a proper prefix of a frame. */
  lemma DemuxTruncated(f: Frame, n: nat, mask: bv8, acc: Buffers)
    requires ValidFrame(f) && n < |EncodeFrame(f)|
    ensures Demux(EncodeFrame(f)[..n], mask, acc) == Ok(acc)
  {
    var rest := EncodeFrame(f)[..n];
    if n >= 8 {
      FrameLayout(f, []);
      assert EncodeFrame(f) + [] == EncodeFrame(f);
      var e := EncodeFrame(f);
      var header := Recv(rest, 8);
      assert header == e[..8];
      assert header[4..8] == e[4..8];
      assert BigEndianU32(header[4..8]) == |f.payload|;
      assert |rest[8..]| == n - 8 < |f.payload|;
    }
  }

  lemma CollectFromNothing(frames: seq<Frame>, mask: bv8)
    ensures Buffers(NoOutput.stdout + Collect(frames, StdoutStream, mask), NoOutput.stderr + Collect(frames, StderrStream, mask))
         == Buffers(Collect(frames, StdoutStream, mask), Collect(frames, StderrStream, mask))
  {
    assert [] + Collect(frames, StdoutStream, mask) == Collect(frames, StdoutStream, mask);
    assert [] + Collect(frames, StderrStream, mask) == Collect(frames, StderrStream, mask);
  }

  /** A selected frame on a stream other than stdout or stderr makes the
      reader fail with an index error, after everything before it was read. */
  lemma DemuxRejectsUnknownStream(frames: seq<Frame>, f: Frame, after: Bytes, mask: bv8)
    requires forall i :: 0 <= i < |frames| ==> ValidFrame(frames[i]) && Routable(frames[i], mask)
    requires ValidFrame(f) && f.streamId & mask != 0 && f.streamId != StdoutStream && f.streamId != StderrStream
    ensures Demux(Encode(frames) + (EncodeFrame(f) + after), mask, NoOutput) == Err(StreamIndexError(f.streamId))
  {
    DemuxFrames(frames, EncodeFrame(f) + after, mask, NoOutput);
    DemuxUnknown(f, after, mask, Buffers(NoOutput.stdout + Collect(frames, StdoutStream, mask),
                                         NoOutput.stderr + Collect(frames, StderrStream, mask)));
  }

  /** The reader fails on one selected frame of an unknown stream. */
  lemma DemuxUnknown(f: Frame, after: Bytes, mask: bv8, acc: Buffers)
    requires ValidFrame(f) && f.streamId & mask != 0 && f.streamId != StdoutStream && f.streamId != StderrStream
    ensures Demux(EncodeFrame(f) + after, mask, acc) == Err(StreamIndexError(f.streamId))
  {
    FrameLayout(f, after);
    var rest := EncodeFrame(f) + after;
    var header := Recv(rest, 8);
    assert header[0] == f.streamId && header[4..8] == rest[4..8];
    assert BigEndianU32(header[4..8]) == |f.payload|;
    assert Recv(rest[8..], |f.payload|) == f.payload;
  }

  /** A stream that is not asked for comes back empty. */
  lemma {:induction false} CollectUnselected(frames: seq<Frame>, id: bv8, mask: bv8)
    requires id & mask == 0
    ensures Collect(frames, id, mask) == []
  {
    if |frames| > 0 {
      CollectUnselected(frames[1..], id, mask);
    }
  }

  /** `readStreamsFromSock` on an encoded stream: each requested stream's
      payloads, decoded, and an empty string for a stream not requested. */
  lemma ReadStreamsOfEncoded(frames: seq<Frame>, stdout: bool, stderr: bool, decode: Bytes -> string)
    requires forall i :: 0 <= i < |frames| ==> ValidFrame(frames[i]) && Routable(frames[i], StreamMask(stdout, stderr))
    ensures ReadStreamsFromSock(Encode(frames), stdout, stderr, decode)
         == Ok(Output(decode(Collect(frames, StdoutStream, StreamMask(stdout, stderr))),
                      decode(Collect(frames, StderrStream, StreamMask(stdout, stderr)))))
    ensures !stdout ==> Collect(frames, StdoutStream, StreamMask(stdout, stderr)) == []
    ensures !stderr ==> Collect(frames, StderrStream, StreamMask(stdout, stderr)) == []
  {
    var mask := StreamMask(stdout, stderr);
    DemuxEncode(frames, [], mask);
    assert Encode(frames) + [] == Encode(frames);
    if !stdout { CollectUnselected(frames, StdoutStream, mask); }
    if !stderr { CollectUnselected(frames, StderrStream, mask); }
  }
}

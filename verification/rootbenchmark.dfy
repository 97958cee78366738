/** The older top-level `benchmark.py`: the same attach-stream reader written
    as a loop over the socket, returning a dictionary with the keys `stdout`
    and `stderr`. It is shown to agree with `Benchmark.ReadStreamsFromSock`. */
module RootBenchmark {
  import opened Wrappers
  import Benchmark

  /** `readStreamsFromSock` of `benchmark.py`. */
  method ReadStreamsFromSock(sock: Benchmark.Bytes, stdout: bool, stderr: bool, decode: Benchmark.Bytes -> string)
    returns (r: Result<map<string, string>, Benchmark.StreamError>)
    ensures var ref := Benchmark.ReadStreamsFromSock(sock, stdout, stderr, decode);
      && (r.Ok? <==> ref.Ok?)
      && (r.Ok? ==> r.value.Keys == {"stdout", "stderr"}
                    && r.value["stdout"] == ref.value.stdout && r.value["stderr"] == ref.value.stderr)
      && (r.Err? ==> r.error == ref.error)
  {
    var mask := Benchmark.StreamMask(stdout, stderr);
    var out: Benchmark.Bytes, err: Benchmark.Bytes := [], [];
    // what the socket still holds
    var unread := sock;
    while true
      invariant Benchmark.Demux(unread, mask, Benchmark.Buffers(out, err))
             == Benchmark.Demux(sock, mask, Benchmark.NoOutput)
      decreases |unread|
    {
      var header := Benchmark.Recv(unread, 8);
      if |header| < 8 {
        break;
      }
      var id := header[0];
      var len := Benchmark.BigEndianU32(header[4..8]);
      var payload := Benchmark.Recv(unread[8..], len);
      if !(len > 0 && |payload| == len) {
        break;
      }
      if Benchmark.Requested(id, mask) {
        if id == Benchmark.StdoutStream {
          out := out + payload;
        } else if id == Benchmark.StderrStream {
          err := err + payload;
        } else {
          return Err(Benchmark.StreamIndexError(id));
        }
      }
      unread := unread[8 + len..];
    }
    return Ok(map["stdout" := decode(out), "stderr" := decode(err)]);
  }
}

/**
 The transfer engine of gobble: `bufWrite`, which routes a buffer to standard
 output or to the output file, and `copyContent`, which copies a response
 body to that destination in fixed-size chunks and reports a running total
 after every full chunk.
 */
module Gobble {
  import opened GoIo

  /** The chunk size of the copy loop (the package-level `numBytes`). */
  const NumBytes: nat := 40960

  datatype Error =
    | Io(io: IoError)                         // an error from a reader or writer
    | ShortWrite(read: nat, written: nat)     // the integrity check of the copy loop
    | BadUrl(code: nat)                       // `url.Parse` refused the target
    | NoFileName                              // no output name could be derived

  /** How a call of `copyContent` ends: it returns `(n, err)` to `main`, or the
      process exits from inside it through `log.Fatal`. */
  datatype CopyOutcome = Returned(total: nat, err: Option<Error>) | Exited(cause: Error)

  // ---------------------------------------------------------------------------
  // bufWrite

  datatype BufWriteResult = BufWriteResult(n: nat, err: Option<IoError>, file: Option<Writer>, stdout: Writer)

  /** The sink a write is routed to: the output file, or standard output when
      there is none (a nil `*os.File`). */
  function Dest(file: Option<Writer>, stdout: Writer): Writer
  {
    if file.Some? then file.value else stdout
  }

  /** `bufWrite(content, file)`: standard output receives the call exactly when
      there is no file, the file otherwise, never both; the sink's `(n, err)`
      comes back unchanged. */
  function BufWrite(content: seq<byte>, file: Option<Writer>, stdout: Writer): (r: BufWriteResult)
    // standard output is written if and only if there is no file
    ensures r.stdout != stdout <==> file.None?
    ensures file.None? ==> r.file == None && r.stdout.calls == stdout.calls + [content] && r.stdout.script == stdout.script
    // the file is written if and only if there is one, and stdout is then untouched
    ensures file.Some? ==> r.stdout == stdout && r.file == Some(file.value.(calls := file.value.calls + [content]))
    // the reply is the chosen sink's reply to this call, passed through unchanged
    ensures WriteReply(r.n, r.err) == ReplyTo(Dest(file, stdout), 0, content)
    ensures Dest(r.file, r.stdout) == Dest(file, stdout).(calls := Dest(file, stdout).calls + [content])
  {
    if file.None? then
      var s := Write(stdout, content);
      BufWriteResult(s.reply.n, s.reply.err, None, s.writer)
    else
      var s := Write(file.value, content);
      BufWriteResult(s.reply.n, s.reply.err, Some(s.writer), stdout)
  }

  /** Every call in `writes` went, in order, to the destination that `file`
      selects, and the other sink was left alone. */
  predicate Routed(file: Option<Writer>, stdout: Writer, file': Option<Writer>, stdout': Writer, writes: seq<seq<byte>>)
  {
    && file'.Some? == file.Some?
    && (file.Some? ==> stdout' == stdout)
    && Dest(file', stdout') == Dest(file, stdout).(calls := Dest(file, stdout).calls + writes)
  }

  /** One more `bufWrite` keeps the routing, and its reply is the destination's
      reply to its next call. */
  lemma RoutedStep(file: Option<Writer>, stdout: Writer, file': Option<Writer>, stdout': Writer,
                   writes: seq<seq<byte>>, content: seq<byte>)
    requires Routed(file, stdout, file', stdout', writes)
    ensures var r := BufWrite(content, file', stdout');
            && Routed(file, stdout, r.file, r.stdout, writes + [content])
            && WriteReply(r.n, r.err) == ReplyTo(Dest(file, stdout), |writes|, content)
  {
    var w := Dest(file, stdout);
    assert (w.calls + writes) + [content] == w.calls + (writes + [content]);
  }

  // ---------------------------------------------------------------------------
  // The chunking of a body

  lemma MulMonotone(a: nat, b: nat, c: nat)
    requires a <= b
    ensures a * c <= b * c
  {
  }

  lemma MulSucc(i: nat, c: nat)
    ensures (i + 1) * c == i * c + c
  {
  }

  /** Where a chunk index stands with respect to the number of full chunks. */
  lemma ChunkArithmetic(i: nat, c: nat, len: nat)
    requires 0 < c && i * c <= len
    ensures i * c + c <= len <==> i < len / c
    ensures len < i * c + c ==> i == len / c
    ensures (len / c) * c <= len < (len / c) * c + c
  {
    var q, r := len / c, len % c;
    assert len == q * c + r && 0 <= r < c;
    assert (q + 1) * c == q * c + c;
    assert (i + 1) * c == i * c + c;
    assert i <= q;
    if i + 1 <= q {
      MulMonotone(i + 1, q, c);
    }
  }

  /** The `j`-th full chunk of `data`. */
  function ChunkAt(data: seq<byte>, c: nat, j: nat): (chunk: seq<byte>)
    requires 0 < c && j < |data| / c
    ensures |chunk| == c
  {
    ChunkArithmetic(0, c, |data|);
    assert j * c <= |data| by {
      assert j * c <= (|data| / c) * c;
    }
    ChunkArithmetic(j, c, |data|);
    data[j * c..j * c + c]
  }

  /** What is left of `data` after its full chunks. */
  function Leftover(data: seq<byte>, c: nat): (rest: seq<byte>)
    requires 0 < c
    ensures |rest| < c
  {
    ChunkArithmetic(0, c, |data|);
    data[(|data| / c) * c..]
  }

  /** The `j`-th full chunk of the body, written as the `j`-th call to `w`,
      is accepted whole. */
  predicate ChunkWriteOk(w: Writer, data: seq<byte>, c: nat, j: nat)
    requires 0 < c && j < |data| / c
  {
    WriteOk(ReplyTo(w, j, ChunkAt(data, c, j)), ChunkAt(data, c, j))
  }

  /** The index of the first full chunk whose write to `w` fails or falls
      short, searching from `j`; the number of full chunks when there is none. */
  function FirstFailedFrom(w: Writer, data: seq<byte>, c: nat, j: nat): (b: nat)
    requires 0 < c && j <= |data| / c
    ensures j <= b <= |data| / c
    ensures forall i :: j <= i < b ==> ChunkWriteOk(w, data, c, i)
    ensures b < |data| / c ==> !ChunkWriteOk(w, data, c, b)
    decreases |data| / c - j
  {
    if j == |data| / c || !ChunkWriteOk(w, data, c, j) then j
    else FirstFailedFrom(w, data, c, j + 1)
  }

  function FirstFailedWrite(w: Writer, data: seq<byte>, c: nat): (b: nat)
    requires 0 < c
    ensures b <= |data| / c
    ensures forall i :: 0 <= i < b ==> ChunkWriteOk(w, data, c, i)
    ensures b < |data| / c ==> !ChunkWriteOk(w, data, c, b)
  {
    FirstFailedFrom(w, data, c, 0)
  }

  /** A copy that runs to its regular end: every full chunk is written whole,
      the body ends cleanly, and the leftover write reports no error. */
  predicate CopySucceeds(body: Body, w: Writer, c: nat)
    requires 0 < c
  {
    var k := |body.data| / c;
    && FirstFailedWrite(w, body.data, c) == k
    && !body.end.Failed?
    && ReplyTo(w, k, Leftover(body.data, c)).err.None?
  }

  // ---------------------------------------------------------------------------
  // copyContent

  lemma FlattenSnoc(writes: seq<seq<byte>>, x: seq<byte>)
    ensures Flatten(writes + [x]) == Flatten(writes) + x
  {
    assert (writes + [x])[..|writes|] == writes;
  }

  /** Writes that are the first full chunks of `data`, in order, hand over
      exactly the bytes those chunks cover. */
  lemma {:induction false} FlattenOfChunks(data: seq<byte>, c: nat, writes: seq<seq<byte>>)
    requires 0 < c && |writes| <= |data| / c
    requires forall j :: 0 <= j < |writes| ==> writes[j] == ChunkAt(data, c, j)
    ensures |writes| * c <= |data| && Flatten(writes) == data[..|writes| * c]
  {
    if writes != [] {
      var j := |writes| - 1;
      var prior := writes[..j];
      FlattenOfChunks(data, c, prior);
      ChunkArithmetic(j, c, |data|);
      MulSucc(j, c);
      var lo := j * c;
      assert writes[j] == data[lo..lo + c];
      assert Flatten(writes) == Flatten(prior) + writes[j];
      assert data[..lo] + data[lo..lo + c] == data[..lo + c];
    }
  }

  /** The state of the copy loop after `|reports|` iterations against the sink
      `w`: each iteration wrote the next full chunk whole and reported the
      running total, so the bytes handed over are the body up to that total. */
  ghost predicate CopiedChunks(body: Body, w: Writer, c: nat, writes: seq<seq<byte>>, reports: seq<nat>)
    requires 0 < c
  {
    && |writes| == |reports| <= |body.data| / c
    && |reports| * c <= |body.data|
    && (forall j :: 0 <= j < |writes| ==> writes[j] == ChunkAt(body.data, c, j))
    && (forall j :: 0 <= j < |reports| ==> reports[j] == (j + 1) * c)
    && (forall j :: 0 <= j < |reports| ==> ChunkWriteOk(w, body.data, c, j))
    && Flatten(writes) == body.data[..|reports| * c]
  }

  /** What `copyContent` promises about one run against the sink `w`: the write
      calls it made (`writes`), the totals it reported (`reports`) and how it
      ended (`outcome`), for a body `body` and chunk size `c`. */
  ghost predicate CopyContract(body: Body, w: Writer, c: nat, outcome: CopyOutcome, writes: seq<seq<byte>>, reports: seq<nat>)
    requires 0 < c
  {
    var k := |body.data| / c;
    var b := FirstFailedWrite(w, body.data, c);
    // chunk shape: the in-loop writes are the full chunks of the body, in order
    && |writes| <= k + 1
    && (forall j :: 0 <= j < |writes| && j < k ==> writes[j] == ChunkAt(body.data, c, j))
    // the bytes handed to the sink are always a prefix of the body
    && |Flatten(writes)| <= |body.data|
    && Flatten(writes) == body.data[..|Flatten(writes)|]
    // one report per full chunk written whole, each the running total so far
    && |reports| == b
    && (forall j :: 0 <= j < |reports| ==> reports[j] == (j + 1) * c)
    // a failed or short in-loop write ends the copy right after that write
    && (b < k ==>
          && |writes| == b + 1
          && var reply := ReplyTo(w, b, ChunkAt(body.data, c, b));
             outcome == if reply.err.Some? then Exited(Io(reply.err.value))
                        else Returned(0, Some(ShortWrite(c, reply.n))))
    // a read error ends the copy with no further write
    && (b == k && body.end.Failed? ==>
          |writes| == k && outcome == Returned(0, Some(Io(body.end))))
    // otherwise exactly one final write of the leftover follows, whose count is not checked
    && (b == k && !body.end.Failed? ==>
          && |writes| == k + 1
          && writes[k] == Leftover(body.data, c)
          && var reply := ReplyTo(w, k, Leftover(body.data, c));
             outcome == if reply.err.Some? then Returned(0, Some(Io(reply.err.value)))
                        else Returned(|body.data|, None))
  }

  /** A full chunk written whole advances the loop state by that chunk. */
  lemma ChunkStep(body: Body, w: Writer, c: nat, writes: seq<seq<byte>>, reports: seq<nat>)
    requires 0 < c && CopiedChunks(body, w, c, writes, reports)
    requires |reports| < |body.data| / c && ChunkWriteOk(w, body.data, c, |reports|)
    ensures CopiedChunks(body, w, c, writes + [ChunkAt(body.data, c, |reports|)], reports + [(|reports| + 1) * c])
  {
    var i := |reports|;
    var chunk := ChunkAt(body.data, c, i);
    var writes', reports' := writes + [chunk], reports + [(i + 1) * c];
    ChunkArithmetic(i, c, |body.data|);
    assert (i + 1) * c == i * c + c;
    forall j | 0 <= j < |writes'|
      ensures writes'[j] == ChunkAt(body.data, c, j)
    {
      if j < i {
        assert writes'[j] == writes[j];
      }
    }
    forall j | 0 <= j < |reports'|
      ensures reports'[j] == (j + 1) * c && ChunkWriteOk(w, body.data, c, j)
    {
      if j < i {
        assert reports'[j] == reports[j];
      }
    }
    FlattenSnoc(writes, chunk);
    assert body.data[..i * c] + chunk == body.data[..(i + 1) * c];
  }

  /** The loop ends at the first in-loop write that fails or comes up short. */
  lemma WriteFailureExit(body: Body, w: Writer, c: nat, writes: seq<seq<byte>>, reports: seq<nat>)
    requires 0 < c && CopiedChunks(body, w, c, writes, reports)
    requires |reports| < |body.data| / c && !ChunkWriteOk(w, body.data, c, |reports|)
    ensures var chunk := ChunkAt(body.data, c, |reports|);
            var reply := ReplyTo(w, |reports|, chunk);
            CopyContract(body, w, c,
                         if reply.err.Some? then Exited(Io(reply.err.value)) else Returned(0, Some(ShortWrite(c, reply.n))),
                         writes + [chunk], reports)
  {
    var i := |reports|;
    assert FirstFailedWrite(w, body.data, c) == i;
    ChunkArithmetic(i, c, |body.data|);
    FlattenSnoc(writes, ChunkAt(body.data, c, i));
    assert body.data[..i * c] + body.data[i * c..i * c + c] == body.data[..i * c + c];
  }

  /** The loop ends at a read error, with no further write. */
  lemma ReadErrorExit(body: Body, w: Writer, c: nat, writes: seq<seq<byte>>, reports: seq<nat>)
    requires 0 < c && CopiedChunks(body, w, c, writes, reports)
    requires |body.data| < |reports| * c + c && body.end.Failed?
    ensures CopyContract(body, w, c, Returned(0, Some(Io(body.end))), writes, reports)
  {
    ChunkArithmetic(|reports|, c, |body.data|);
    assert FirstFailedWrite(w, body.data, c) == |reports|;
  }

  /** The regular end: one final write of the leftover, whose count is not
      checked. */
  lemma LeftoverExit(body: Body, w: Writer, c: nat, writes: seq<seq<byte>>, reports: seq<nat>, outcome: CopyOutcome)
    requires 0 < c && CopiedChunks(body, w, c, writes, reports)
    requires |body.data| < |reports| * c + c && !body.end.Failed?
    requires var reply := ReplyTo(w, |reports|, Leftover(body.data, c));
             outcome == if reply.err.Some? then Returned(0, Some(Io(reply.err.value))) else Returned(|body.data|, None)
    ensures CopyContract(body, w, c, outcome, writes + [Leftover(body.data, c)], reports)
  {
    var k := |reports|;
    ChunkArithmetic(k, c, |body.data|);
    assert k == |body.data| / c;
    assert FirstFailedWrite(w, body.data, c) == k;
    var lo := k * c;
    assert Leftover(body.data, c) == body.data[lo..];
    FlattenSnoc(writes, Leftover(body.data, c));
    assert body.data[..lo] + body.data[lo..] == body.data;
  }

  /** The first `n` full chunks of `data`, in order. */
  function FullChunks(data: seq<byte>, c: nat, n: nat): (chunks: seq<seq<byte>>)
    requires 0 < c && n <= |data| / c
    ensures |chunks| == n && forall j :: 0 <= j < n ==> chunks[j] == ChunkAt(data, c, j)
  {
    seq(n, j requires 0 <= j < n => ChunkAt(data, c, j))
  }

  /** The running totals reported after each of the first `n` full chunks. */
  function RunningTotals(c: nat, n: nat): (totals: seq<nat>)
    ensures |totals| == n && forall j :: 0 <= j < n ==> totals[j] == (j + 1) * c
  {
    seq(n, j => (j + 1) * c)
  }

  /** One run of the copy loop: how it ended, the contents of its write calls
      and the running totals it reported. */
  datatype Run = Run(outcome: CopyOutcome, writes: seq<seq<byte>>, reports: seq<nat>)

  /** The run `copyContent` makes, defined directly from the body and the
      sink's answers: the full chunks before the first one the sink does not
      take whole are written and reported; then the copy ends at that write,
      at a read error, or after one write of the leftover. */
  function ExpectedRun(body: Body, w: Writer, c: nat): Run
    requires 0 < c
  {
    var k := |body.data| / c;
    var b := FirstFailedWrite(w, body.data, c);
    var whole := FullChunks(body.data, c, b);
    var reports := RunningTotals(c, b);
    if b < k then
      var reply := ReplyTo(w, b, ChunkAt(body.data, c, b));
      Run(if reply.err.Some? then Exited(Io(reply.err.value)) else Returned(0, Some(ShortWrite(c, reply.n))),
          whole + [ChunkAt(body.data, c, b)], reports)
    else if body.end.Failed? then
      Run(Returned(0, Some(Io(body.end))), whole, reports)
    else
      var reply := ReplyTo(w, k, Leftover(body.data, c));
      Run(if reply.err.Some? then Returned(0, Some(Io(reply.err.value))) else Returned(|body.data|, None),
          whole + [Leftover(body.data, c)], reports)
  }

  /** The reference run keeps the contract. */
  lemma ExpectedRunMeetsContract(body: Body, w: Writer, c: nat)
    requires 0 < c
    ensures var r := ExpectedRun(body, w, c);
            CopyContract(body, w, c, r.outcome, r.writes, r.reports)
  {
    var k := |body.data| / c;
    var b := FirstFailedWrite(w, body.data, c);
    var whole := FullChunks(body.data, c, b);
    var reports := RunningTotals(c, b);
    ChunkArithmetic(0, c, |body.data|);
    MulMonotone(b, k, c);
    FlattenOfChunks(body.data, c, whole);
    assert CopiedChunks(body, w, c, whole, reports);
    var r := ExpectedRun(body, w, c);
    if b < k {
      assert r.writes == whole + [ChunkAt(body.data, c, b)] && r.reports == reports;
      WriteFailureExit(body, w, c, whole, reports);
    } else {
      ChunkArithmetic(b, c, |body.data|);
      if body.end.Failed? {
        assert r == Run(Returned(0, Some(Io(body.end))), whole, reports);
        ReadErrorExit(body, w, c, whole, reports);
      } else {
        assert r.writes == whole + [Leftover(body.data, c)] && r.reports == reports;
        LeftoverExit(body, w, c, whole, reports, r.outcome);
      }
    }
  }

  /** The contract determines a run completely: any run that keeps it is the
      reference run. */
  lemma ContractIsExpectedRun(body: Body, w: Writer, c: nat, outcome: CopyOutcome,
                              writes: seq<seq<byte>>, reports: seq<nat>)
    requires 0 < c && CopyContract(body, w, c, outcome, writes, reports)
    ensures Run(outcome, writes, reports) == ExpectedRun(body, w, c)
  {
    var r := ExpectedRun(body, w, c);
    ExpectedRunMeetsContract(body, w, c);
    var k := |body.data| / c;
    assert |writes| == |r.writes|;
    forall j | 0 <= j < |writes|
      ensures writes[j] == r.writes[j]
    {
      if j == k {
        assert !body.end.Failed?;
      }
    }
  }

  /** `copyContent(body, file, totalBytes)` with a buffer of `numBytes` bytes.
      Besides the outcome it yields the contents of the write calls it made
      (`writes`), the running totals it reported (`reports`) and the two sinks
      afterwards. */
  method CopyContent(body: Body, file: Option<Writer>, stdout: Writer, numBytes: nat)
    returns (outcome: CopyOutcome, writes: seq<seq<byte>>, reports: seq<nat>, file': Option<Writer>, stdout': Writer)
    requires 0 < numBytes
    // every bufWrite call goes to the one destination, in order
    ensures Routed(file, stdout, file', stdout', writes)
    // chunk shape, running totals and the way the copy ends
    ensures CopyContract(body, Dest(file, stdout), numBytes, outcome, writes, reports)
  {
    ghost var w0 := Dest(file, stdout);
    file', stdout' := file, stdout;
    writes, reports := [], [];
    var buffer: seq<byte> := seq(numBytes, _ => 0);
    var bytesRead: nat := 0;
    var pos: nat := 0;   // how far the reader has consumed the body
    var n: nat := 0;
    ChunkArithmetic(0, numBytes, |body.data|);
    while true
      invariant |buffer| == numBytes
      invariant CopiedChunks(body, w0, numBytes, writes, reports)
      invariant pos == |reports| * numBytes && bytesRead == pos
      invariant Routed(file, stdout, file', stdout', writes)
      decreases |body.data| - pos
    {
      ChunkArithmetic(|reports|, numBytes, |body.data|);
      var r := ReadFull(body, pos, numBytes);
      buffer := r.bytes + buffer[|r.bytes|..];
      n := |r.bytes|;
      if r.err.Some? {
        if r.err.value == EOF || r.err.value == UnexpectedEOF {
          break;   // the regular end of the body
        } else {
          ReadErrorExit(body, w0, numBytes, writes, reports);
          outcome := Returned(0, Some(Io(r.err.value)));
          return;
        }
      }
      ghost var i := |reports|;
      assert buffer == ChunkAt(body.data, numBytes, i);
      RoutedStep(file, stdout, file', stdout', writes, buffer);
      var out := BufWrite(buffer, file', stdout');
      assert WriteReply(out.n, out.err) == ReplyTo(w0, i, ChunkAt(body.data, numBytes, i));
      if out.err.Some? || out.n != n {
        WriteFailureExit(body, w0, numBytes, writes, reports);
        writes := writes + [buffer];
        file', stdout' := out.file, out.stdout;
        // a write error ends the process in `log.Fatal`; a short count is returned
        outcome := if out.err.Some? then Exited(Io(out.err.value)) else Returned(0, Some(ShortWrite(n, out.n)));
        return;
      }
      ChunkStep(body, w0, numBytes, writes, reports);
      MulSucc(i, numBytes);
      writes := writes + [buffer];
      file', stdout' := out.file, out.stdout;
      bytesRead := bytesRead + n;
      pos := pos + n;
      reports := reports + [bytesRead];
    }

    // write whatever is left
    assert buffer[..n] == Leftover(body.data, numBytes);
    RoutedStep(file, stdout, file', stdout', writes, buffer[..n]);
    var out := BufWrite(buffer[..n], file', stdout');
    assert WriteReply(out.n, out.err) == ReplyTo(w0, |reports|, Leftover(body.data, numBytes));
    ghost var prior := writes;
    writes := writes + [buffer[..n]];
    file', stdout' := out.file, out.stdout;
    if out.err.Some? {
      outcome := Returned(0, Some(Io(out.err.value)));
    } else {
      bytesRead := bytesRead + n;
      assert bytesRead == |body.data|;
      outcome := Returned(bytesRead, None);
    }
    LeftoverExit(body, w0, numBytes, prior, reports, outcome);
  }
}

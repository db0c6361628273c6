/**
 The slice of Go's `io` and `os` behaviour that the copy loop relies on:
 a response body read with `io.ReadFull`, and a writable sink (`os.Stdout`
 or an `*os.File`) whose answers to successive `Write` calls are given as a
 script, so that every short write and write error is a possible input.
 */
module GoIo {

  newtype byte = b: int | 0 <= b < 256

  datatype Option<+T> = None | Some(value: T)

  /** Error values handed back by readers and writers. `EOF` and
      `UnexpectedEOF` are the two sentinel values of package `io`. */
  datatype IoError = EOF | UnexpectedEOF | Failed(code: nat)

  /** A response body: the bytes it delivers, followed by the error its
      reader reports once they are exhausted (`EOF` for a clean end). */
  datatype Body = Body(data: seq<byte>, end: IoError)

  datatype ReadResult = ReadResult(bytes: seq<byte>, err: Option<IoError>)

  /** `io.ReadFull(body, buf)` with `len(buf) == size`, the reader standing at
      offset `pos` of the body. The bytes read land in `buf[:len(bytes)]`. */
  function ReadFull(body: Body, pos: nat, size: nat): (r: ReadResult)
    requires pos <= |body.data|
    // at most `size` bytes, and they are the next bytes of the body
    ensures |r.bytes| <= size && pos + |r.bytes| <= |body.data|
    ensures r.bytes == body.data[pos..pos + |r.bytes|]
    // Go's promise: n == len(buf) if and only if err == nil
    ensures r.err.None? <==> |r.bytes| == size
    // a short read has drained the body
    ensures r.err.Some? ==> pos + |r.bytes| == |body.data|
    // EOF only when nothing at all was read; a clean end after some bytes is UnexpectedEOF
    ensures r.err == Some(EOF) ==> r.bytes == [] && body.end == EOF
    ensures r.err == Some(UnexpectedEOF) ==> body.end == UnexpectedEOF || (body.end == EOF && r.bytes != [])
    // any other end error reaches the caller unchanged
    ensures r.err.Some? && r.err.value.Failed? ==> r.err.value == body.end
  {
    var avail := |body.data| - pos;
    if size <= avail then
      ReadResult(body.data[pos..pos + size], None)
    else
      var err := if body.end == EOF && avail > 0 then UnexpectedEOF else body.end;
      ReadResult(body.data[pos..], Some(err))
  }

  /** How a sink answers one `Write` call. */
  datatype WriteBehavior =
    | Accept                            // writes everything, no error
    | Short(count: nat)                 // reports `count` bytes and no error
    | Fail(count: nat, err: IoError)    // reports `count` bytes and an error

  datatype WriteReply = WriteReply(n: nat, err: Option<IoError>)

  /** A sink: `script[k]` is how it answers its k-th `Write` call (calls past
      the end of the script are accepted), `calls` are the contents of the
      calls made so far, in order. */
  datatype Writer = Writer(script: seq<WriteBehavior>, calls: seq<seq<byte>>)

  datatype WriteStep = WriteStep(reply: WriteReply, writer: Writer)

  /** How the `k`-th `Write` call on a sink with this script is answered. */
  function BehaviorAt(script: seq<WriteBehavior>, k: nat): WriteBehavior
  {
    if k < |script| then script[k] else Accept
  }

  function ReplyOf(b: WriteBehavior, content: seq<byte>): WriteReply
  {
    match b
    case Accept => WriteReply(|content|, None)
    case Short(count) => WriteReply(count, None)
    case Fail(count, err) => WriteReply(count, Some(err))
  }

  /** `w.Write(content)`. */
  function Write(w: Writer, content: seq<byte>): (s: WriteStep)
    // the call is logged, the sink's script is untouched
    ensures s.writer.calls == w.calls + [content]
    ensures s.writer.script == w.script
    // an accepting sink reports the whole content written
    ensures BehaviorAt(w.script, |w.calls|) == Accept ==> s.reply == WriteReply(|content|, None)
    // only a failing behaviour yields an error
    ensures s.reply.err.Some? <==> BehaviorAt(w.script, |w.calls|).Fail?
  {
    WriteStep(ReplyOf(BehaviorAt(w.script, |w.calls|), content), w.(calls := w.calls + [content]))
  }

  /** The reply the sink `w` gives to the `j`-th call made after the current one,
      were that call to carry `content`. */
  function ReplyTo(w: Writer, j: nat, content: seq<byte>): WriteReply
  {
    ReplyOf(BehaviorAt(w.script, |w.calls| + j), content)
  }

  /** A write that both succeeded and reported every byte written. */
  predicate WriteOk(reply: WriteReply, content: seq<byte>)
  {
    reply.err.None? && reply.n == |content|
  }

  /** The contents of a sequence of write calls, concatenated in order. */
  function Flatten(writes: seq<seq<byte>>): seq<byte>
  {
    if writes == [] then [] else Flatten(writes[..|writes| - 1]) + writes[|writes| - 1]
  }
}

/**
 Properties of the run `copyContent` makes (`ExpectedRun`, which the method
 is proved to compute): byte conservation, the shape of the chunks and the
 running totals. The scenarios at the end are the ones a user meets: a body
 of exactly one chunk, a body smaller than a chunk, and sinks that report
 short writes.
 */
module CopyProperties {
  import opened GoIo
  import opened Gobble

  /** `copyContent` returned a total and no error. */
  predicate Succeeded(outcome: CopyOutcome)
  {
    outcome.Returned? && outcome.err.None?
  }

  /** A run succeeds exactly when it reaches its regular end: every full chunk
      was written whole, the body ended cleanly, and the leftover was written
      last without an error. */
  lemma SuccessIsRegularEnd(body: Body, w: Writer, c: nat)
    requires 0 < c
    ensures var r := ExpectedRun(body, w, c);
            && (Succeeded(r.outcome) <==> CopySucceeds(body, w, c))
            && (Succeeded(r.outcome) ==>
                  && |r.writes| == |body.data| / c + 1 && |r.reports| == |body.data| / c
                  && r.writes[|body.data| / c] == Leftover(body.data, c))
  {
    var r := ExpectedRun(body, w, c);
    ExpectedRunMeetsContract(body, w, c);
    var k := |body.data| / c;
    var b := FirstFailedWrite(w, body.data, c);
    if Succeeded(r.outcome) {
      assert !(b < k) && !body.end.Failed?;
    }
  }

  /** Byte conservation: a run succeeds exactly when it reaches its regular
      end, and then the `bufWrite` calls handed over the body byte for byte and
      the total returned is its length; an error return always carries a zero
      total. */
  lemma ByteConservation(body: Body, w: Writer, c: nat)
    requires 0 < c
    ensures var r := ExpectedRun(body, w, c);
            && (Succeeded(r.outcome) <==> CopySucceeds(body, w, c))
            && (Succeeded(r.outcome) ==> r.outcome.total == |body.data| && Flatten(r.writes) == body.data)
            && (r.outcome.Returned? && r.outcome.err.Some? ==> r.outcome.total == 0)
  {
    var r := ExpectedRun(body, w, c);
    var k := |body.data| / c;
    SuccessIsRegularEnd(body, w, c);
    if Succeeded(r.outcome) {
      ExpectedRunMeetsContract(body, w, c);
      var chunks := r.writes[..k];
      FlattenOfChunks(body.data, c, chunks);
      assert r.writes == chunks + [Leftover(body.data, c)];
      FlattenSnoc(chunks, Leftover(body.data, c));
      assert body.data[..k * c] + body.data[k * c..] == body.data;
    }
  }

  /** Chunk shape of a successful run: `|data| / c` in-loop writes of exactly
      `c` bytes, one report each, then one final write of `|data| % c` bytes
      (possibly none). */
  lemma SuccessfulChunkShape(body: Body, w: Writer, c: nat)
    requires 0 < c && CopySucceeds(body, w, c)
    ensures var r := ExpectedRun(body, w, c);
            && |r.writes| == |body.data| / c + 1 && |r.reports| == |body.data| / c
            && (forall j :: 0 <= j < |body.data| / c ==> |r.writes[j]| == c)
            && |r.writes[|body.data| / c]| == |body.data| % c
  {
    SuccessIsRegularEnd(body, w, c);
    var k := |body.data| / c;
    ChunkArithmetic(0, c, |body.data|);
    assert |body.data| == k * c + |body.data| % c;
  }

  /** The reported totals are the bytes of the full chunks written so far:
      they grow strictly, never pass the body's length, and on success the
      last one covers every full chunk. */
  lemma RunningTotalIncreasing(body: Body, w: Writer, c: nat)
    requires 0 < c
    ensures var r := ExpectedRun(body, w, c);
            && (forall j :: 0 <= j < |r.reports| ==> r.reports[j] == (j + 1) * c)
            && (forall i, j :: 0 <= i < j < |r.reports| ==> r.reports[i] < r.reports[j])
            && (forall j :: 0 <= j < |r.reports| ==> r.reports[j] <= |body.data|)
            && (Succeeded(r.outcome) && |r.reports| > 0 ==> r.reports[|r.reports| - 1] == (|body.data| / c) * c)
  {
    var r := ExpectedRun(body, w, c);
    var reports := r.reports;
    var k := |body.data| / c;
    assert |reports| <= k && forall j :: 0 <= j < |reports| ==> reports[j] == (j + 1) * c;
    if Succeeded(r.outcome) {
      SuccessIsRegularEnd(body, w, c);
    }
    forall i, j | 0 <= i < j < |reports|
      ensures reports[i] < reports[j]
    {
      MulMonotone(i + 1, j, c);
    }
    forall j | 0 <= j < |reports|
      ensures reports[j] <= |body.data|
    {
      MulMonotone(j + 1, k, c);
      ChunkArithmetic(0, c, |body.data|);
    }
  }

  /** A read error hands over nothing of the chunk it interrupted: the call
      returns the error and a zero total, and the `bufWrite` calls have handed
      over exactly the full chunks read before it. */
  lemma ReadErrorKeepsWholeChunks(body: Body, w: Writer, c: nat)
    requires 0 < c && body.end.Failed? && FirstFailedWrite(w, body.data, c) == |body.data| / c
    ensures var r := ExpectedRun(body, w, c);
            && r.outcome == Returned(0, Some(Io(body.end)))
            && |r.writes| == |body.data| / c
            && Flatten(r.writes) == body.data[..(|body.data| / c) * c]
  {
    var r := ExpectedRun(body, w, c);
    FlattenOfChunks(body.data, c, r.writes);
  }

  /** A sink whose script is used up accepts every further write whole. */
  lemma ExhaustedScriptAcceptsAll(w: Writer, data: seq<byte>, c: nat)
    requires 0 < c && |w.script| <= |w.calls|
    ensures FirstFailedWrite(w, data, c) == |data| / c
  {
  }

  /** A body of exactly one chunk, copied to a sink that accepts everything:
      one full write, one report of the whole length, then an empty final
      write, and the run succeeds. */
  lemma ExactlyOneChunk(data: seq<byte>, w: Writer)
    requires |data| > 0 && |w.script| <= |w.calls|
    ensures ExpectedRun(Body(data, EOF), w, |data|) == Run(Returned(|data|, None), [data, []], [|data|])
  {
    var c := |data|;
    assert c / c == 1;
    ExhaustedScriptAcceptsAll(w, data, c);
    assert ChunkAt(data, c, 0) == data;
    assert Leftover(data, c) == [];
  }

  /** A body smaller than one chunk: no report, a single write of the whole
      body, and success. */
  lemma SmallerThanOneChunk(data: seq<byte>, c: nat, w: Writer)
    requires |data| < c && |w.script| <= |w.calls|
    ensures ExpectedRun(Body(data, EOF), w, c) == Run(Returned(|data|, None), [data], [])
  {
    ExhaustedScriptAcceptsAll(w, data, c);
  }

  /** The count of the final write is never compared with the bytes read: a
      sink that takes none of a short body without an error still yields a
      successful run reporting the whole body copied. */
  lemma FinalShortWriteUndetected(data: seq<byte>, c: nat)
    requires 0 < |data| < c
    ensures ExpectedRun(Body(data, EOF), Writer([Short(0)], []), c) == Run(Returned(|data|, None), [data], [])
  {
    assert FirstFailedWrite(Writer([Short(0)], []), data, c) == 0;
  }

  /** An in-loop write that reports fewer bytes than the chunk stops the copy
      with the integrity error, after that one write of the first chunk. */
  lemma InLoopShortWriteStops(data: seq<byte>, c: nat, short: nat)
    requires 0 < c <= |data| && short < c
    ensures ExpectedRun(Body(data, EOF), Writer([Short(short)], []), c)
            == Run(Returned(0, Some(ShortWrite(c, short))), [data[..c]], [])
  {
    var w := Writer([Short(short)], []);
    ChunkArithmetic(0, c, |data|);
    assert !ChunkWriteOk(w, data, c, 0);
    assert FirstFailedWrite(w, data, c) == 0;
  }
}

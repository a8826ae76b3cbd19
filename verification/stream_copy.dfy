/** `InputStream.copyToWithProgress`: a buffered copy that calls back with the
    running total whenever more than `reportPerBytes` bytes have been copied
    since the previous call back. */
module StreamCopy {
  import opened Common
  import opened Streams
  import opened Progress

  const BufferSize: nat := 1_000_000

  /** Copies the rest of `input` into `out` and returns the number of bytes
      copied. `progress` holds the arguments of the `onProgressEvent` calls,
      in order; `chunks` the sizes of the successful reads. Neither stream is
      closed. */
  method CopyToWithProgress(input: InputStream, out: OutputStream, reportPerBytes: int)
    returns (bytesCopied: int, progress: seq<int>, ghost chunks: seq<int>)
    requires input.Valid()
    modifies input, out
    ensures input.Valid() && input.pos == |input.data|
    ensures out.written == old(out.written) + old(input.Remaining())
    ensures bytesCopied == |old(input.Remaining())| == Sum(chunks)
    ensures forall i :: 0 <= i < |chunks| ==> 1 <= chunks[i] <= BufferSize
    ensures progress == Replay(chunks, reportPerBytes).reports
    ensures input.closed == old(input.closed) && out.closed == old(out.closed)
  {
    ghost var start, before := input.pos, out.written;
    bytesCopied, progress, chunks := 0, [], [];
    var bytes, buffer := input.Read(BufferSize);
    var bytesCopiedAtLastReport := 0;
    while bytes >= 0
      invariant input.Valid() && start <= input.pos
      invariant input.closed == old(input.closed) && out.closed == old(out.closed)
      invariant bytes < 0 ==> bytes == -1 && buffer == [] && input.pos == |input.data|
      invariant bytes >= 0 ==> 1 <= bytes == |buffer| <= BufferSize && start + bytes <= input.pos
      invariant buffer == input.data[input.pos - |buffer|..input.pos]
      invariant out.written == before + input.data[start..input.pos - |buffer|]
      invariant bytesCopied == input.pos - |buffer| - start
      invariant forall i :: 0 <= i < |chunks| ==> 1 <= chunks[i] <= BufferSize
      invariant Replay(chunks, reportPerBytes) == Tally(bytesCopied, bytesCopiedAtLastReport, progress)
      decreases |input.data| - input.pos + (if bytes >= 0 then 1 else 0)
    {
      out.Write(buffer);
      ReplaySnoc(chunks, bytes, reportPerBytes);
      chunks := chunks + [bytes];
      bytesCopied := bytesCopied + bytes;
      if bytesCopied - bytesCopiedAtLastReport > reportPerBytes {
        progress := progress + [bytesCopied];
        bytesCopiedAtLastReport := bytesCopied;
      }
      SliceConcat(input.data, start, input.pos - |buffer|, input.pos);
      bytes, buffer := input.Read(BufferSize);
    }
    ReplayCounts(chunks, reportPerBytes);
  }

  lemma SliceConcat(data: seq<byte>, i: nat, j: nat, k: nat)
    requires i <= j <= k <= |data|
    ensures data[i..k] == data[i..j] + data[j..k]
  {
  }

  /** What the call-backs of a copy promise: increasing running totals, at
      most one per `reportPerBytes + 1` bytes, never above the total, and
      the bytes since the last call back within the threshold. */
  lemma CopyProgressBounds(chunks: seq<int>, reportPerBytes: int)
    requires forall i :: 0 <= i < |chunks| ==> 1 <= chunks[i] <= BufferSize
    ensures var t := Replay(chunks, reportPerBytes);
      && (forall i, j :: 0 <= i < j < |t.reports| ==> t.reports[i] < t.reports[j])
      && (forall i :: 0 <= i < |t.reports| ==> 0 < t.reports[i] <= Sum(chunks))
      && (reportPerBytes >= 0 ==> |t.reports| * (reportPerBytes + 1) <= Sum(chunks))
      && (reportPerBytes >= 0 ==> 0 <= Sum(chunks) - t.last <= reportPerBytes)
  {
    assert Positive(chunks);
    ReplayReportsIncrease(chunks, reportPerBytes);
    ReplayCounts(chunks, reportPerBytes);
    var t := Replay(chunks, reportPerBytes);
    if reportPerBytes >= 0 {
      assert NonNegative(chunks);
      ReplayReportCount(chunks, reportPerBytes);
      ReplayGap(chunks, reportPerBytes);
    }
    if t.reports != [] {
      ReportsPositive(chunks, reportPerBytes);
    }
  }

  /** With positive chunks every reported total is positive. */
  lemma {:induction false} ReportsPositive(chunks: seq<int>, reportPerBytes: int)
    requires Positive(chunks)
    ensures forall i :: 0 <= i < |Replay(chunks, reportPerBytes).reports| ==> Replay(chunks, reportPerBytes).reports[i] > 0
    ensures Replay(chunks, reportPerBytes).counter >= |chunks|
  {
    if chunks != [] {
      ReportsPositive(chunks[..|chunks| - 1], reportPerBytes);
    }
  }
}

/** The progress-reporting rule shared by the upload listener of
    `S3APIWrapper.uploadFileCore` and by `copyToWithProgress`: a running byte
    counter, and a report whenever MORE than `threshold` bytes have gone by
    since the previous report, after which that report becomes the new
    baseline. */
module Progress {

  /** The counter, the baseline (the count at the last report) and the
      counts reported so far. */
  datatype Tally = Tally(counter: int, last: int, reports: seq<int>)

  function Sum(incs: seq<int>): int
  {
    if incs == [] then 0 else Sum(incs[..|incs| - 1]) + incs[|incs| - 1]
  }

  /** One progress event of `inc` bytes. */
  function Observe(t: Tally, inc: int, threshold: int): Tally
  {
    var c := t.counter + inc;
    if c - t.last > threshold then Tally(c, c, t.reports + [c]) else Tally(c, t.last, t.reports)
  }

  /** The tally after the events `incs`, starting from zero. */
  function Replay(incs: seq<int>, threshold: int): Tally
  {
    if incs == [] then Tally(0, 0, [])
    else Observe(Replay(incs[..|incs| - 1], threshold), incs[|incs| - 1], threshold)
  }

  predicate NonNegative(incs: seq<int>)
  {
    forall i :: 0 <= i < |incs| ==> incs[i] >= 0
  }

  predicate Positive(incs: seq<int>)
  {
    forall i :: 0 <= i < |incs| ==> incs[i] > 0
  }

  lemma ReplaySnoc(incs: seq<int>, inc: int, threshold: int)
    ensures Replay(incs + [inc], threshold) == Observe(Replay(incs, threshold), inc, threshold)
  {
    assert (incs + [inc])[..|incs|] == incs;
  }

  /** The counter is the total of all events. */
  lemma {:induction false} ReplayCounts(incs: seq<int>, threshold: int)
    ensures Replay(incs, threshold).counter == Sum(incs)
  {
    if incs != [] {
      ReplayCounts(incs[..|incs| - 1], threshold);
    }
  }

  /** With non-negative events and a non-negative threshold, the bytes since
      the last report never exceed the threshold once an event is handled. */
  lemma {:induction false} ReplayGap(incs: seq<int>, threshold: int)
    requires NonNegative(incs) && threshold >= 0
    ensures 0 <= Replay(incs, threshold).counter - Replay(incs, threshold).last <= threshold
  {
    if incs != [] {
      ReplayGap(incs[..|incs| - 1], threshold);
    }
  }

  /** Reported counts are strictly increasing, the last one is the baseline,
      and none exceeds the counter. This holds for non-negative events under
      a non-negative threshold, and for positive events under any threshold. */
  lemma {:induction false} ReplayReportsIncrease(incs: seq<int>, threshold: int)
    requires (NonNegative(incs) && threshold >= 0) || Positive(incs)
    ensures var t := Replay(incs, threshold);
      && (forall i, j :: 0 <= i < j < |t.reports| ==> t.reports[i] < t.reports[j])
      && (forall i :: 0 <= i < |t.reports| ==> t.reports[i] <= t.last <= t.counter)
      && (t.reports != [] ==> t.reports[|t.reports| - 1] == t.last)
      && 0 <= t.last <= t.counter
  {
    if incs != [] {
      var init := incs[..|incs| - 1];
      assert (NonNegative(init) && threshold >= 0) || Positive(init);
      ReplayReportsIncrease(init, threshold);
    }
  }

  /** Every report needs more than `threshold` new bytes, so the number of
      reports times `threshold + 1` is at most the baseline, hence at most
      the total. */
  lemma {:induction false} ReplayReportCount(incs: seq<int>, threshold: int)
    requires NonNegative(incs) && threshold >= 0
    ensures |Replay(incs, threshold).reports| * (threshold + 1) <= Replay(incs, threshold).last
    ensures Replay(incs, threshold).last <= Sum(incs)
  {
    if incs != [] {
      var init := incs[..|incs| - 1];
      var inc := incs[|incs| - 1];
      assert NonNegative(init);
      ReplayReportCount(init, threshold);
      ReplayGap(init, threshold);
      ReplayCounts(init, threshold);
      var t := Replay(init, threshold);
      var c := t.counter + inc;
      var k := |t.reports|;
      var m := threshold + 1;
      assert Sum(incs) == Sum(init) + inc && inc >= 0;
      if c - t.last > threshold {
        assert |Replay(incs, threshold).reports| == k + 1 && Replay(incs, threshold).last == c;
        MulSucc(k, m);
      } else {
        assert Replay(incs, threshold).reports == t.reports && Replay(incs, threshold).last == t.last;
      }
    }
  }

  lemma MulSucc(k: nat, m: int)
    ensures (k + 1) * m == k * m + m
  {
  }

  /** The listener of `uploadFileCore`: an object whose two counters are
      updated by each progress event of the transfer. */
  class ProgressListener {
    const threshold: int
    var byteCounter: int
    var bytesAtLastReport: int
    /** The counts printed as "... GB transferred", in order. */
    var printed: seq<int>
    ghost var events: seq<int>

    ghost predicate Valid()
      reads this
    {
      Tally(byteCounter, bytesAtLastReport, printed) == Replay(events, threshold)
    }

    constructor (threshold: int)
      ensures Valid() && this.threshold == threshold && events == []
      ensures byteCounter == 0 && bytesAtLastReport == 0 && printed == []
    {
      this.threshold := threshold;
      byteCounter, bytesAtLastReport, printed := 0, 0, [];
      events := [];
    }

    /** `progressChanged`: adds the event's bytes and reports when more than
        `threshold` bytes have passed since the last report. */
    method ProgressChanged(bytesTransferred: int)
      requires Valid()
      modifies this
      ensures Valid() && events == old(events) + [bytesTransferred]
      ensures byteCounter == old(byteCounter) + bytesTransferred
      ensures byteCounter - old(bytesAtLastReport) > threshold ==>
                bytesAtLastReport == byteCounter && printed == old(printed) + [byteCounter]
      ensures byteCounter - old(bytesAtLastReport) <= threshold ==>
                bytesAtLastReport == old(bytesAtLastReport) && printed == old(printed)
      ensures NonNegative(events) && threshold >= 0 ==> 0 <= byteCounter - bytesAtLastReport <= threshold
    {
      ReplaySnoc(events, bytesTransferred, threshold);
      byteCounter := byteCounter + bytesTransferred;
      if byteCounter - bytesAtLastReport > threshold {
        printed := printed + [byteCounter];
        bytesAtLastReport := byteCounter;
      }
      events := events + [bytesTransferred];
      if NonNegative(events) && threshold >= 0 {
        ReplayGap(events, threshold);
      }
    }
  }
}

/** From the receiver's samples over the wire to the loss the sender's controller acts on. */
module FeedbackLoop {
  import opened Words
  import opened Windows
  import opened LossAccounting
  import opened NetworkQualityEstimator
  import opened MediaStatistics
  import TwccFeedback

  /** What the estimator holds after `ObserveTwccFeedback` on a packet with something to report. */
  function Observed(data: seq<Byte>, now: int): Timed<LossSample>
    requires |data| >= TwccFeedback.HEADER_SIZE
  {
    var statuses := TwccFeedback.Statuses(data);
    Timed(now, LossSample(|statuses|, TwccFeedback.Zeros(statuses)))
  }

  /** Number `first + i` is one of `xs`. */
  predicate Among(xs: seq<int>, first: int, i: nat) {
    first + i in xs
  }

  /** How many numbers a report on the samples numbered `xs` ranges over. */
  function Range(xs: seq<int>): (n: nat)
    requires xs != []
    ensures n > 0
  {
    Bounds(xs);
    assert xs[0] in xs;
    Highest(xs) - xs[0] + 1
  }

  /** The numbers of the range, counted from the first sample's, that never came in, neither now nor `earlier`. */
  function NeverArrived(earlier: seq<int>, xs: seq<int>): set<nat>
    requires xs != []
  {
    set i: nat | i < Range(xs) && !Among(xs, xs[0], i) && !Among(earlier, xs[0], i)
  }

  /** Those that came in only before: an earlier report has used their samples up. */
  function Forgotten(earlier: seq<int>, xs: seq<int>): set<nat>
    requires xs != []
  {
    set i: nat | i < Range(xs) && !Among(xs, xs[0], i) && Among(earlier, xs[0], i)
  }

  /** No arrival from before the previous report lies in the range of this one, unless it has come in again. */
  predicate NoneOvertaken(earlier: seq<int>, xs: seq<int>)
    requires xs != []
  {
    forall y | y in earlier && xs[0] <= y <= Highest(xs) :: y in xs
  }

  lemma MissingSplits(samples: seq<Sample>, xs: seq<int>, earlier: seq<int>)
    requires samples != [] && xs != [] && Stands(samples, xs) && Reportable(samples)
    ensures PacketCount(samples) == Range(xs)
    ensures |MissingOffsets(samples)| == |NeverArrived(earlier, xs)| + |Forgotten(earlier, xs)|
    ensures Forgotten(earlier, xs) == {} <==> NoneOvertaken(earlier, xs)
  {
    hide Stands, Mentioned, PacketCount, Highest;
    ReportSpeaksTrue(samples, xs);
    var never, forgotten := NeverArrived(earlier, xs), Forgotten(earlier, xs);
    forall i: nat ensures i in MissingOffsets(samples) <==> i in never || i in forgotten {
      assert i < PacketCount(samples) ==> (i in MissingOffsets(samples) <==> xs[0] + i !in xs);
    }
    assert MissingOffsets(samples) == never + forgotten && never !! forgotten;
    if forgotten == {} {
      forall y | y in earlier && xs[0] <= y <= Highest(xs) ensures y in xs {
        assert y - xs[0] !in forgotten;
        assert Among(earlier, xs[0], y - xs[0]);
      }
    }
  }

  lemma PercentTells(a: nat, b: nat, expected: nat)
    requires expected > 0
    ensures Percent(a, expected) == Percent(b, expected) <==> a == b
  {
    assert Percent(a, expected) * expected as real == a as real * 100.0;
    assert Percent(b, expected) * expected as real == b as real * 100.0;
  }

  /**
   * For three seconds after a report the loss shown is the share of the reported range whose numbers never arrived or
   * arrived only before the previous report. So it is the true loss exactly if no such earlier arrival is in the range.
   */
  lemma ShownLossExact(samples: seq<Sample>, xs: seq<int>, earlier: seq<int>, feedbackCount: Byte, now: int, later: int,
                       local: seq<LossSample>)
    requires samples != [] && xs != [] && Stands(samples, xs) && Range(xs) <= TwccFeedback.MAX_STATUS
    requires now <= later < now + REPORT_FRESH_US
    ensures Reportable(samples) && |Report(samples, feedbackCount)| >= TwccFeedback.HEADER_SIZE
    ensures var shown := ShownLoss(Some(Observed(Report(samples, feedbackCount), now)), local, later);
      && shown == Percent(|NeverArrived(earlier, xs)| + |Forgotten(earlier, xs)|, Range(xs))
      && (shown == Percent(|NeverArrived(earlier, xs)|, Range(xs)) <==> NoneOvertaken(earlier, xs))
  {
    hide Stands, TwccFeedback.Statuses, TwccFeedback.Zeros, Report, Mentioned, PacketCount, MissingOffsets, Percent;
    hide NeverArrived, Forgotten, NoneOvertaken;
    ReportSpeaksTrue(samples, xs);
    FeedbackRoundTrip(samples, feedbackCount);
    MissingSplits(samples, xs, earlier);
    PercentTells(|NeverArrived(earlier, xs)| + |Forgotten(earlier, xs)|, |NeverArrived(earlier, xs)|, Range(xs));
  }

  /** True numbers for everything a handler has ever received. */
  predicate NumbersOf(us: seq<int>, arrived: seq<Sample>) {
    |us| == |arrived| && forall i | 0 <= i < |us| :: arrived[i].sequence == Wrap16(us[i])
  }

  /**
   * The same for a handler after any calls: what it reports on is its latest arrivals, and the loss shown is the true
   * one exactly if none of its arrivals before those is in the range without having come in again.
   */
  lemma HandlerLossExact(handler: MediaStatisticsHandler, us: seq<int>, feedbackCount: Byte, now: int, later: int,
                         local: seq<LossSample>)
    requires handler.Valid() && handler.pendingTwccSamples != [] && NumbersOf(us, handler.arrived)
    requires var xs := us[handler.forgotten..];
      && (forall i, j | 0 <= i < |xs| && 0 <= j < |xs| :: xs[i] - xs[j] < 0x8000)
      && Range(xs) <= TwccFeedback.MAX_STATUS
    requires now <= later < now + REPORT_FRESH_US
    ensures Reportable(handler.pendingTwccSamples)
    ensures |Report(handler.pendingTwccSamples, feedbackCount)| >= TwccFeedback.HEADER_SIZE
    ensures var earlier, xs := us[..handler.forgotten], us[handler.forgotten..];
      ShownLoss(Some(Observed(Report(handler.pendingTwccSamples, feedbackCount), now)), local, later)
        == Percent(|NeverArrived(earlier, xs)|, Range(xs))
      <==> NoneOvertaken(earlier, xs)
  {
    hide Report, Percent, NeverArrived, Forgotten, NoneOvertaken, Range, ShownLoss, Observed;
    var k := handler.forgotten;
    assert Stands(handler.pendingTwccSamples, us[k..]);
    ShownLossExact(handler.pendingTwccSamples, us[k..], us[..k], feedbackCount, now, later, local);
  }

  /** Numbers 1, 2 and 4 come in and are reported, then 3 and 5: nothing is missing, yet 4 is reported as lost. */
  lemma OvertakenCountsAsLost()
    ensures NeverArrived([1, 2, 4], [3, 5]) == {} && Forgotten([1, 2, 4], [3, 5]) == {1}
    ensures !NoneOvertaken([1, 2, 4], [3, 5])
  {
    var earlier, xs := [1, 2, 4], [3, 5];
    assert xs[..1] == [3];
    assert Highest(xs) == 5;
    assert Among(xs, 3, 0) && Among(earlier, 3, 1) && !Among(xs, 3, 1) && Among(xs, 3, 2);
    assert 4 in earlier && 4 !in xs;
  }
}

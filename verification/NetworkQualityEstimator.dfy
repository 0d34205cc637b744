/** The estimator: sliding windows and loss accounting, fed by the handlers and read by the adaptation loop. */
module NetworkQualityEstimator {
  import opened Words
  import opened Windows
  import opened LossAccounting
  import CompactNtp
  import TwccFeedback

  const REPORT_FRESH_US := 3_000_000

  datatype PacketSample = PacketSample(sequence: U16, rtpTimestamp: U32, bytes: nat)
  datatype RemoteReport = RemoteReport(lossPercent: real, jitterMs: real, rttMs: real)
  datatype TwccReport = TwccReport(baseSequence: U16, statusCount: U16, referenceTime: nat)

  function Untimed<T>(window: seq<Timed<T>>): (r: seq<T>)
    ensures |r| == |window|
  {
    seq(|window|, i requires 0 <= i < |window| => window[i].value)
  }

  /** The transport loss a snapshot shows: the peer's report while it is fresh, the local window otherwise. */
  function ShownLoss(remote: Option<Timed<LossSample>>, samples: seq<LossSample>, now: int): real {
    if remote.Some? && now - remote.value.at < REPORT_FRESH_US && remote.value.value.expected > 0
    then Percent(remote.value.value.lost, remote.value.value.expected)
    else Percent(Lost(samples), Expected(samples))
  }

  /** The loss window and the last number are those of the arrivals. */
  ghost predicate Accounted(window: seq<Timed<LossSample>>, pushed: seq<Timed<LossSample>>, cutoff: int, clock: int,
                            arrivals: seq<U16>, last: Option<U16>) {
    Windowed(window, pushed, cutoff, clock) && Untimed(pushed) == Samples(arrivals) && last == LastAfter(arrivals)
  }

  class Estimator {
    var sentPackets: seq<Timed<PacketSample>>
    var receivedPackets: seq<Timed<PacketSample>>
    var sentBytes: seq<Timed<nat>>
    var receivedBytes: seq<Timed<nat>>
    var rtcpBytes: seq<Timed<nat>>
    var lossSamples: seq<Timed<LossSample>>
    var remoteReport: Option<Timed<RemoteReport>>
    var remoteTransportLoss: Option<Timed<LossSample>>
    var twccReport: Option<Timed<TwccReport>>
    var lastTransportSequence: Option<U16>

    /** Everything ever pushed, and the sequence numbers received, oldest first. */
    ghost var pushedSent: seq<Timed<PacketSample>>
    ghost var pushedReceived: seq<Timed<PacketSample>>
    ghost var pushedSentBytes: seq<Timed<nat>>
    ghost var pushedReceivedBytes: seq<Timed<nat>>
    ghost var pushedRtcp: seq<Timed<nat>>
    ghost var pushedLoss: seq<Timed<LossSample>>
    ghost var arrivals: seq<U16>
    /** The latest clock reading, and how far each window has been trimmed. */
    ghost var clock: int
    ghost var sentCut: int
    ghost var sentBytesCut: int
    ghost var receivedCut: int
    ghost var receivedBytesCut: int
    ghost var rtcpCut: int
    ghost var lossCut: int

    ghost predicate SentValid(at: int)
      reads this`sentPackets, this`pushedSent, this`sentCut, this`sentBytes, this`pushedSentBytes, this`sentBytesCut
    {
      Windowed(sentPackets, pushedSent, sentCut, at) && Windowed(sentBytes, pushedSentBytes, sentBytesCut, at)
    }

    ghost predicate ReceivedValid(at: int)
      reads this`receivedPackets, this`pushedReceived, this`receivedCut
      reads this`receivedBytes, this`pushedReceivedBytes, this`receivedBytesCut
    {
      && Windowed(receivedPackets, pushedReceived, receivedCut, at)
      && Windowed(receivedBytes, pushedReceivedBytes, receivedBytesCut, at)
    }

    ghost predicate RtcpValid(at: int)
      reads this`rtcpBytes, this`pushedRtcp, this`rtcpCut
    {
      Windowed(rtcpBytes, pushedRtcp, rtcpCut, at)
    }

    ghost predicate LossValid(at: int)
      reads this`lossSamples, this`pushedLoss, this`lossCut, this`arrivals, this`lastTransportSequence
    {
      Accounted(lossSamples, pushedLoss, lossCut, at, arrivals, lastTransportSequence)
    }

    /** The peer never reported more lost packets than expected ones. */
    ghost predicate RemoteValid()
      reads this`remoteTransportLoss
    {
      remoteTransportLoss.Some? ==> remoteTransportLoss.value.value.lost <= remoteTransportLoss.value.value.expected
    }

    /** Each window is the pushed samples since its latest trim, and the loss state is that of the arrivals. */
    ghost predicate Valid()
      reads this
    {
      SentValid(clock) && ReceivedValid(clock) && RtcpValid(clock) && LossValid(clock) && RemoteValid()
    }

    constructor ()
      ensures Valid() && arrivals == [] && pushedReceived == [] && remoteTransportLoss == None
    {
      sentPackets, receivedPackets, sentBytes, receivedBytes, rtcpBytes, lossSamples := [], [], [], [], [], [];
      remoteReport, remoteTransportLoss, twccReport, lastTransportSequence := None, None, None, None;
      pushedSent, pushedReceived, pushedSentBytes, pushedReceivedBytes := [], [], [], [];
      pushedRtcp, pushedLoss := [], [];
      arrivals, clock := [], 0;
      sentCut, sentBytesCut, receivedCut, receivedBytesCut := -WINDOW_US, -WINDOW_US, -WINDOW_US, -WINDOW_US;
      rtcpCut, lossCut := -WINDOW_US, -WINDOW_US;
    }

    /** Each trim reads the clock again. */
    method OnRtpSent(sequence: U16, rtpTimestamp: U32, bytes: nat, now: int, packetsTrimmed: int, bytesTrimmed: int)
      requires Valid() && clock <= now <= packetsTrimmed <= bytesTrimmed
      modifies this`sentPackets, this`sentBytes, this`pushedSent, this`pushedSentBytes
      modifies this`sentCut, this`sentBytesCut, this`clock
      ensures Valid() && clock == bytesTrimmed
      ensures sentCut == packetsTrimmed - 2_000_000 && sentBytesCut == bytesTrimmed - 2_000_000
      ensures pushedSent == old(pushedSent) + [Timed(now, PacketSample(sequence, rtpTimestamp, bytes))]
      ensures pushedSentBytes == old(pushedSentBytes) + [Timed(now, bytes)]
    {
      hide Windowed, DropOld, ReceivedValid, RtcpValid, LossValid, RemoteValid;
      var sample := PacketSample(sequence, rtpTimestamp, bytes);
      AllLater(bytesTrimmed);
      PushBoth(sentPackets, pushedSent, sentCut, sentBytes, pushedSentBytes, sentBytesCut, clock, now,
               packetsTrimmed, bytesTrimmed, sample, bytes);
      var packets := Trim(sentPackets + [Timed(now, sample)], packetsTrimmed);
      var sizes := Trim(sentBytes + [Timed(now, bytes)], bytesTrimmed);
      sentPackets, pushedSent, sentCut := packets, pushedSent + [Timed(now, sample)], packetsTrimmed - WINDOW_US;
      sentBytes, pushedSentBytes := sizes, pushedSentBytes + [Timed(now, bytes)];
      sentBytesCut, clock := bytesTrimmed - WINDOW_US, bytesTrimmed;
    }

    /** Time passes; no window changes. */
    lemma AllLater(now: int)
      requires Valid() && clock <= now
      ensures SentValid(now) && ReceivedValid(now) && RtcpValid(now) && LossValid(now)
    {
      hide Windowed;
      Later(sentPackets, pushedSent, sentCut, clock, now);
      Later(sentBytes, pushedSentBytes, sentBytesCut, clock, now);
      Later(receivedPackets, pushedReceived, receivedCut, clock, now);
      Later(receivedBytes, pushedReceivedBytes, receivedBytesCut, clock, now);
      Later(rtcpBytes, pushedRtcp, rtcpCut, clock, now);
      Later(lossSamples, pushedLoss, lossCut, clock, now);
    }

    /** How far a packet moves the highest sequence number on. */
    method Measure(sequence: U16) returns (expected: nat, lost: nat)
      ensures LossSample(expected, lost) == Contribution(lastTransportSequence, sequence)
    {
      expected, lost := 1, 0;
      if lastTransportSequence.Some? {
        var delta := Signed16(Wrap16(sequence as int - lastTransportSequence.value as int));
        if delta > 0 {
          expected, lost := delta, delta - 1;
        } else {
          expected := 0;
        }
      }
    }

    /** The loss part of `on_rtp_received`. */
    method CountArrival(sequence: U16, now: int, trimmed: int)
      requires Valid() && clock <= now <= trimmed
      modifies this`lossSamples, this`lastTransportSequence, this`pushedLoss, this`arrivals, this`lossCut, this`clock
      ensures Valid() && clock == trimmed && arrivals == old(arrivals) + [sequence]
      ensures var c := Contribution(old(lastTransportSequence), sequence);
        if c.expected > 0
        then pushedLoss == old(pushedLoss) + [Timed(now, c)] && lossCut == trimmed - 2_000_000
        else pushedLoss == old(pushedLoss)
    {
      hide Windowed, DropOld, Contribution, Accounted, SentValid, ReceivedValid, RtcpValid, RemoteValid;
      ghost var c := Contribution(lastTransportSequence, sequence);
      ArrivalAccounted(lossSamples, pushedLoss, lossCut, clock, arrivals, lastTransportSequence, sequence, now,
                       trimmed);
      AllLater(trimmed);
      var expected, lost := Measure(sequence);
      if expected > 0 {
        var samples := Trim(lossSamples + [Timed(now, LossSample(expected, lost))], trimmed);
        lastTransportSequence, lossSamples := Some(sequence), samples;
        pushedLoss, lossCut := pushedLoss + [Timed(now, c)], trimmed - WINDOW_US;
      }
      arrivals, clock := arrivals + [sequence], trimmed;
    }

    /** The loss samples are trimmed first, then the packets, then the bytes, each on a reading of its own. */
    method OnRtpReceived(sequence: U16, rtpTimestamp: U32, bytes: nat, now: int, lossTrimmed: int, packetsTrimmed: int,
                         bytesTrimmed: int)
      requires Valid() && clock <= now <= lossTrimmed <= packetsTrimmed <= bytesTrimmed
      modifies this`lossSamples, this`lastTransportSequence, this`pushedLoss, this`arrivals, this`lossCut, this`clock
      modifies this`receivedPackets, this`receivedBytes, this`pushedReceived, this`pushedReceivedBytes
      modifies this`receivedCut, this`receivedBytesCut
      ensures Valid() && clock == bytesTrimmed
      ensures receivedCut == packetsTrimmed - 2_000_000 && receivedBytesCut == bytesTrimmed - 2_000_000
      ensures arrivals == old(arrivals) + [sequence]
      ensures pushedReceived == old(pushedReceived) + [Timed(now, PacketSample(sequence, rtpTimestamp, bytes))]
      ensures pushedReceivedBytes == old(pushedReceivedBytes) + [Timed(now, bytes)]
    {
      hide Valid, ReceivedValid;
      ghost var earlier := clock;
      assert ReceivedValid(earlier) by { AllLater(earlier); }
      CountArrival(sequence, now, lossTrimmed);
      PushReceived(PacketSample(sequence, rtpTimestamp, bytes), now, packetsTrimmed, bytesTrimmed, earlier);
    }

    /** The window part of `on_rtp_received`; since the reading for the samples the clock has gone on. */
    method PushReceived(sample: PacketSample, now: int, packetsTrimmed: int, bytesTrimmed: int, ghost earlier: int)
      requires Valid() && ReceivedValid(earlier) && earlier <= now <= packetsTrimmed <= bytesTrimmed
      requires clock <= packetsTrimmed
      modifies this`receivedPackets, this`receivedBytes, this`pushedReceived, this`pushedReceivedBytes
      modifies this`receivedCut, this`receivedBytesCut, this`clock
      ensures Valid() && clock == bytesTrimmed
      ensures receivedCut == packetsTrimmed - 2_000_000 && receivedBytesCut == bytesTrimmed - 2_000_000
      ensures pushedReceived == old(pushedReceived) + [Timed(now, sample)]
      ensures pushedReceivedBytes == old(pushedReceivedBytes) + [Timed(now, sample.bytes)]
    {
      hide Windowed, DropOld, SentValid, RtcpValid, LossValid, RemoteValid;
      AllLater(bytesTrimmed);
      PushBoth(receivedPackets, pushedReceived, receivedCut, receivedBytes, pushedReceivedBytes, receivedBytesCut,
               earlier, now, packetsTrimmed, bytesTrimmed, sample, sample.bytes);
      var packets := Trim(receivedPackets + [Timed(now, sample)], packetsTrimmed);
      var sizes := Trim(receivedBytes + [Timed(now, sample.bytes)], bytesTrimmed);
      receivedPackets, pushedReceived := packets, pushedReceived + [Timed(now, sample)];
      receivedBytes, pushedReceivedBytes := sizes, pushedReceivedBytes + [Timed(now, sample.bytes)];
      receivedCut, receivedBytesCut, clock := packetsTrimmed - WINDOW_US, bytesTrimmed - WINDOW_US, bytesTrimmed;
    }

    /** RTCP in either direction shares one window. */
    method OnRtcp(bytes: nat, now: int, trimmed: int)
      requires Valid() && clock <= now <= trimmed
      modifies this`rtcpBytes, this`pushedRtcp, this`rtcpCut, this`clock
      ensures Valid() && clock == trimmed && rtcpCut == trimmed - 2_000_000
      ensures pushedRtcp == old(pushedRtcp) + [Timed(now, bytes)]
    {
      hide Windowed, DropOld, SentValid, ReceivedValid, LossValid, RemoteValid;
      AllLater(trimmed);
      PushAndTrim(rtcpBytes, pushedRtcp, rtcpCut, clock, now, trimmed, bytes);
      rtcpBytes := Trim(rtcpBytes + [Timed(now, bytes)], trimmed);
      pushedRtcp := pushedRtcp + [Timed(now, bytes)];
      rtcpCut, clock := trimmed - WINDOW_US, trimmed;
    }

    method OnReceiverReport(fractionLost: Byte, jitterTicks: U32, lastSr: U32, delaySinceLastSr: U32, arrivedAt: nat,
                            now: int)
      modifies this`remoteReport
      ensures remoteReport == Some(Timed(now, RemoteReport(
        fractionLost as real * 100.0 / 256.0, jitterTicks as real * 1000.0 / 90000.0,
        CompactNtp.RttMs(CompactNtp.Compact(arrivedAt), lastSr, delaySinceLastSr))))
    {
      var rttMs := 0.0;
      if lastSr != 0 {
        var arrival := CompactNtp.Compact(arrivedAt);
        var rttNtp := Wrap32(Wrap32(arrival as int - lastSr as int) as int - delaySinceLastSr as int);
        rttMs := rttNtp as real * 1000.0 / 65536.0;
        if rttMs < 0.0 || rttMs > CompactNtp.MAX_RTT_MS {
          rttMs := 0.0;
        }
      }
      remoteReport := Some(Timed(now, RemoteReport(
        fractionLost as real * 100.0 / 256.0, jitterTicks as real * 1000.0 / 90000.0, rttMs)));
    }

    method OnTwccFeedback(baseSequence: U16, statusCount: U16, referenceTime: nat, now: int)
      requires Valid()
      modifies this`twccReport
      ensures Valid()
      ensures twccReport == Some(Timed(now, TwccReport(baseSequence, statusCount, referenceTime)))
    {
      twccReport := Some(Timed(now, TwccReport(baseSequence, statusCount, referenceTime)));
    }

    method OnTransportLossReport(expected: nat, lost: nat, now: int)
      requires Valid()
      modifies this`remoteTransportLoss
      ensures Valid()
      ensures remoteTransportLoss == Some(Timed(now, LossSample(expected, if lost < expected then lost else expected)))
    {
      remoteTransportLoss := Some(Timed(now, LossSample(expected, if lost < expected then lost else expected)));
    }

    /** The loss window is trimmed, then summed up. */
    method TransportLossReport(now: int) returns (expected: nat, lost: nat)
      requires Valid() && clock <= now
      modifies this`lossSamples, this`lossCut, this`clock
      ensures Valid() && clock == now && lossCut == now - 2_000_000
      ensures lossSamples == Recent(pushedLoss, now - 2_000_000)
      ensures expected == lost + |lossSamples|
      ensures expected == Expected(Untimed(lossSamples)) && lost == Lost(Untimed(lossSamples))
    {
      hide DropOld, Samples, LastAfter, Recent;
      TrimLoss(now);
      expected, lost := Totals(Untimed(lossSamples));
      LossBalance();
    }

    method TrimLoss(now: int)
      requires Valid() && clock <= now
      modifies this`lossSamples, this`lossCut, this`clock
      ensures Valid() && clock == now && lossCut == now - 2_000_000
      ensures lossSamples == Recent(pushedLoss, now - 2_000_000)
    {
      hide DropOld, Samples, LastAfter, Recent, Windowed, SentValid, ReceivedValid, RtcpValid, RemoteValid;
      AllLater(now);
      TrimOnly(lossSamples, pushedLoss, lossCut, clock, now);
      WindowIs(lossSamples, pushedLoss, lossCut, clock, now);
      lossSamples := Trim(lossSamples, now);
      lossCut, clock := now - WINDOW_US, now;
    }

    /** In every reachable state the window balances. */
    lemma LossBalance()
      requires Valid()
      ensures OneEach(Untimed(lossSamples))
      ensures Expected(Untimed(lossSamples)) == Lost(Untimed(lossSamples)) + |lossSamples|
    {
      SamplesOneEach(arrivals);
      RecentOneEach(pushedLoss, lossCut);
      WindowBalance(Untimed(lossSamples));
    }

    /** The transport loss part of `snapshot`; whether the peer's report is fresh is judged on a later reading. */
    method TransportLossPercent(trimmed: int, now: int) returns (percent: real)
      requires Valid() && clock <= trimmed <= now
      modifies this`lossSamples, this`lossCut, this`clock
      ensures Valid() && clock == trimmed && lossSamples == Recent(pushedLoss, trimmed - 2_000_000)
      ensures percent == ShownLoss(remoteTransportLoss, Untimed(lossSamples), now) && 0.0 <= percent <= 100.0
    {
      hide Windowed, Recent, Expected, Lost;
      TrimLoss(trimmed);
      LossBalance();
      ShownLossRange(remoteTransportLoss, Untimed(lossSamples), now);
      var expected, lost := Totals(Untimed(lossSamples));
      percent := if expected == 0 then 0.0 else lost as real * 100.0 / expected as real;
      if remoteTransportLoss.Some? && now - remoteTransportLoss.value.at < REPORT_FRESH_US
         && remoteTransportLoss.value.value.expected > 0 {
        var loss := remoteTransportLoss.value.value;
        percent := loss.lost as real * 100.0 / loss.expected as real;
      }
    }
  }

  /** A packet window and a byte window take a sample each and are trimmed one after the other. */
  lemma PushBoth(packets: seq<Timed<PacketSample>>, pushedPackets: seq<Timed<PacketSample>>, packetsCut: int,
                 bytes: seq<Timed<nat>>, pushedBytes: seq<Timed<nat>>, bytesCut: int, clock: int, now: int,
                 packetsTrimmed: int, bytesTrimmed: int, sample: PacketSample, size: nat)
    requires Windowed(packets, pushedPackets, packetsCut, clock) && Windowed(bytes, pushedBytes, bytesCut, clock)
    requires clock <= now <= packetsTrimmed <= bytesTrimmed
    ensures Windowed(DropOld(packets + [Timed(now, sample)], packetsTrimmed - WINDOW_US),
                     pushedPackets + [Timed(now, sample)], packetsTrimmed - WINDOW_US, bytesTrimmed)
    ensures Windowed(DropOld(bytes + [Timed(now, size)], bytesTrimmed - WINDOW_US),
                     pushedBytes + [Timed(now, size)], bytesTrimmed - WINDOW_US, bytesTrimmed)
  {
    hide Windowed, DropOld;
    PushAndTrim(packets, pushedPackets, packetsCut, clock, now, packetsTrimmed, sample);
    PushAndTrim(bytes, pushedBytes, bytesCut, clock, now, bytesTrimmed, size);
    Later(DropOld(packets + [Timed(now, sample)], packetsTrimmed - WINDOW_US), pushedPackets + [Timed(now, sample)],
          packetsTrimmed - WINDOW_US, packetsTrimmed, bytesTrimmed);
  }

  /** The peer's report is shown for three seconds, if it counted anything, and the local window otherwise. */
  lemma ShownMeans(remote: Option<Timed<LossSample>>, samples: seq<LossSample>, now: int)
    ensures var recent := remote.Some? && now - remote.value.at < 3_000_000 && remote.value.value.expected > 0;
      var s := if recent then remote.value.value else LossSample(Expected(samples), Lost(samples));
      var shown := ShownLoss(remote, samples, now);
      if s.expected == 0 then shown == 0.0 else shown * s.expected as real == s.lost as real * 100.0
  {
    hide Lost, Expected;
    PercentMeans(Lost(samples), Expected(samples));
    if remote.Some? {
      PercentMeans(remote.value.value.lost, remote.value.value.expected);
    }
  }

  lemma PercentMeans(lost: nat, expected: nat)
    ensures if expected == 0 then Percent(lost, expected) == 0.0
            else Percent(lost, expected) * expected as real == lost as real * 100.0
  {
  }

  /** What is shown is a percentage. */
  lemma ShownLossRange(remote: Option<Timed<LossSample>>, samples: seq<LossSample>, now: int)
    requires remote.Some? ==> remote.value.value.lost <= remote.value.value.expected
    requires Lost(samples) <= Expected(samples)
    ensures 0.0 <= ShownLoss(remote, samples, now) <= 100.0
  {
    hide Lost, Expected, Percent;
    PercentRange(Lost(samples), Expected(samples));
    if remote.Some? {
      PercentRange(remote.value.value.lost, remote.value.value.expected);
    }
  }

  lemma PercentRange(lost: nat, expected: nat)
    requires lost <= expected
    ensures 0.0 <= Percent(lost, expected) <= 100.0
  {
    if expected > 0 {
      var a, b := lost as real, expected as real;
      assert Percent(lost, expected) * b == a * 100.0 <= b * 100.0;
    }
  }

  lemma WindowIs<T>(window: seq<Timed<T>>, history: seq<Timed<T>>, cutoff: int, clock: int, now: int)
    requires Windowed(window, history, cutoff, clock) && clock <= now
    ensures DropOld(window, now - WINDOW_US) == Recent(history, now - WINDOW_US)
  {
    TrimOnly(window, history, cutoff, clock, now);
  }

  lemma {:induction false} RecentOneEach(history: seq<Timed<LossSample>>, cutoff: int)
    requires OneEach(Untimed(history))
    ensures OneEach(Untimed(Recent(history, cutoff)))
  {
    if history != [] {
      var n := |history| - 1;
      forall i | 0 <= i < n ensures Untimed(history[..n])[i] == Untimed(history)[i] {
      }
      RecentOneEach(history[..n], cutoff);
      assert Untimed(history)[n] == history[n].value;
      var front, all := Recent(history[..n], cutoff), Recent(history, cutoff);
      forall i | 0 <= i < |all| ensures Untimed(all)[i].expected == Untimed(all)[i].lost + 1 {
        if i < |front| {
          assert Untimed(all)[i] == Untimed(front)[i];
        }
      }
    }
  }

  /** One more arrival: its contribution, if any, joins the window. */
  lemma ArrivalAccounted(window: seq<Timed<LossSample>>, pushed: seq<Timed<LossSample>>, cutoff: int, clock: int,
                         arrivals: seq<U16>, last: Option<U16>, sequence: U16, now: int, trimmed: int)
    requires Accounted(window, pushed, cutoff, clock, arrivals, last) && clock <= now <= trimmed
    ensures var c := Contribution(last, sequence);
      if c.expected > 0
      then Accounted(DropOld(window + [Timed(now, c)], trimmed - WINDOW_US), pushed + [Timed(now, c)],
                     trimmed - WINDOW_US, trimmed, arrivals + [sequence], Some(sequence))
      else Accounted(window, pushed, cutoff, trimmed, arrivals + [sequence], last)
  {
    hide Windowed, DropOld, Samples, LastAfter, Untimed, Contribution;
    ArrivalNext(arrivals, sequence, pushed, now);
    PushAndTrim(window, pushed, cutoff, clock, now, trimmed, Contribution(last, sequence));
    Later(window, pushed, cutoff, clock, trimmed);
  }

  /** One more arrival, seen from the loss samples. */
  lemma ArrivalNext(arrivals: seq<U16>, sequence: U16, pushed: seq<Timed<LossSample>>, now: int)
    requires Untimed(pushed) == Samples(arrivals)
    ensures var c := Contribution(LastAfter(arrivals), sequence);
      && LastAfter(arrivals + [sequence]) == (if c.expected > 0 then Some(sequence) else LastAfter(arrivals))
      && Samples(arrivals + [sequence]) ==
           (if c.expected > 0 then Untimed(pushed + [Timed(now, c)]) else Untimed(pushed))
  {
    assert (arrivals + [sequence])[..|arrivals|] == arrivals;
    var c := Contribution(LastAfter(arrivals), sequence);
    assert Untimed(pushed + [Timed(now, c)]) == Untimed(pushed) + [c];
  }

  /**
   * `observe_twcc_feedback`: what the decoder counts reaches the estimator. The loss shown afterwards is the share of
   * the reported packets whose status says not received.
   */
  method ObserveTwccFeedback(estimator: Estimator, data: seq<Byte>, now: int, countedAt: int)
    requires estimator.Valid()
    modifies estimator`twccReport, estimator`remoteTransportLoss
    ensures estimator.Valid()
    ensures |data| < TwccFeedback.HEADER_SIZE ==>
      && estimator.twccReport == old(estimator.twccReport)
      && estimator.remoteTransportLoss == old(estimator.remoteTransportLoss)
    ensures |data| >= TwccFeedback.HEADER_SIZE ==>
      var statuses := TwccFeedback.Statuses(data);
      var time := data[16] as int * 0x1_0000 + data[17] as int * 0x100 + data[18] as int;
      && estimator.twccReport == Some(Timed(now, TwccReport(ReadU16(data, 12), ReadU16(data, 14), time)))
      && estimator.remoteTransportLoss ==
           (if statuses == [] then old(estimator.remoteTransportLoss)
            else Some(Timed(countedAt, LossSample(|statuses|, TwccFeedback.Zeros(statuses)))))
  {
    if |data| < TwccFeedback.HEADER_SIZE {
      return;
    }
    var referenceTime := data[16] as int * 0x1_0000 + data[17] as int * 0x100 + data[18] as int;
    estimator.OnTwccFeedback(ReadU16(data, 12), ReadU16(data, 14), referenceTime, now);
    var received, lost := TwccFeedback.CountStatuses(data);
    var expected := received + lost;
    if expected > 0 {
      estimator.OnTransportLossReport(expected, lost, countedAt);
    }
  }
}

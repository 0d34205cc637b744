/** `MediaStatisticsHandler`: numbers outgoing packets, remembers arrivals and reports them back. */
module MediaStatistics {
  import opened Words
  import opened Rtp
  import opened StampedPacket
  import opened TwccFeedback
  import LossAccounting

  const FEEDBACK_INTERVAL_US := 200_000
  const MAX_PENDING := 4096

  datatype Sample = Sample(sequence: U16, at: int)

  /** The furthest sequence number ahead of the first, compared by signed 16-bit difference. */
  function MaxSequence(samples: seq<Sample>, first: U16): U16 {
    if samples == [] then first
    else
      var n := |samples| - 1;
      var max := MaxSequence(samples[..n], first);
      if Signed16(Wrap16(samples[n].sequence - max)) > 0 then samples[n].sequence else max
  }

  function PacketCount(samples: seq<Sample>): U16
    requires samples != []
  {
    var first := samples[0].sequence;
    Wrap16(Wrap16(MaxSequence(samples, first) - first) + 1)
  }

  predicate Reportable(samples: seq<Sample>) {
    samples != [] && 0 < PacketCount(samples) <= MAX_STATUS
  }

  function Sequences(samples: seq<Sample>): set<U16> {
    set s | s in samples :: s.sequence
  }

  /** Which packets of the reported range are among the samples. */
  function ReceivedFlags(first: U16, count: nat, received: set<U16>): (flags: seq<bool>)
    ensures |flags| == count
  {
    seq(count, i requires 0 <= i < count => Wrap16(first + i) in received)
  }

  function Flags(samples: seq<Sample>): (flags: seq<bool>)
    requires Reportable(samples)
    ensures |flags| == PacketCount(samples) <= MAX_STATUS
  {
    ReceivedFlags(samples[0].sequence, PacketCount(samples), Sequences(samples))
  }

  function ReferenceTime(at: int): (t: int)
    ensures 0 <= t < 0x100_0000
  {
    at / 1000 / 64 % 0x100_0000
  }

  function Report(samples: seq<Sample>, feedbackCount: Byte): seq<Byte>
    requires Reportable(samples)
  {
    Feedback(Flags(samples), samples[0].sequence, ReferenceTime(samples[0].at), feedbackCount)
  }

  /** Some sample carries the number `i` places after the first one's. */
  predicate Mentioned(samples: seq<Sample>, i: nat)
    requires samples != []
  {
    Wrap16(samples[0].sequence + i) in Sequences(samples)
  }

  /** The packets of the reported range that no sample mentions. */
  function MissingOffsets(samples: seq<Sample>): set<nat>
    requires Reportable(samples)
  {
    set i: nat | i < PacketCount(samples) && !Mentioned(samples, i)
  }

  function ClearAt(flags: seq<bool>): set<nat> {
    set i: nat | i < |flags| && !flags[i]
  }

  lemma {:induction false} ClearFlags(flags: seq<bool>)
    ensures |flags| - ReceivedIn(flags) == |ClearAt(flags)|
  {
    if flags != [] {
      var n := |flags| - 1;
      ClearFlags(flags[..n]);
      assert ClearAt(flags) == ClearAt(flags[..n]) + if flags[n] then {} else {n};
    }
  }

  /**
   * Whatever the samples, decoding the feedback reports as many packets as the range holds and as lost exactly those
   * whose sequence number is not among the samples.
   */
  lemma FeedbackRoundTrip(samples: seq<Sample>, feedbackCount: Byte)
    requires Reportable(samples)
    ensures var data := Report(samples, feedbackCount);
      && |data| >= HEADER_SIZE && (ReadU16(data, 2) + 1) * 4 == |data|
      && |Statuses(data)| == PacketCount(samples)
      && Zeros(Statuses(data)) == |MissingOffsets(samples)|
      && ReadU16(data, 12) == samples[0].sequence
  {
    hide Statuses, Feedback, ReceivedIn, Zeros;
    var flags := Flags(samples);
    FeedbackDecodes(flags, samples[0].sequence, ReferenceTime(samples[0].at), feedbackCount);
    ClearFlags(flags);
    assert MissingOffsets(samples) == ClearAt(flags);
  }

  /** The report byte by byte: its fixed fields, and its length with chunks and one byte for each received packet. */
  lemma ReportLayout(samples: seq<Sample>, feedbackCount: Byte)
    requires Reportable(samples)
    ensures var data, at := Report(samples, feedbackCount), samples[0].at;
      var n := 20 + 2 * |Runs(Flags(samples))| + PacketCount(samples) - |MissingOffsets(samples)|;
      && n <= |data| < n + 4 && |data| % 4 == 0
      && data[0] == 0x8F && data[1] == 205 && (forall i | 4 <= i < 12 :: data[i] == 0)
      && data[16] as int * 0x1_0000 + data[17] as int * 0x100 + data[18] as int == at / 1000 / 64 % 0x100_0000
      && data[19] == feedbackCount
  {
    hide Statuses, Feedback, ReceivedIn, Zeros, Runs;
    var flags := Flags(samples);
    ClearFlags(flags);
    assert MissingOffsets(samples) == ClearAt(flags);
    FeedbackHeader(flags, samples[0].sequence, ReferenceTime(samples[0].at), feedbackCount);
    SizeFits(flags);
  }

  /** Arrivals whose true sequence numbers, before wrapping, lie less than 2^15 apart. */
  predicate Stands(samples: seq<Sample>, xs: seq<int>) {
    && |samples| == |xs|
    && (forall i | 0 <= i < |xs| :: samples[i].sequence == Wrap16(xs[i]))
    && forall i, j | 0 <= i < |xs| && 0 <= j < |xs| :: xs[i] - xs[j] < 0x8000
  }

  lemma {:induction false} MaxSequenceTrue(samples: seq<Sample>, xs: seq<int>, n: nat)
    requires Stands(samples, xs) && 0 < n <= |xs|
    ensures MaxSequence(samples[..n], samples[0].sequence) == Wrap16(LossAccounting.Highest(xs[..n]))
  {
    assert samples[..n][..n - 1] == samples[..n - 1] && xs[..n][..n - 1] == xs[..n - 1];
    if n == 1 {
      assert MaxSequence([], samples[0].sequence) == samples[0].sequence;
      assert samples[..0] == [];
      assert Signed16(Wrap16(samples[0].sequence - samples[0].sequence)) == 0;
    } else {
      MaxSequenceTrue(samples, xs, n - 1);
      LossAccounting.Bounds(xs[..n - 1]);
      var m := LossAccounting.Highest(xs[..n - 1]);
      var k :| 0 <= k < n - 1 && xs[k] == m;
      SignedDifference(xs[n - 1], m);
    }
  }

  /** The report speaks about the true numbers, from the first sample to the highest; lost are those of no sample. */
  lemma ReportSpeaksTrue(samples: seq<Sample>, xs: seq<int>)
    requires samples != [] && Stands(samples, xs)
    ensures PacketCount(samples) == LossAccounting.Highest(xs) - xs[0] + 1
    ensures Reportable(samples) ==>
      forall i: nat | i < PacketCount(samples) :: i in MissingOffsets(samples) <==> xs[0] + i !in xs
  {
    hide Mentioned, Stands;
    RangeTrue(samples, xs);
    if Reportable(samples) {
      forall i: nat | i < PacketCount(samples) ensures i in MissingOffsets(samples) <==> xs[0] + i !in xs {
        LossAccounting.Bounds(xs);
        MentionedTrue(samples, xs, i, LossAccounting.Highest(xs));
      }
    }
  }

  lemma RangeTrue(samples: seq<Sample>, xs: seq<int>)
    requires samples != [] && Stands(samples, xs)
    ensures |xs| == |samples| && PacketCount(samples) == LossAccounting.Highest(xs) - xs[0] + 1
  {
    hide MaxSequence, LossAccounting.Highest, LossAccounting.Lowest, Wrap16;
    assert samples[..|xs|] == samples && xs[..|xs|] == xs;
    MaxSequenceTrue(samples, xs, |xs|);
    LossAccounting.Bounds(xs);
    assert xs[0] in xs;
    var m :| 0 <= m < |xs| && xs[m] == LossAccounting.Highest(xs);
    NearDifference(LossAccounting.Highest(xs), xs[0]);
  }

  lemma NearDifference(x: int, y: int)
    requires 0 <= x - y < 0x8000
    ensures Wrap16(Wrap16(Wrap16(x) - Wrap16(y)) + 1) == x - y + 1
  {
    WrapDifference(x, y);
  }

  lemma MentionedTrue(samples: seq<Sample>, xs: seq<int>, i: nat, max: int)
    requires samples != [] && Stands(samples, xs) && max in xs && xs[0] + i <= max
    ensures Mentioned(samples, i) <==> xs[0] + i in xs
  {
    hide Wrap16;
    var w := Wrap16(samples[0].sequence as int + i);
    WrapShift(xs[0], i);
    assert w == Wrap16(xs[0] + i);
    if w in Sequences(samples) {
      var s :| s in samples && s.sequence == w;
      var k :| 0 <= k < |samples| && samples[k] == s;
      var m :| 0 <= m < |xs| && xs[m] == max;
      assert xs[m] - xs[k] < 0x8000 && xs[k] - xs[0] < 0x8000 && xs[m] - xs[0] < 0x8000;
      SameWrap(xs[k], xs[0] + i);
    }
    if xs[0] + i in xs {
      var k :| 0 <= k < |xs| && xs[k] == xs[0] + i;
      assert samples[k] in samples;
    }
  }

  lemma SameWrap(x: int, y: int)
    requires Wrap16(x) == Wrap16(y) && -0x1_0000 < x - y < 0x1_0000
    ensures x == y
  {
  }

  // ---------------------------------------------------------------- the handler

  function RunWords(runs: seq<StatusRun>): (w: seq<U16>)
    requires forall i | 0 <= i < |runs| :: runs[i].length <= MAX_RUN
    ensures |w| == |runs|
  {
    seq(|runs|, i requires 0 <= i < |runs| => RunWord(runs[i]))
  }

  lemma {:induction false} ReceivedAppend(a: seq<bool>, b: seq<bool>)
    ensures ReceivedIn(a + b) == ReceivedIn(a) + ReceivedIn(b)
    decreases b
  {
    if b == [] {
      assert a + [] == a;
    } else {
      var n := |b| - 1;
      ReceivedAppend(a, b[..n]);
      assert (a + b)[..|a| + n] == a + b[..n];
    }
  }

  lemma {:induction false} ReceivedConstant(a: seq<bool>)
    requires a != [] && forall i | 0 <= i < |a| :: a[i] == a[0]
    ensures ReceivedIn(a) == if a[0] then |a| else 0
  {
    var n := |a| - 1;
    if n > 0 {
      ReceivedConstant(a[..n]);
    } else {
      assert a[..0] == [];
    }
  }

  /** What the chunk loop has written and what is left. */
  ghost predicate Chunking(flags: seq<bool>, offset: nat, runs: seq<StatusRun>, receivedCount: nat) {
    && offset <= |flags| && Runs(flags) == runs + Runs(flags[offset..])
    && receivedCount == ReceivedIn(flags[..offset])
  }

  lemma ChunkingNext(flags: seq<bool>, offset: nat, runs: seq<StatusRun>, receivedCount: nat, run: nat)
    requires Chunking(flags, offset, runs, receivedCount) && offset < |flags|
    requires run == LeadingRun(flags[offset..], 1)
    ensures offset + run <= |flags|
    ensures Chunking(flags, offset + run, runs + [StatusRun(flags[offset], run)],
                     receivedCount + if flags[offset] then run else 0)
  {
    hide LeadingRun;
    var rest := flags[offset..];
    assert rest[run..] == flags[offset + run..];
    assert rest[..run] == flags[offset..offset + run];
    assert flags[..offset + run] == flags[..offset] + rest[..run];
    LeadingConstant(rest, run);
    ReceivedAppend(flags[..offset], rest[..run]);
    var next := StatusRun(flags[offset], run);
    assert runs + ([next] + Runs(rest[run..])) == runs + [next] + Runs(rest[run..]);
  }

  lemma LeadingConstant(flags: seq<bool>, run: nat)
    requires flags != [] && run == LeadingRun(flags, 1)
    ensures ReceivedIn(flags[..run]) == if flags[0] then run else 0
  {
    ReceivedConstant(flags[..run]);
  }

  /** The chunk loops: maximal runs of equal status over the range. */
  method BuildChunks(first: U16, count: U16, received: set<U16>) returns (chunks: seq<U16>, receivedCount: nat)
    ensures var flags := ReceivedFlags(first, count, received);
      && (forall i | 0 <= i < |Runs(flags)| :: Runs(flags)[i].length <= MAX_RUN)
      && chunks == RunWords(Runs(flags)) && receivedCount == ReceivedIn(flags)
  {
    hide Chunking, LeadingRun, Runs;
    ghost var flags := ReceivedFlags(first, count, received);
    ghost var runs: seq<StatusRun> := [];
    chunks, receivedCount := [], 0;
    ChunkingStart(flags);
    var offset := 0;
    while offset < count
      invariant offset <= count
      invariant Chunking(flags, offset, runs, receivedCount)
      invariant |chunks| == |runs|
      invariant forall i | 0 <= i < |runs| :: runs[i].length <= MAX_RUN && chunks[i] == RunWord(runs[i])
    {
      var isReceived := Wrap16(first as int + offset) in received;
      ghost var rest := flags[offset..];
      var run := 1;
      while offset + run < count && run < MAX_RUN
        invariant 1 <= run <= MAX_RUN && offset + run <= count
        invariant LeadingRun(rest, run) == LeadingRun(rest, 1)
        decreases count as int - offset - run
      {
        var nextReceived := Wrap16(first as int + offset + run) in received;
        LeadingStep(rest, run);
        if nextReceived != isReceived {
          break;
        }
        run := run + 1;
      }
      LeadingStop(rest, run);
      ChunkingNext(flags, offset, runs, receivedCount, run);
      if isReceived {
        receivedCount := receivedCount + run;
      }
      chunks := chunks + [(if isReceived then 0x2000 else 0) + run];
      runs := runs + [StatusRun(isReceived, run)];
      offset := offset + run;
    }
    ChunkingEnd(flags, runs, receivedCount);
  }

  lemma LeadingStep(flags: seq<bool>, run: nat)
    requires 0 < run < |flags| && run < MAX_RUN
    ensures LeadingRun(flags, run) == if flags[run] == flags[0] then LeadingRun(flags, run + 1) else run
  {
  }

  lemma LeadingStop(flags: seq<bool>, run: nat)
    requires 0 < run <= |flags| && run <= MAX_RUN
    ensures run == |flags| || run == MAX_RUN || flags[run] != flags[0] ==> LeadingRun(flags, run) == run
  {
  }

  lemma ChunkingStart(flags: seq<bool>)
    ensures Chunking(flags, 0, [], 0)
  {
    assert flags[0..] == flags && flags[..0] == [];
    assert [] + Runs(flags) == Runs(flags);
  }

  lemma ChunkingEnd(flags: seq<bool>, runs: seq<StatusRun>, receivedCount: nat)
    requires Chunking(flags, |flags|, runs, receivedCount)
    ensures Runs(flags) == runs && receivedCount == ReceivedIn(flags)
  {
    assert flags[|flags|..] == [] && flags[..|flags|] == flags;
    assert runs + [] == runs;
  }

  lemma {:induction false} WordBytesAppend(runs: seq<StatusRun>, r: StatusRun)
    requires r.length <= MAX_RUN && forall i | 0 <= i < |runs| :: runs[i].length <= MAX_RUN
    ensures WordBytes(runs + [r]) == WordBytes(runs) + BytesOfU16(RunWord(r))
  {
    if runs != [] {
      WordBytesAppend(runs[1..], r);
      assert (runs + [r])[1..] == runs[1..] + [r];
    } else {
      assert (runs + [r])[1..] == [];
    }
  }

  /** `memcpy` of a value in network byte order. */
  method PutU16(bytes: array<Byte>, at: nat, v: U16)
    requires at + 2 <= bytes.Length
    modifies bytes
    ensures bytes[at..at + 2] == BytesOfU16(v)
    ensures forall i | 0 <= i < bytes.Length && i != at && i != at + 1 :: bytes[i] == old(bytes[i])
  {
    bytes[at] := v / 0x100;
    bytes[at + 1] := v % 0x100;
  }

  /** The fixed part, field by field; the rest of the buffer is not touched. */
  method WriteHeader(bytes: array<Byte>, lengthWords: U16, baseSequence: U16, packetCount: U16, referenceTime: int,
                     feedbackCount: Byte)
    requires bytes.Length >= HEADER_SIZE && 0 <= referenceTime < 0x100_0000
    requires forall i | 0 <= i < bytes.Length :: bytes[i] == 0
    modifies bytes
    ensures forall i | HEADER_SIZE <= i < bytes.Length :: bytes[i] == 0
    ensures bytes[..2] == [0x8F, 205] && bytes[2..4] == BytesOfU16(lengthWords)
    ensures bytes[4..12] == [0, 0, 0, 0, 0, 0, 0, 0]
    ensures bytes[12..14] == BytesOfU16(baseSequence) && bytes[14..16] == BytesOfU16(packetCount)
    ensures bytes[16..20] ==
      [referenceTime / 0x1_0000, referenceTime / 0x100 % 0x100, referenceTime % 0x100, feedbackCount]
  {
    hide BytesOfU16;
    bytes[0] := 0x80 + 15;
    bytes[1] := 205;
    PutU16(bytes, 2, lengthWords);
    PutU16(bytes, 12, baseSequence);
    PutU16(bytes, 14, packetCount);
    bytes[16] := referenceTime / 0x1_0000;
    bytes[17] := referenceTime / 0x100 % 0x100;
    bytes[18] := referenceTime % 0x100;
    bytes[19] := feedbackCount;
  }

  lemma SectionsJoin(b: seq<Byte>)
    requires |b| >= HEADER_SIZE
    ensures b[..HEADER_SIZE] == b[..2] + b[2..4] + b[4..12] + b[12..14] + b[14..16] + b[16..20]
  {
  }

  /** Fills the message buffer; every write is inside it. */
  method WriteFeedback(chunks: seq<U16>, receivedCount: nat, baseSequence: U16, packetCount: U16, referenceTime: int,
                       feedbackCount: Byte, ghost flags: seq<bool>)
    returns (bytes: array<Byte>)
    requires |flags| == packetCount <= MAX_STATUS && 0 <= referenceTime < 0x100_0000
    requires forall i | 0 <= i < |Runs(flags)| :: Runs(flags)[i].length <= MAX_RUN
    requires chunks == RunWords(Runs(flags)) && receivedCount == ReceivedIn(flags)
    ensures fresh(bytes) && bytes[..] == Feedback(flags, baseSequence, referenceTime, feedbackCount)
  {
    hide Runs, ReceivedIn, WordBytes, RunWord, BytesOfU16;
    ghost var runs := Runs(flags);
    SizeFits(flags);
    var packetSize := HEADER_SIZE + |chunks| * 2 + receivedCount;
    var paddedSize := (packetSize + 3) / 4 * 4;
    bytes := new Byte[paddedSize](_ => 0);
    WriteHeader(bytes, paddedSize / 4 - 1, baseSequence, packetCount, referenceTime, feedbackCount);
    SectionsJoin(bytes[..]);
    assert bytes[..HEADER_SIZE] == Header(flags, baseSequence, referenceTime, feedbackCount);
    WriteChunks(bytes, chunks, runs);
    ghost var rest := seq(paddedSize - HEADER_SIZE - 2 * |runs|, _ => 0);
    ZeroTail(bytes[HEADER_SIZE + 2 * |runs|..], rest);
    var end := HEADER_SIZE + 2 * |runs|;
    assert bytes[..] == bytes[..HEADER_SIZE] + bytes[HEADER_SIZE..end] + bytes[end..];
  }

  lemma ZeroTail(a: seq<Byte>, b: seq<Byte>)
    requires |a| == |b| && forall i | 0 <= i < |a| :: a[i] == b[i]
    ensures a == b
  {
  }

  method WriteChunks(bytes: array<Byte>, chunks: seq<U16>, ghost runs: seq<StatusRun>)
    requires forall i | 0 <= i < |runs| :: runs[i].length <= MAX_RUN
    requires chunks == RunWords(runs) && HEADER_SIZE + 2 * |chunks| <= bytes.Length
    modifies bytes
    ensures bytes[..HEADER_SIZE] == old(bytes[..HEADER_SIZE])
    ensures bytes[HEADER_SIZE..HEADER_SIZE + 2 * |runs|] == WordBytes(runs)
    ensures bytes[HEADER_SIZE + 2 * |runs|..] == old(bytes[HEADER_SIZE + 2 * |runs|..])
  {
    hide WordBytes, RunWord;
    NoWords();
    var cursor := HEADER_SIZE;
    for i := 0 to |chunks|
      invariant cursor == HEADER_SIZE + 2 * i
      invariant bytes[..HEADER_SIZE] == old(bytes[..HEADER_SIZE])
      invariant bytes[HEADER_SIZE..cursor] == WordBytes(runs[..i])
      invariant bytes[cursor..] == old(bytes[cursor..])
    {
      assert runs[..i + 1] == runs[..i] + [runs[i]];
      WordBytesAppend(runs[..i], runs[i]);
      ghost var done := bytes[HEADER_SIZE..cursor];
      ghost var tail := bytes[cursor..];
      bytes[cursor] := chunks[i] / 0x100;
      bytes[cursor + 1] := chunks[i] % 0x100;
      assert bytes[HEADER_SIZE..cursor + 2] == done + BytesOfU16(chunks[i]);
      assert bytes[cursor + 2..] == tail[2..] == old(bytes[cursor..])[2..] == old(bytes[cursor + 2..]);
      cursor := cursor + 2;
    }
    assert runs[..|runs|] == runs;
  }

  lemma NoWords()
    ensures WordBytes([]) == []
  {
  }

  class MediaStatisticsHandler {
    var lastTwccFeedbackUs: int
    var nextTwccSequence: U16
    var twccFeedbackCount: Byte
    var pendingTwccSamples: seq<Sample>
    /** Every numbered packet that ever arrived, and how many of them are no longer pending. */
    ghost var arrived: seq<Sample>
    ghost var forgotten: nat

    /** The pending samples are the latest arrivals. */
    ghost predicate Valid()
      reads this
    {
      forgotten <= |arrived| && pendingTwccSamples == arrived[forgotten..] && |pendingTwccSamples| <= MAX_PENDING
    }

    constructor ()
      ensures lastTwccFeedbackUs == 0 && nextTwccSequence == 1 && twccFeedbackCount == 0 && pendingTwccSamples == []
      ensures Valid() && arrived == []
    {
      lastTwccFeedbackUs, nextTwccSequence, twccFeedbackCount, pendingTwccSamples := 0, 1, 0, [];
      arrived, forgotten := [], 0;
    }

    /** Numbers an outgoing packet; packets that cannot carry a number do not use one up. */
    method NumberPacket(message: Message)
      requires Valid()
      modifies this`nextTwccSequence, message`bytes
      ensures Valid() && message.bytes == WriteTwcc(old(message.bytes), old(nextTwccSequence))
      ensures nextTwccSequence ==
        if Numbered(old(message.bytes)) then Wrap16(old(nextTwccSequence) as int + 1) else old(nextTwccSequence)
    {
      var numbered := WriteTwccExtension(message, nextTwccSequence);
      if numbered {
        nextTwccSequence := Wrap16(nextTwccSequence as int + 1);
      }
    }

    method ObserveTwccExtension(message: Message, now: int)
      requires Valid()
      modifies this`pendingTwccSamples, this`arrived, this`forgotten
      ensures Valid()
      ensures var sequence := ReadTwcc(message.bytes);
        if sequence.None? then pendingTwccSamples == old(pendingTwccSamples) && arrived == old(arrived)
        else
          var sample := Sample(sequence.value, now);
          && arrived == old(arrived) + [sample]
          && |pendingTwccSamples| == if |old(pendingTwccSamples)| < 4096 then |old(pendingTwccSamples)| + 1 else 4096
    {
      var sequence := ReadTwccSequence(message);
      if sequence.Some? {
        pendingTwccSamples := pendingTwccSamples + [Sample(sequence.value, now)];
        ghost var all := pendingTwccSamples;
        arrived := arrived + [Sample(sequence.value, now)];
        assert all == arrived[forgotten..];
        while |pendingTwccSamples| > MAX_PENDING
          invariant forgotten <= |arrived| && pendingTwccSamples == arrived[forgotten..]
          invariant arrived == old(arrived) + [Sample(sequence.value, now)]
          invariant |pendingTwccSamples| <= |all| && pendingTwccSamples == all[|all| - |pendingTwccSamples|..]
          invariant |all| > MAX_PENDING ==> |pendingTwccSamples| >= MAX_PENDING
          invariant |all| <= MAX_PENDING ==> pendingTwccSamples == all
          decreases |pendingTwccSamples|
        {
          pendingTwccSamples := pendingTwccSamples[1..];
          forgotten := forgotten + 1;
        }
      }
    }

    /** Sends one report for everything pending, at most every 200 ms; the samples are used up even if unreportable. */
    method MaybeSendTwccFeedback(now: int) returns (sent: Option<seq<Byte>>)
      requires Valid()
      modifies this
      ensures Valid() && arrived == old(arrived)
      ensures var due := now - old(lastTwccFeedbackUs) >= 200_000 && old(pendingTwccSamples) != [];
        && (!due ==> sent == None && unchanged(this))
        && (due ==>
              && lastTwccFeedbackUs == now && pendingTwccSamples == []
              && (sent.Some? <==> 0 < PacketCount(old(pendingTwccSamples)) <= 4096)
              && sent == (if Reportable(old(pendingTwccSamples))
                          then Some(Report(old(pendingTwccSamples), old(twccFeedbackCount))) else None)
              && twccFeedbackCount ==
                   (if sent.Some? then (old(twccFeedbackCount) as int + 1) % 0x100 else old(twccFeedbackCount)))
      ensures nextTwccSequence == old(nextTwccSequence)
    {
      hide Runs, Feedback, ReceivedIn, ReceivedFlags;
      if now - lastTwccFeedbackUs < FEEDBACK_INTERVAL_US || pendingTwccSamples == [] {
        return None;
      }
      lastTwccFeedbackUs := now;
      var baseSequence := pendingTwccSamples[0].sequence;
      var maxSequence := FindMaxSequence(pendingTwccSamples, baseSequence);
      var packetCount := Wrap16(Wrap16(maxSequence as int - baseSequence as int) as int + 1);
      if packetCount == 0 || packetCount > MAX_STATUS {
        pendingTwccSamples, forgotten := [], |arrived|;
        return None;
      }
      var received := set s | s in pendingTwccSamples :: s.sequence;
      ghost var flags := Flags(pendingTwccSamples);
      var chunks, receivedCount := BuildChunks(baseSequence, packetCount, received);
      var referenceTime := pendingTwccSamples[0].at / 1000 / 64 % 0x100_0000;
      var bytes := WriteFeedback(chunks, receivedCount, baseSequence, packetCount, referenceTime, twccFeedbackCount,
                                 flags);
      twccFeedbackCount := (twccFeedbackCount as int + 1) % 0x100;
      sent := Some(bytes[..]);
      pendingTwccSamples, forgotten := [], |arrived|;
    }
  }

  method FindMaxSequence(samples: seq<Sample>, first: U16) returns (max: U16)
    ensures max == MaxSequence(samples, first)
  {
    max := first;
    for i := 0 to |samples|
      invariant max == MaxSequence(samples[..i], first)
    {
      assert samples[..i + 1][..i] == samples[..i];
      var delta := Signed16(Wrap16(samples[i].sequence as int - max as int));
      if delta > 0 {
        max := samples[i].sequence;
      }
    }
    assert samples[..|samples|] == samples;
  }
}

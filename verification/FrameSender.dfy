/** The sending `VideoTransportHandler`: every batch of media packets becomes one numbered frame. */
module FrameSender {
  import opened Words
  import opened Rtp
  import opened StampedPacket
  import Rtcp

  const MAX_COUNT := 0xFFFF

  datatype Sender = Sender(epoch: U16, keyframe: bool, nextFrameId: U32)

  const START := Sender(1, false, 1)

  /** One frame as it was sent: the labels, and the media packets before stamping. */
  datatype SentFrame = SentFrame(epoch: U16, frameId: U32, keyframe: bool, media: seq<Msg>)

  function MediaOf(messages: seq<Msg>): (r: seq<Msg>)
    ensures |r| <= |messages|
    ensures forall m | m in r :: IsRtp(m)
  {
    if messages == [] then []
    else
      var n := |messages| - 1;
      MediaOf(messages[..n]) + if IsRtp(messages[n]) then [messages[n]] else []
  }

  /** The packet count the metadata announces; a frame with more packets leaves the rest unstamped. */
  function Count(media: seq<Msg>): U16 {
    if |media| < MAX_COUNT then |media| else MAX_COUNT
  }

  function Label(s: Sender, count: U16, index: U16): Metadata {
    Metadata(s.epoch, s.nextFrameId, index, count, s.keyframe)
  }

  /** The batch after `sender_outgoing`; `count` is fixed by the whole batch. */
  function StampBatch(messages: seq<Msg>, s: Sender, count: U16): (r: seq<Msg>)
    ensures |r| == |messages|
  {
    if messages == [] then []
    else
      var n := |messages| - 1;
      var rank := |MediaOf(messages[..n])|;
      StampBatch(messages[..n], s, count)
      + [if IsRtp(messages[n]) && rank < count then AddMetadata(messages[n], Label(s, count, rank)) else messages[n]]
  }

  function Stamped(f: SentFrame): (r: seq<Msg>)
    ensures |r| == Count(f.media)
  {
    seq(Count(f.media), i requires 0 <= i < Count(f.media) =>
      AddMetadata(f.media[i], Metadata(f.epoch, f.frameId, i, Count(f.media), f.keyframe)))
  }

  function Leftover(f: SentFrame): seq<Msg> {
    f.media[Count(f.media)..]
  }

  datatype SenderOp = Configure(epoch: U16, keyframe: bool) | Send(messages: seq<Msg>)

  function Next(s: Sender, op: SenderOp): Sender {
    match op
    case Configure(epoch, keyframe) => s.(epoch := if epoch == 0 then 1 else epoch, keyframe := keyframe)
    case Send(messages) => if MediaOf(messages) == [] then s else s.(nextFrameId := Wrap32(s.nextFrameId + 1))
  }

  function After(ops: seq<SenderOp>): Sender {
    if ops == [] then START else Next(After(ops[..|ops| - 1]), ops[|ops| - 1])
  }

  /** The frames sent by a run, in order. */
  function Log(ops: seq<SenderOp>): seq<SentFrame> {
    if ops == [] then []
    else
      var n := |ops| - 1;
      var s := After(ops[..n]);
      Log(ops[..n]) +
        if ops[n].Send? && MediaOf(ops[n].messages) != []
        then [SentFrame(s.epoch, s.nextFrameId, s.keyframe, MediaOf(ops[n].messages))] else []
  }

  predicate Numbered(log: seq<SentFrame>) {
    forall k | 0 <= k < |log| :: log[k].frameId == Wrap32(k + 1) && log[k].media != [] && log[k].epoch != 0
  }

  /** Frame ids count up from 1, and every logged frame has packets. */
  lemma {:induction false} LogNumbered(ops: seq<SenderOp>)
    ensures Numbered(Log(ops)) && After(ops).epoch != 0
    ensures After(ops).nextFrameId == Wrap32(|Log(ops)| + 1)
  {
    hide MediaOf, Wrap32, After, Log;
    if ops == [] {
      NothingSent();
    } else {
      LogNumbered(ops[..|ops| - 1]);
      LogStep(ops);
      WrapNext(|Log(ops[..|ops| - 1])| + 1);
    }
  }

  lemma NothingSent()
    ensures After([]) == START && Log([]) == [] && Wrap32(1) == 1
  {
  }

  lemma WrapNext(n: nat)
    ensures Wrap32(Wrap32(n) as int + 1) == Wrap32(n + 1)
  {
  }

  lemma LogStep(ops: seq<SenderOp>)
    requires ops != []
    ensures var n := |ops| - 1;
      var s := After(ops[..n]);
      && After(ops) == Next(s, ops[n])
      && Log(ops) == Log(ops[..n]) +
           if ops[n].Send? && MediaOf(ops[n].messages) != []
           then [SentFrame(s.epoch, s.nextFrameId, s.keyframe, MediaOf(ops[n].messages))] else []
  {
    hide MediaOf, Next;
  }

  lemma AfterNext(ops: seq<SenderOp>, op: SenderOp)
    ensures After(ops + [op]) == Next(After(ops), op)
  {
    hide Next;
    assert (ops + [op])[..|ops|] == ops;
  }

  /** Some message of the batch is media. */
  predicate HasMedia(messages: seq<Msg>) {
    exists i :: 0 <= i < |messages| && IsRtp(messages[i])
  }

  /** `media` is the media among `messages`, each message once and in order; `at` says where they stand. */
  predicate Selects(at: seq<nat>, messages: seq<Msg>, media: seq<Msg>) {
    && |media| == |at|
    && (forall j | 0 <= j < |at| ::
          at[j] < |messages| && IsRtp(messages[at[j]]) && media[j] == messages[at[j]])
    && (forall i, j | 0 <= i < j < |at| :: at[i] < at[j])
    && (forall k | 0 <= k < |messages| && IsRtp(messages[k]) :: k in at)
  }

  lemma SelectsNext(at: seq<nat>, messages: seq<Msg>, media: seq<Msg>)
    requires messages != [] && Selects(at, messages[..|messages| - 1], media)
    ensures var n := |messages| - 1;
      if IsRtp(messages[n]) then Selects(at + [n], messages, media + [messages[n]]) else Selects(at, messages, media)
  {
    hide IsRtp;
  }

  /** The media of a batch. */
  lemma {:induction false} MediaAre(messages: seq<Msg>) returns (at: seq<nat>)
    ensures Selects(at, messages, MediaOf(messages))
  {
    hide IsRtp, Selects;
    if messages == [] {
      at := [];
      NoneSelected();
    } else {
      var n := |messages| - 1;
      at := MediaAre(messages[..n]);
      SelectsNext(at, messages, MediaOf(messages[..n]));
      if IsRtp(messages[n]) {
        at := at + [n];
      } else {
        assert MediaOf(messages[..n]) + [] == MediaOf(messages[..n]);
      }
    }
  }

  lemma NoneSelected()
    ensures Selects([], [], [])
  {
  }

  lemma MediaWhenAny(messages: seq<Msg>)
    ensures MediaOf(messages) != [] <==> HasMedia(messages)
  {
    hide IsRtp;
    var at := MediaAre(messages);
    if MediaOf(messages) != [] {
      assert IsRtp(messages[at[0]]);
    }
    if HasMedia(messages) {
      var k :| 0 <= k < |messages| && IsRtp(messages[k]);
      assert k in at;
    }
  }

  /** What the sender was last told before step `i`, if anything. */
  predicate LastTold(ops: seq<SenderOp>, i: nat, c: nat)
    requires i <= |ops|
  {
    c < i && ops[c].Configure? && forall d | c < d < i :: ops[d].Send?
  }

  /** The labels are those of this configuration; an epoch is at least 1. */
  predicate Obeys(epoch: U16, keyframe: bool, told: SenderOp) {
    told.Configure? && keyframe == told.keyframe && epoch == if told.epoch == 0 then 1 else told.epoch
  }

  lemma NextLabels(s: Sender, op: SenderOp)
    ensures op.Send? ==> Next(s, op).keyframe == s.keyframe && Next(s, op).epoch == s.epoch
    ensures op.Configure? ==> Obeys(Next(s, op).epoch, Next(s, op).keyframe, op)
  {
    hide MediaOf, Wrap32;
  }

  lemma ToldBefore(ops: seq<SenderOp>, c: nat)
    requires ops != [] && LastTold(ops, |ops|, c)
    ensures var n := |ops| - 1;
      if ops[n].Configure? then c == n else c < n && LastTold(ops[..n], n, c) && ops[..n][c] == ops[c]
  {
  }

  /** The labels are those of the last configuration; before the first they are epoch 1 and no keyframe. */
  lemma {:induction false} LabelsLastTold(ops: seq<SenderOp>)
    ensures forall c: nat | LastTold(ops, |ops|, c) ::
      c < |ops| && Obeys(After(ops).epoch, After(ops).keyframe, ops[c])
    ensures (forall d | 0 <= d < |ops| :: ops[d].Send?) ==> !After(ops).keyframe && After(ops).epoch == 1
  {
    hide Next, LastTold;
    if ops == [] {
      NoneTold();
    } else {
      var n := |ops| - 1;
      LabelsLastTold(ops[..n]);
      NextLabels(After(ops[..n]), ops[n]);
      forall c: nat | LastTold(ops, |ops|, c)
        ensures c < |ops| && Obeys(After(ops).epoch, After(ops).keyframe, ops[c])
      {
        ToldBefore(ops, c);
      }
    }
  }

  lemma NoneTold()
    ensures forall c: nat :: !LastTold([], 0, c)
  {
  }

  /** The log of a longer run extends that of a shorter one, by one frame exactly for each batch with media. */
  lemma {:induction false} LogGrows(ops: seq<SenderOp>, i: nat)
    requires i < |ops|
    ensures var before, after := Log(ops[..i]), Log(ops[..i + 1]);
      && |after| == |before| + (if ops[i].Send? && HasMedia(ops[i].messages) then 1 else 0)
      && before <= after <= Log(ops)
    decreases |ops|
  {
    hide MediaOf, HasMedia, After;
    var n := |ops| - 1;
    if ops[i].Send? {
      MediaWhenAny(ops[i].messages);
    }
    assert ops[..i + 1][..i] == ops[..i];
    if i == n {
      assert ops[..i + 1] == ops;
    } else {
      LogGrows(ops[..n], i);
      assert ops[..n][..i] == ops[..i] && ops[..n][..i + 1] == ops[..i + 1];
    }
  }

  /**
   * In any run of the sender, each batch with media becomes one frame of the log: its media messages, the next frame
   * number, and the epoch and keyframe flag last configured before it.
   */
  lemma LoggedAsTold(ops: seq<SenderOp>, i: nat)
    requires i < |ops| && ops[i].Send? && HasMedia(ops[i].messages)
    ensures |Log(ops[..i])| < |Log(ops)|
    ensures var k := |Log(ops[..i])|;
      var f := Log(ops)[k];
      && f.frameId == Wrap32(k + 1) && f.media == MediaOf(ops[i].messages)
      && (forall c: nat | LastTold(ops, i, c) :: Obeys(f.epoch, f.keyframe, ops[c]))
      && ((forall d | 0 <= d < i :: ops[d].Send?) ==> !f.keyframe && f.epoch == 1)
  {
    hide MediaOf, HasMedia, After, Log;
    LogGrows(ops, i);
    MediaWhenAny(ops[i].messages);
    LogStep(ops[..i + 1]);
    assert ops[..i + 1][..i] == ops[..i];
    LogNumbered(ops[..i]);
    LabelsLastTold(ops[..i]);
    forall c: nat | LastTold(ops, i, c) ensures LastTold(ops[..i], i, c) {
    }
    assert Log(ops)[|Log(ops[..i])|] == Log(ops[..i + 1])[|Log(ops[..i])|];
  }

  /** Stamping the batch in place stamps its media packets in order and touches nothing else. */
  lemma {:induction false} BatchStamps(messages: seq<Msg>, s: Sender, all: seq<Msg>, i: nat)
    requires i < |messages| && MediaOf(messages) <= all
    ensures var rank := |MediaOf(messages[..i])|;
      var r := StampBatch(messages, s, Count(all));
      && (IsRtp(messages[i]) ==> rank < |all| && all[rank] == messages[i])
      && r[i] == if IsRtp(messages[i]) && rank < Count(all)
                 then Stamped(SentFrame(s.epoch, s.nextFrameId, s.keyframe, all))[rank] else messages[i]
  {
    hide IsRtp, AddMetadata;
    var n := |messages| - 1;
    if i < n {
      BatchStamps(messages[..n], s, all, i);
      assert messages[..n][..i] == messages[..i];
    }
  }

  class VideoTransportSender {
    var epoch: U16
    var nextFrameKeyframe: bool
    var nextFrameId: U32
    var retransmittedPackets: nat
    var pliPackets: nat
    /** Everything the sender has been told and given to send. */
    ghost var ops: seq<SenderOp>

    /** The fields are where the steps so far lead. */
    ghost predicate Valid()
      reads this
    {
      State() == After(ops)
    }

    function State(): Sender
      reads this
    {
      Sender(epoch, nextFrameKeyframe, nextFrameId)
    }

    constructor ()
      ensures Valid() && ops == [] && retransmittedPackets == 0 && pliPackets == 0
    {
      epoch, nextFrameKeyframe, nextFrameId, ops := 1, false, 1, [];
      retransmittedPackets, pliPackets := 0, 0;
    }

    /** Counts what the peer asks for; the results say which callbacks are due. */
    method SenderIncoming(messages: seq<Msg>) returns (keyframeRequested: bool, keyframeAcknowledged: bool)
      requires Valid()
      modifies this`retransmittedPackets, this`pliPackets
      ensures Valid()
      ensures var asked := Rtcp.Received(messages);
        && retransmittedPackets == old(retransmittedPackets) + asked.retransmitted
        && pliPackets == old(pliPackets) + asked.pli
        && keyframeRequested == (asked.pli > 0) && keyframeAcknowledged == asked.acknowledged
    {
      hide Rtcp.Walk;
      keyframeRequested, keyframeAcknowledged := false, false;
      for i := 0 to |messages|
        invariant var asked := Rtcp.Received(messages[..i]);
          && retransmittedPackets == old(retransmittedPackets) + asked.retransmitted
          && pliPackets == old(pliPackets) + asked.pli
          && keyframeRequested == (asked.pli > 0) && keyframeAcknowledged == asked.acknowledged
      {
        assert messages[..i + 1][..i] == messages[..i];
        if !messages[i].control {
          continue;
        }
        var asked := Rtcp.WalkMessage(messages[i].bytes);
        retransmittedPackets := retransmittedPackets + asked.retransmitted;
        pliPackets := pliPackets + asked.pli;
        keyframeRequested := keyframeRequested || asked.pli > 0;
        keyframeAcknowledged := keyframeAcknowledged || asked.acknowledged;
      }
      assert messages[..|messages|] == messages;
    }

    method SetOutgoingFrame(epoch: U16, keyframe: bool)
      requires Valid()
      modifies this`epoch, this`nextFrameKeyframe, this`ops
      ensures Valid() && ops == old(ops) + [Configure(epoch, keyframe)]
    {
      hide After, MediaOf, Wrap32;
      AfterNext(ops, Configure(epoch, keyframe));
      ops := ops + [Configure(epoch, keyframe)];
      this.epoch := if epoch > 1 then epoch else 1;
      nextFrameKeyframe := keyframe;
    }

    method SenderOutgoing(messages: seq<Message>)
      requires forall i, j | 0 <= i < j < |messages| :: messages[i] != messages[j]
      requires Valid()
      modifies this`nextFrameId, this`ops, messages
      ensures Valid() && ops == old(ops) + [Send(old(Values(messages)))]
      ensures Values(messages) ==
        var before := old(Values(messages)); StampBatch(before, old(State()), Count(MediaOf(before)))
    {
      hide IsRtp, IsRtcp, AddMetadata, StampBatch, MediaOf, Ranked, StampedBelow, Wrap32, Rank, After;
      ghost var before := Values(messages);
      ghost var s := State();
      AfterNext(ops, Send(before));
      ops := ops + [Send(before)];
      var media, at := CollectMedia(messages);
      MediaCount(before, at);
      if media == [] {
        StampNothing(before, s);
        return;
      }
      var frameId := nextFrameId;
      nextFrameId := Wrap32(nextFrameId as int + 1);
      var packetCount: U16 := if |media| < MAX_COUNT then |media| else MAX_COUNT;
      StampedNone(before, s, packetCount);
      for index := 0 to packetCount
        invariant StampedBelow(before, s, packetCount, index, Values(messages))
        invariant nextFrameId == Wrap32(s.nextFrameId as int + 1) && ops == old(ops) + [Send(before)]
      {
        var md := Metadata(epoch, frameId, index, packetCount, nextFrameKeyframe);
        ghost var now := Values(messages);
        StampNext(before, s, packetCount, index, at, now);
        AddFrameMetadata(media[index], md);
        assert Values(messages) == now[at[index] := AddMetadata(now[at[index]], md)];
      }
      StampedAll(before, s, packetCount, Values(messages));
    }
  }

  /** The media packets of the batch, and where they stand in it. */
  method CollectMedia(messages: seq<Message>) returns (media: seq<Message>, ghost at: seq<nat>)
    ensures Ranked(Values(messages), at) && |media| == |at|
    ensures forall j | 0 <= j < |at| :: at[j] < |messages| && media[j] == messages[at[j]]
  {
    hide IsRtp, Ranked, MediaOf;
    ghost var before := Values(messages);
    media, at := [], [];
    RankedNone();
    for i := 0 to |messages|
      invariant Ranked(before[..i], at) && |media| == |at|
      invariant forall j | 0 <= j < |at| :: at[j] < i && media[j] == messages[at[j]]
    {
      RankedNext(before, i, at);
      if IsRtp(messages[i].Value()) {
        media := media + [messages[i]];
        at := at + [i];
      }
    }
    assert before[..|messages|] == before;
  }

  function Rank(messages: seq<Msg>, k: nat): nat
    requires k <= |messages|
  {
    |MediaOf(messages[..k])|
  }

  /** `at` lists the positions of the media packets. */
  ghost predicate Ranked(messages: seq<Msg>, at: seq<nat>) {
    && |at| == |MediaOf(messages)|
    && (forall j | 0 <= j < |at| :: at[j] < |messages| && IsRtp(messages[at[j]]) && Rank(messages, at[j]) == j)
    && (forall k | 0 <= k < |messages| && IsRtp(messages[k]) :: Rank(messages, k) < |at| && at[Rank(messages, k)] == k)
  }

  lemma RankedNone()
    ensures Ranked([], [])
  {
  }

  lemma RankedNext(messages: seq<Msg>, i: nat, at: seq<nat>)
    requires i < |messages| && Ranked(messages[..i], at)
    ensures Ranked(messages[..i + 1], if IsRtp(messages[i]) then at + [i] else at)
  {
    hide IsRtp, MediaOf;
    var front, grown := messages[..i], messages[..i + 1];
    assert grown[..i] == front;
    MediaGrows(grown);
    forall k: nat | k <= i ensures Rank(grown, k) == Rank(front, k) {
      assert grown[..k] == front[..k];
    }
    assert front[..i] == front;
  }

  lemma MediaGrows(messages: seq<Msg>)
    requires messages != []
    ensures var n := |messages| - 1;
      |MediaOf(messages)| == |MediaOf(messages[..n])| + if IsRtp(messages[n]) then 1 else 0
  {
    hide IsRtp;
  }

  lemma MediaCount(messages: seq<Msg>, at: seq<nat>)
    requires Ranked(messages, at)
    ensures |at| == |MediaOf(messages)|
    ensures MediaOf(messages) == [] <==> |at| == 0
  {
  }

  /** The first `index` media packets have their metadata, nothing else has changed. */
  ghost predicate StampedBelow(before: seq<Msg>, s: Sender, count: U16, index: nat, now: seq<Msg>) {
    && index <= count && |now| == |before|
    && forall k | 0 <= k < |before| :: now[k] == StampOne(before, s, count, index, k)
  }

  function StampOne(before: seq<Msg>, s: Sender, count: U16, index: nat, k: nat): Msg
    requires k < |before| && index <= count
  {
    if IsRtp(before[k]) && Rank(before, k) < index then AddMetadata(before[k], Label(s, count, Rank(before, k)))
    else before[k]
  }

  lemma StampedNone(before: seq<Msg>, s: Sender, count: U16)
    ensures StampedBelow(before, s, count, 0, before)
  {
    hide IsRtp, AddMetadata;
  }

  lemma StampNext(before: seq<Msg>, s: Sender, count: U16, index: nat, at: seq<nat>, now: seq<Msg>)
    requires Ranked(before, at) && index < count && count <= |at|
    requires StampedBelow(before, s, count, index, now)
    ensures at[index] < |before|
    ensures StampedBelow(before, s, count, index + 1,
                         now[at[index] := AddMetadata(now[at[index]], Label(s, count, index))])
  {
    hide IsRtp, AddMetadata, Rank;
  }

  lemma StampedAll(before: seq<Msg>, s: Sender, count: U16, now: seq<Msg>)
    requires StampedBelow(before, s, count, count, now)
    ensures now == StampBatch(before, s, count)
  {
    hide IsRtp, AddMetadata;
    StampPointwise(before, s, count, now);
  }

  lemma {:induction false} StampNothing(messages: seq<Msg>, s: Sender)
    requires MediaOf(messages) == []
    ensures StampBatch(messages, s, 0) == messages
  {
    if messages != [] {
      StampNothing(messages[..|messages| - 1], s);
    }
  }

  lemma {:induction false} StampPointwise(messages: seq<Msg>, s: Sender, count: U16, r: seq<Msg>)
    requires |r| == |messages|
    requires forall k | 0 <= k < |messages| :: r[k] == StampOne(messages, s, count, count, k)
    ensures r == StampBatch(messages, s, count)
  {
    hide IsRtp, AddMetadata, MediaOf;
    if messages != [] {
      var n := |messages| - 1;
      forall k | 0 <= k < n
        ensures StampOne(messages[..n], s, count, count, k) == StampOne(messages, s, count, count, k)
      {
        assert messages[..n][..k] == messages[..k];
      }
      StampPointwise(messages[..n], s, count, r[..n]);
      assert r == r[..n] + [r[n]];
    }
  }
}

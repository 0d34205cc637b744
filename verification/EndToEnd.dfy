/** Sender, network and receiver together: the network may lose, repeat, reorder and retransmit, and nothing else. */
module EndToEnd {
  import opened Words
  import opened Rtp
  import opened HeaderExtension
  import opened StampedPacket
  import opened FrameSender
  import opened FrameGate
  import opened GateInvariant
  import GateOutput
  import Rtx
  import Nack

  /** What the packetizer is relied on for: nothing in its packets is mistaken for the metadata. */
  predicate Sendable(log: seq<SentFrame>) {
    forall k, i | 0 <= k < |log| && 0 <= i < |log[k].media| :: Stampable(log[k].media[i])
  }

  /** Everything a sender has put on the wire as media. */
  ghost predicate InFlight(m: Msg, log: seq<SentFrame>) {
    || (exists k, i :: 0 <= k < |log| && 0 <= i < |Stamped(log[k])| && m == Stamped(log[k])[i])
    || (exists k, i :: 0 <= k < |log| && 0 <= i < |Leftover(log[k])| && m == Leftover(log[k])[i])
  }

  /** A message the receiving gate can see: sent, or sent again over the retransmission stream and unwrapped. */
  ghost predicate Deliverable(m: Msg, log: seq<SentFrame>, streams: Rtx.Streams)
    requires Rtx.ValidStreams(streams)
  {
    || InFlight(m, log)
    || exists p, rtxSequence: U16 ::
         && InFlight(p, log) && IsRtp(p) && Framed(p.bytes)
         && PayloadType(p.bytes) == streams.primaryType && Ssrc(p.bytes) == streams.primarySsrc
         && m == Rtx.Unwrap(Msg(false, Rtx.Encapsulate(p.bytes, streams, rtxSequence)), streams)
  }

  /** Retransmission adds nothing new to what may arrive. */
  lemma DeliverableInFlight(m: Msg, log: seq<SentFrame>, streams: Rtx.Streams)
    requires Rtx.ValidStreams(streams) && !(64 <= streams.rtxType <= 95)
    requires Deliverable(m, log, streams)
    ensures InFlight(m, log)
  {
    if !InFlight(m, log) {
      var p, rtxSequence: U16 :|
        && InFlight(p, log) && IsRtp(p) && Framed(p.bytes)
        && PayloadType(p.bytes) == streams.primaryType && Ssrc(p.bytes) == streams.primarySsrc
        && m == Rtx.Unwrap(Msg(false, Rtx.Encapsulate(p.bytes, streams, rtxSequence)), streams);
      Rtx.UnwrapEncapsulated(p, streams, rtxSequence);
    }
  }

  /** Every packet of the pool was parsed from a deliverable message. */
  ghost predicate Network(pool: set<Packet>, log: seq<SentFrame>, streams: Rtx.Streams)
    requires Rtx.ValidStreams(streams)
  {
    forall p | p in pool :: IsRtp(p.msg) && p == Parse(p.msg) && Deliverable(p.msg, log, streams)
  }

  function SequenceOf(m: Msg): U16 {
    if HasHeader(m.bytes) then SequenceNumber(m.bytes) else 0
  }

  /** The packet is number `i` of frame `k` in the log. */
  predicate IsPacketOf(p: Packet, log: seq<SentFrame>, k: nat, i: nat) {
    && k < |log| && i < |Stamped(log[k])| && p.msg == Stamped(log[k])[i]
    && p.sequence == SequenceOf(log[k].media[i])
  }

  lemma UnstampedHasNoMetadata(m: Msg)
    requires Stampable(m)
    ensures ReadMetadata(m) == None
  {
    FirstBehind(ReadElements(m.bytes), MetadataElement(Metadata(0, 0, 0, 0, false)), METADATA_ID, METADATA_SIZE);
  }

  /** A packet with metadata comes from the frame its id names, at the index it names. */
  lemma PacketOrigin(p: Packet, md: Metadata, log: seq<SentFrame>) returns (k: nat, i: nat)
    requires Sendable(log) && InFlight(p.msg, log)
    requires IsRtp(p.msg) && p == Parse(p.msg) && p.metadata == Some(md)
    ensures IsPacketOf(p, log, k, i)
    ensures i < 0x1_0000 && md == Metadata(log[k].epoch, log[k].frameId, i, Count(log[k].media), log[k].keyframe)
  {
    hide Stampable, AddMetadata, IsRtp, ReadMetadata, SequenceNumber, Marker;
    if exists k, i :: 0 <= k < |log| && 0 <= i < |Stamped(log[k])| && p.msg == Stamped(log[k])[i] {
      k, i :| 0 <= k < |log| && 0 <= i < |Stamped(log[k])| && p.msg == Stamped(log[k])[i];
      StampedIs(log[k], i);
      StampRoundTrip(log[k].media[i], Metadata(log[k].epoch, log[k].frameId, i, Count(log[k].media), log[k].keyframe));
    } else {
      k, i :| 0 <= k < |log| && 0 <= i < |Leftover(log[k])| && p.msg == Leftover(log[k])[i];
      assert p.msg == log[k].media[Count(log[k].media) + i];
      UnstampedHasNoMetadata(p.msg);
    }
  }

  lemma StampedIs(f: SentFrame, i: nat)
    requires i < |Stamped(f)|
    ensures Stamped(f)[i] == AddMetadata(f.media[i], Metadata(f.epoch, f.frameId, i, Count(f.media), f.keyframe))
  {
  }

  lemma StampRoundTrip(m: Msg, md: Metadata)
    requires Stampable(m)
    ensures IsRtp(m) && ReadMetadata(AddMetadata(m, md)) == Some(md)
    ensures HasHeader(m.bytes) && HasHeader(AddMetadata(m, md).bytes) && IsRtp(AddMetadata(m, md))
    ensures SequenceNumber(AddMetadata(m, md).bytes) == SequenceNumber(m.bytes)
  {
    MetadataRoundTrip(m, md);
    StampKeepsHeader(m, md);
  }

  /** The sender leaves what exceeds 65535 packets unstamped, and each such packet that arrives ends synchronisation. */
  lemma TailEndsSync(f: SentFrame, g: Gate, now: int)
    requires forall i | 0 <= i < |f.media| :: Stampable(f.media[i])
    ensures |Leftover(f)| == if |f.media| > 0xFFFF then |f.media| - 0xFFFF else 0
    ensures forall m | m in Leftover(f) :: IsRtp(m) && !Process(g, Parse(m), now).synced
  {
    hide Stampable, ReadMetadata, Store;
    forall m | m in Leftover(f) ensures IsRtp(m) && !Process(g, Parse(m), now).synced {
      var i :| 0 <= i < |Leftover(f)| && Leftover(f)[i] == m;
      assert m == f.media[Count(f.media) + i];
      UnstampedHasNoMetadata(m);
      StampableIsRtp(m);
    }
  }

  lemma StampableIsRtp(m: Msg)
    requires Stampable(m)
    ensures IsRtp(m)
  {
  }

  /** With fewer than 2^32 frames, the id says which frame it is. */
  lemma OriginById(p: Packet, md: Metadata, ops: seq<SenderOp>, streams: Rtx.Streams, pool: set<Packet>)
    requires Rtx.ValidStreams(streams) && !(64 <= streams.rtxType <= 95)
    requires Sendable(Log(ops)) && |Log(ops)| < 0x1_0000_0000 && Network(pool, Log(ops), streams)
    requires p in pool && p.metadata == Some(md)
    ensures 1 <= md.frameId <= |Log(ops)|
    ensures var f := Log(ops)[md.frameId - 1];
      && IsPacketOf(p, Log(ops), md.frameId - 1, md.index)
      && md == Metadata(f.epoch, f.frameId, md.index, Count(f.media), f.keyframe)
  {
    hide IsPacketOf, Sendable, Stampable, IsRtp, Deliverable, InFlight, Parse, ReadMetadata, Log, Stamped, Count;
    var log := Log(ops);
    DeliverableInFlight(p.msg, log, streams);
    var k, i := PacketOrigin(p, md, log);
    PacketInRange(p, log, k, i);
    LogNumbered(ops);
    IdOfFrame(log, k);
  }

  lemma IdOfFrame(log: seq<SentFrame>, k: nat)
    requires FrameSender.Numbered(log) && k < |log| < 0x1_0000_0000
    ensures log[k].frameId == k + 1
  {
  }

  lemma PacketInRange(p: Packet, log: seq<SentFrame>, k: nat, i: nat)
    requires IsPacketOf(p, log, k, i)
    ensures k < |log| && i < |Stamped(log[k])| && p.msg == Stamped(log[k])[i]
  {
  }

  /** The frame that came out is this one that went in. */
  predicate IsSent(f: Frame, sent: SentFrame) {
    && GateOutput.Messages(f.packets) == Stamped(sent)
    && f.epoch == sent.epoch && f.frameId == sent.frameId && f.keyframe == sent.keyframe
  }

  /** A whole frame is one sent frame, packet for packet. */
  lemma WholeIsSent(f: Frame, ops: seq<SenderOp>, streams: Rtx.Streams, pool: set<Packet>)
    requires Rtx.ValidStreams(streams) && !(64 <= streams.rtxType <= 95)
    requires Sendable(Log(ops)) && |Log(ops)| < 0x1_0000_0000 && Network(pool, Log(ops), streams)
    requires Whole(f, pool)
    ensures 1 <= f.frameId <= |Log(ops)|
    ensures IsSent(f, Log(ops)[f.frameId - 1])
  {
    hide Network, Sendable, Log, Stamped, IsPacketOf;
    OriginById(f.packets[0], Metadata(f.epoch, f.frameId, 0, |f.packets|, f.keyframe), ops, streams, pool);
    var sent := Log(ops)[f.frameId - 1];
    forall i | 0 <= i < |f.packets| ensures i < |Stamped(sent)| && f.packets[i].msg == Stamped(sent)[i] {
      OriginById(f.packets[i], Metadata(f.epoch, f.frameId, i, |f.packets|, f.keyframe), ops, streams, pool);
      PacketInRange(f.packets[i], Log(ops), f.frameId - 1, i);
    }
    assert GateOutput.Messages(f.packets) == Stamped(sent);
  }

  /**
   * In every run, whatever is lost, repeated, reordered or retransmitted, each block of packets that leaves the gate is
   * the packet list stamped by one `sender_outgoing` call, complete and in order.
   */
  lemma Integrity(ops: seq<SenderOp>, streams: Rtx.Streams, pool: set<Packet>, steps: seq<Op>, timeout: int)
    requires Rtx.ValidStreams(streams) && !(64 <= streams.rtxType <= 95)
    requires Sendable(Log(ops)) && |Log(ops)| < 0x1_0000_0000 && Network(pool, Log(ops), streams)
    requires PositiveTimes(steps) && Arrivals(steps, pool)
    ensures var events := Run(FrameGate.START, steps, timeout).events;
      forall e | 0 <= e < |events| && events[e].Emit? ::
        exists k | 0 <= k < |Log(ops)| :: IsSent(events[e].frame, Log(ops)[k])
  {
    hide Network, Sendable, Run, Whole, IsSent, Log;
    var events := Run(FrameGate.START, steps, timeout).events;
    RunSound(steps, timeout, pool);
    forall e | 0 <= e < |events| && events[e].Emit?
      ensures exists k | 0 <= k < |Log(ops)| :: IsSent(events[e].frame, Log(ops)[k])
    {
      WholeIsSent(events[e].frame, ops, streams, pool);
      assert IsSent(events[e].frame, Log(ops)[events[e].frame.frameId - 1]);
    }
  }

  /** The stamped list is all of the frame's media packets exactly when there are no more than 65535. */
  lemma StampedIsWholeFrame(f: SentFrame)
    requires forall i | 0 <= i < |f.media| :: Stampable(f.media[i])
    ensures |Stamped(f)| == |f.media| <==> |f.media| <= 0xFFFF
    ensures forall i | 0 <= i < |Stamped(f)| ::
      Framed(Stamped(f)[i].bytes) && Payload(Stamped(f)[i].bytes) == Payload(f.media[i].bytes)
  {
    hide Stampable, Framed, AddMetadata;
    forall i | 0 <= i < |Stamped(f)|
      ensures Framed(f.media[i].bytes) && Framed(Stamped(f)[i].bytes)
        && Payload(Stamped(f)[i].bytes) == Payload(f.media[i].bytes)
    {
      StampedIs(f, i);
      StampableFramed(f.media[i]);
      StampKeepsHeader(f.media[i], Metadata(f.epoch, f.frameId, i, Count(f.media), f.keyframe));
    }
  }

  lemma StampableFramed(m: Msg)
    requires Stampable(m)
    ensures Framed(m.bytes)
  {
  }

  /** The packetizer numbers the packets of one frame consecutively. */
  predicate Consecutive(f: SentFrame) {
    f.media != [] && forall i | 0 <= i < |f.media| :: SequenceOf(f.media[i]) == Wrap16(SequenceOf(f.media[0]) + i)
  }

  /** The sequence numbers the sender gave to the packets an assembly still lacks. */
  function Unreceived(a: Assembly, f: SentFrame): seq<U16>
    requires |a.packets| == Count(f.media)
  {
    var missing := Nack.MissingIndices(Have(a));
    seq(|missing|, j requires 0 <= j < |missing| => SequenceOf(f.media[missing[j]]))
  }

  /** An assembly in the buffer belongs to one sent frame, and its numbering is that frame's. */
  lemma AssemblyOrigin(ops: seq<SenderOp>, streams: Rtx.Streams, pool: set<Packet>, a: Assembly)
    requires Rtx.ValidStreams(streams) && !(64 <= streams.rtxType <= 95)
    requires Sendable(Log(ops)) && |Log(ops)| < 0x1_0000_0000 && Network(pool, Log(ops), streams)
    requires SlotsOk(a, pool) && a.count != 0
    ensures 1 <= a.frameId <= |Log(ops)|
    ensures var f := Log(ops)[a.frameId - 1];
      |a.packets| == Count(f.media) && (Consecutive(f) ==> a.firstSequence == SequenceOf(f.media[0]))
  {
    hide Network, Log, Sendable, SequenceOf, SlotsOk, Stamped;
    var p, i := NumberingPacket(a, pool);
    OriginById(p, Metadata(a.epoch, a.frameId, i, a.count, a.keyframe), ops, streams, pool);
    var f := Log(ops)[a.frameId - 1];
    if Consecutive(f) {
      WrapBack(SequenceOf(f.media[0]), i);
    }
  }

  /** The packet that fixed the assembly's numbering. */
  lemma NumberingPacket(a: Assembly, pool: set<Packet>) returns (p: Packet, i: U16)
    requires SlotsOk(a, pool) && a.count != 0
    ensures |a.packets| == a.count && i < a.count && p in pool
    ensures p.metadata == Some(Metadata(a.epoch, a.frameId, i, a.count, a.keyframe))
    ensures a.firstSequence == Wrap16(p.sequence as int - i as int)
  {
    i :| 0 <= i < |a.packets| && a.packets[i].Some? && a.firstSequence == Wrap16(a.packets[i].value.sequence - i);
    p := a.packets[i].value;
  }

  lemma WrapBack(first: U16, i: int)
    ensures Wrap16(Wrap16(first as int + i) as int - i) == first
  {
  }

  /**
   * In every reachable state, the NACK for an assembly names exactly the sender's sequence numbers of its unreceived
   * packets, each once and in order, whichever packet came first and wherever the numbering wraps.
   */
  lemma NackNamesUnreceived(ops: seq<SenderOp>, streams: Rtx.Streams, pool: set<Packet>, g: Gate, id: U32)
    requires Rtx.ValidStreams(streams) && !(64 <= streams.rtxType <= 95)
    requires Sendable(Log(ops)) && |Log(ops)| < 0x1_0000_0000 && Network(pool, Log(ops), streams)
    requires Sound(g, pool) && id in g.frames && g.frames[id].count != 0
    ensures 1 <= id <= |Log(ops)|
    ensures var f := Log(ops)[id - 1];
      && |g.frames[id].packets| == Count(f.media)
      && (Consecutive(f) ==> Nack.Decode(NackGroups(g.frames[id])) == Unreceived(g.frames[id], f))
  {
    hide Network, Log, Sendable, SequenceOf, SlotsOk, Nack.Pack, Nack.Decode, Nack.MissingIndices;
    var a := g.frames[id];
    AssemblyOrigin(ops, streams, pool, a);
    var f := Log(ops)[id - 1];
    if Consecutive(f) {
      Nack.PackExact(a.firstSequence, Have(a));
      assert Nack.Missing(a.firstSequence, Have(a)) == Unreceived(a, f);
    }
  }
}

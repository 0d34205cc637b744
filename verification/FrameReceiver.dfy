/** The receiving `VideoTransportHandler`: fields updated in place, each method a step of the frame gate. */
module FrameReceiver {
  import opened Words
  import opened Rtp
  import opened StampedPacket
  import opened FrameGate
  import opened GateInvariant
  import opened GateOutput
  import opened GateLoops
  import DecodeSafety
  import Nack

  class VideoTransportReceiver {
    const recoveryTimeoutUs: int
    var receiverEpoch: Option<U16>
    var nextOutputFrameId: Option<U32>
    var frames: map<U32, Assembly>
    var synchronized: bool
    var completeFrames: nat
    var droppedFrames: nat
    var nackPackets: nat
    /** Everything that has happened, as steps of the gate. */
    ghost var ops: seq<Op>
    ghost var pool: set<Packet>

    function State(): Gate
      reads this
    {
      Gate(receiverEpoch, nextOutputFrameId, frames, synchronized, completeFrames, droppedFrames, nackPackets)
    }

    ghost function History(): Outcome
      reads this
    {
      Run(START, ops, recoveryTimeoutUs)
    }

    /** The fields are where the steps so far lead. */
    ghost predicate Valid()
      reads this
    {
      recoveryTimeoutUs >= 100_000 && PositiveTimes(ops) && Arrivals(ops, pool) && State() == History().gate
    }

    /** What holds of every receiver, whatever has been called on it. */
    lemma Guarantees()
      requires Valid()
      ensures Sound(State(), pool) && AllWhole(History().events, pool)
      ensures DecodeSafety.DecodeSafe(History().events)
      ensures DecodeSafety.Acknowledged(History().events) && !DecodeSafety.Unacknowledged(History().events)
    {
      hide Run, Sound, AllWhole;
      RunSound(ops, recoveryTimeoutUs, pool);
      DecodeSafety.EveryRunDecodeSafe(ops, recoveryTimeoutUs, pool);
      DecodeSafety.EveryResyncAcknowledged(ops, recoveryTimeoutUs, pool);
    }

    constructor (recoveryTimeoutMs: int)
      ensures Valid() && ops == [] && State() == START
      ensures recoveryTimeoutUs == (if recoveryTimeoutMs > 100 then recoveryTimeoutMs else 100) * 1000
    {
      recoveryTimeoutUs := (if recoveryTimeoutMs > 100 then recoveryTimeoutMs else 100) * 1000;
      receiverEpoch, nextOutputFrameId, frames, synchronized := None, None, map[], false;
      completeFrames, droppedFrames, nackPackets := 0, 0, 0;
      ops, pool := [], {};
    }

    method InvalidateSync()
      requires Valid()
      modifies this
      ensures Valid() && ops == old(ops) + [FrameGate.InvalidateSync] && pool == old(pool)
    {
      hide Run;
      RunStep(START, ops, FrameGate.InvalidateSync, recoveryTimeoutUs);
      frames, nextOutputFrameId, synchronized := map[], None, false;
      ops := ops + [FrameGate.InvalidateSync];
    }

    /** The body of the gap loop's caller: placeholders up to the packet's frame. */
    method FillMissing(md: Metadata, now: int) returns (ghost turns: nat)
      requires nextOutputFrameId.Some? && md.frameId > nextOutputFrameId.value && |frames| <= MAX_FRAMES
      modifies this`frames
      ensures frames == FillGap(old(frames), nextOutputFrameId.value, md.frameId, md.epoch, now)
      ensures turns <= MAX_FRAMES
    {
      turns := 0;
      var missing: int := nextOutputFrameId.value;
      ghost var all := GapTurns(frames, missing, md.frameId, md.epoch, now);
      while missing < md.frameId && |frames| < MAX_FRAMES
        invariant nextOutputFrameId.value <= missing <= md.frameId
        invariant FillGap(frames, missing, md.frameId, md.epoch, now) ==
          FillGap(old(frames), nextOutputFrameId.value, md.frameId, md.epoch, now)
        invariant turns + GapTurns(frames, missing, md.frameId, md.epoch, now) == all
        decreases md.frameId as int - missing
      {
        if missing !in frames {
          frames := frames[missing := Placeholder(md.epoch, missing, now)];
        }
        missing := missing + 1;
        turns := turns + 1;
      }
      GapTurnsBounded(old(frames), nextOutputFrameId.value, md.frameId, md.epoch, now);
    }

    method EvictOldest()
      modifies this`frames, this`synchronized
      ensures State() == Evict(old(State()))
    {
      while |frames| > MAX_FRAMES
        invariant Evict(State()) == Evict(old(State()))
        decreases |frames|
      {
        frames := frames - {Least(frames.Keys)};
        synchronized := false;
      }
    }

    /** From the lookup of the frame's assembly to the end of `process_receiver_packet`. */
    method StorePacket(p: Packet, md: Metadata, now: int)
      requires Sound(State(), pool) && receiverEpoch == Some(md.epoch) && md.index < md.count
      modifies this`frames, this`synchronized
      ensures State() == Store(old(State()), p, md, now)
    {
      hide Evict, Sound;
      SlotInRange(State(), md, pool);
      var frame := if md.frameId in frames then frames[md.frameId] else FRESH;
      if frame.firstSeen == 0 {
        frame := frame.(epoch := md.epoch, frameId := md.frameId, count := md.count, keyframe := md.keyframe,
                        firstSeen := now, packets := seq(md.count, _ => None),
                        firstSequence := Wrap16(p.sequence - md.index));
      }
      if frame.count != md.count || frame.epoch != md.epoch || frame.keyframe != md.keyframe {
        synchronized := false;
        frames := frames - {md.frameId};
        return;
      }
      if frame.packets[md.index].None? {
        frame := frame.(packets := frame.packets[md.index := Some(p)]);
      }
      frame := frame.(markerSeen := frame.markerSeen || p.marker);
      frames := frames[md.frameId := frame];
      EvictOldest();
    }

    method ProcessReceiverPacket(message: Msg, now: int)
      requires Valid() && IsRtp(message) && now > 0
      modifies this
      ensures Valid()
      ensures ops == old(ops) + [Arrive(Parse(message), now)] && pool == old(pool) + {Parse(message)}
      ensures Output(History().events) == Output(old(History().events))
      ensures Sent(History().events) == Sent(old(History().events))
    {
      hide Run, Output, Sent, Parse, Process, IsRtp, Sound;
      ghost var p := Parse(message);
      RunSound(ops, recoveryTimeoutUs, pool);
      PoolGrows(State(), pool, p);
      ArriveStep(ops, p, now, recoveryTimeoutUs);
      ops, pool := ops + [Arrive(p, now)], pool + {p};
      TakePacket(message, now);
    }

    /** `process_receiver_packet` proper. */
    method TakePacket(message: Msg, now: int)
      requires IsRtp(message) && now > 0 && Sound(State(), pool)
      modifies this`frames, this`receiverEpoch, this`nextOutputFrameId, this`synchronized
      ensures State() == Process(old(State()), Parse(message), now)
    {
      hide Store, FillGap, Sound, ReadMetadata, IsRtcp;
      ghost var g := State();
      var metadata := ReadFrameMetadata(message);
      if metadata.None? || metadata.value.count == 0 || metadata.value.index >= metadata.value.count {
        synchronized := false;
        return;
      }
      var md := metadata.value;
      AnnounceSound(g, md, now, pool);
      EnterEpochOf(md);
      if md.frameId > nextOutputFrameId.value {
        var _ := FillMissing(md, now);
      }
      assert State() == Announce(EnterEpoch(g, md), md, now);
      StorePacket(Packet(message, metadata, SequenceNumber(message.bytes), Marker(message.bytes)), md, now);
    }

    /** A packet of another epoch restarts the gate. */
    method EnterEpochOf(md: Metadata)
      modifies this`frames, this`receiverEpoch, this`nextOutputFrameId, this`synchronized
      ensures State() == EnterEpoch(old(State()), md)
    {
      if receiverEpoch != Some(md.epoch) {
        frames, receiverEpoch, nextOutputFrameId, synchronized := map[], Some(md.epoch), Some(md.frameId), false;
      }
      if nextOutputFrameId.None? {
        nextOutputFrameId := Some(md.frameId);
      }
    }

    /** The scan for a keyframe while unsynchronised. */
    method ScanForKeyframe(at: int) returns (ready: seq<Msg>, sent: seq<Control>)
      requires !synchronized
      modifies this
      ensures var r := Resync(old(State()), at, recoveryTimeoutUs);
        State() == r.gate && ready == Output(r.events) && sent == Sent(r.events)
      ensures ops == old(ops) && pool == old(pool)
    {
      hide Scanned, Complete, FrameOf, Output, Sent, InOrder, Messages, Resync;
      ready, sent := [], [];
      ghost var g := State();
      var order := InOrder(frames.Keys);
      ScanStart(g, order, at, recoveryTimeoutUs);
      var i := 0;
      while i < |order|
        invariant 0 <= i <= |order|
        invariant Scanned(g, order, i, at, recoveryTimeoutUs, frames, droppedFrames)
        invariant State() == g.(frames := frames, droppedFrames := droppedFrames)
        invariant ops == old(ops) && pool == old(pool)
      {
        var id := order[i];
        ScanNext(g, order, i, at, recoveryTimeoutUs, frames, droppedFrames);
        var frame := frames[id];
        if Complete(frame) && frame.keyframe {
          FoundKeyframe(g, order, i, at, recoveryTimeoutUs, frames, droppedFrames);
          ready := Messages(FrameOf(frame).packets);
          completeFrames := completeFrames + 1;
          synchronized := true;
          nextOutputFrameId := Some(Wrap32(frame.frameId as int + 1));
          sent := [AckMessage(frame.epoch, frame.frameId)];
          frames := map k | k in frames && k > id :: frames[k];
          return;
        }
        if Complete(frame) || at - frame.firstSeen >= recoveryTimeoutUs {
          droppedFrames := droppedFrames + 1;
          frames := frames - {id};
        }
        i := i + 1;
      }
      FoundNothing(g, order, at, recoveryTimeoutUs, frames, droppedFrames);
      NoEvents();
    }

    /** The frame leaves the buffer and the next id is due. */
    method StepPast(id: U32)
      requires id in frames
      modifies this`frames, this`nextOutputFrameId
      ensures State() == Without(old(State()), id) && |frames| < old(|frames|)
    {
      nextOutputFrameId := Some(Wrap32(id as int + 1));
      frames := frames - {id};
    }

    /** The in-order loop while synchronised. */
    method OutputInOrder(at: int) returns (ready: seq<Msg>)
      requires synchronized
      modifies this
      ensures var r := Advance(old(State()), at, recoveryTimeoutUs);
        State() == r.gate && ready == Output(r.events) && Sent(r.events) == []
      ensures ops == old(ops) && pool == old(pool)
    {
      hide Advance, Continues, Complete, FrameOf, Output, Sent, Messages, Wrap32, Without;
      ready := [];
      ghost var g := State();
      ContinuesStart(g, at, recoveryTimeoutUs);
      while nextOutputFrameId.Some?
        invariant Continues(g, State(), ready, at, recoveryTimeoutUs)
        invariant synchronized && ops == old(ops) && pool == old(pool)
        decreases |frames|
      {
        if nextOutputFrameId.value !in frames {
          ContinuesEnd(g, State(), ready, at, recoveryTimeoutUs);
          return;
        }
        var id := nextOutputFrameId.value;
        var frame := frames[id];
        if Complete(frame) {
          ContinuesNext(g, State(), ready, at, recoveryTimeoutUs);
          ready := ready + Messages(FrameOf(frame).packets);
          StepPast(id);
          completeFrames := completeFrames + 1;
          continue;
        }
        ContinuesEnd(g, State(), ready, at, recoveryTimeoutUs);
        if at - frame.firstSeen >= recoveryTimeoutUs {
          StepPast(id);
          droppedFrames := droppedFrames + 1;
          synchronized := false;
        }
        return;
      }
      ContinuesEnd(g, State(), ready, at, recoveryTimeoutUs);
    }

    method DrainCompleteFrames(at: int) returns (ready: seq<Msg>, sent: seq<Control>)
      requires Valid()
      modifies this
      ensures Valid() && ops == old(ops) + [DrainAt(at)] && pool == old(pool)
      ensures Output(History().events) == Output(old(History().events)) + ready
      ensures Sent(History().events) == Sent(old(History().events)) + sent
    {
      hide Advance, Resync, Run, Step, Output, Sent;
      DrainStep(ops, at, recoveryTimeoutUs);
      Appended(History().events, Drain(State(), at, recoveryTimeoutUs).events);
      if !synchronized {
        ready, sent := ScanForKeyframe(at);
      } else {
        ready := OutputInOrder(at);
        sent := [];
      }
      ops := ops + [DrainAt(at)];
    }

    /** `send_nack`: whether a message went out, and its pairs. */
    method SendNack(frame: Assembly) returns (nack: Option<seq<Nack.Group>>)
      requires |frame.packets| < 0x1_0000
      ensures nack == if Nack.Missing(frame.firstSequence, Have(frame)) == [] then None else Some(NackGroups(frame))
    {
      nack := Nack.BuildNack(frame.firstSequence, Have(frame));
    }

    method IsDue(frame: Assembly, at: int) returns (due: bool)
      ensures due == Due(frame, at, recoveryTimeoutUs)
    {
      if frame.count == 0 || Complete(frame) {
        return false;
      }
      due := (frame.markerSeen || at - frame.firstSeen >= NACK_DELAY_US)
        && (frame.lastNack == 0 || at - frame.lastNack >= NACK_RETRY_US)
        && at - frame.firstSeen < recoveryTimeoutUs;
    }

    method ReceiverPoll(at: int) returns (sent: seq<Control>)
      requires Valid()
      modifies this
      ensures Valid() && ops == old(ops) + [PollAt(at)] && pool == old(pool)
      ensures Output(History().events) == Output(old(History().events))
      ensures Sent(History().events) == Sent(old(History().events)) + sent
    {
      hide Run, Sound, Poll, Output, Sent;
      RunSound(ops, recoveryTimeoutUs, pool);
      PollStep(ops, at, recoveryTimeoutUs);
      ghost var g := State();
      sent := PollFrames(at);
      PollOutput(g, at, recoveryTimeoutUs);
      Appended(History().events, Poll(g, at, recoveryTimeoutUs).events);
      ops := ops + [PollAt(at)];
    }

    /** The timer loop. */
    method PollFrames(at: int) returns (sent: seq<Control>)
      requires Sound(State(), pool)
      modifies this`frames, this`nackPackets
      ensures State() == Poll(old(State()), at, recoveryTimeoutUs).gate
      ensures sent == Sent(Poll(old(State()), at, recoveryTimeoutUs).events)
    {
      hide Due, NackGroups, Sound, InOrder, Sent, Have, PolledSoFar, Poll;
      sent := [];
      ghost var g := State();
      var order := InOrder(frames.Keys);
      PolledNone(g, order, at, recoveryTimeoutUs);
      for i := 0 to |order|
        invariant State() == g.(frames := frames, nackPackets := nackPackets)
        invariant PolledSoFar(g, order, i, at, recoveryTimeoutUs, frames, sent, nackPackets)
      {
        var id := order[i];
        PolledNext(g, order, i, at, recoveryTimeoutUs, pool, frames, sent, nackPackets);
        var frame := frames[id];
        var due := IsDue(frame, at);
        if due {
          var nack := SendNack(frame);
          if nack.Some? {
            sent := sent + [NackMessage(nack.value)];
            nackPackets := nackPackets + 1;
          }
          frames := frames[id := frame.(lastNack := at)];
        }
      }
      PolledAll(g, order, at, recoveryTimeoutUs, frames, sent, nackPackets);
    }

    /** One batch from the transport: media packets are taken in, what is ready replaces them, then the timers run. */
    method ReceiverIncoming(messages: seq<Msg>, times: seq<int>, drainedAt: int, polledAt: int)
      returns (passed: seq<Msg>, sent: seq<Control>)
      requires Valid() && |times| == |messages| && forall i | 0 <= i < |times| :: times[i] > 0
      modifies this
      ensures Valid() && old(ops) <= ops && |ops| >= |old(ops)| + 2
      ensures ArrivesAll(ops[|old(ops)|..|ops| - 2], messages, times)
      ensures ops[|ops| - 2] == DrainAt(drainedAt) && ops[|ops| - 1] == PollAt(polledAt)
      ensures var n := |OthersBefore(messages, |messages|)|;
        && n <= |passed| && PassesAll(passed[..n], messages)
        && Output(History().events) == Output(old(History().events)) + passed[n..]
      ensures Sent(History().events) == Sent(old(History().events)) + sent
    {
      hide *;
      ghost var output, control0 := Output(History().events), Sent(History().events);
      var control := TakeIn(messages, times);
      ghost var taken := ops;
      var ready, acks := DrainCompleteFrames(drainedAt);
      var nacks := ReceiverPoll(polledAt);
      passed, sent := control + ready, acks + nacks;
      assert control0 + (acks + nacks) == control0 + acks + nacks;
      assert ops[|old(ops)|..|ops| - 2] == taken[|old(ops)|..];
      assert passed[..|control|] == control && passed[|control|..] == ready;
    }

    /** The arrival loop: media packets go into the buffer, everything else is passed on. */
    method TakeIn(messages: seq<Msg>, times: seq<int>) returns (control: seq<Msg>)
      requires Valid() && |times| == |messages| && forall i | 0 <= i < |times| :: times[i] > 0
      modifies this
      ensures Valid() && PassesAll(control, messages) && |control| == |OthersBefore(messages, |messages|)|
      ensures old(ops) <= ops && ArrivesAll(ops[|old(ops)|..], messages, times)
      ensures Output(History().events) == Output(old(History().events))
      ensures Sent(History().events) == Sent(old(History().events))
    {
      hide Run, Valid, Parse, IsRtp, Output, Sent;
      control := [];
      for i := 0 to |messages|
        invariant Valid()
        invariant control == ControlOf(messages[..i])
        invariant ops == old(ops) + ArrivalOps(messages[..i], times[..i])
        invariant Output(History().events) == Output(old(History().events))
        invariant Sent(History().events) == Sent(old(History().events))
      {
        assert messages[..i + 1][..i] == messages[..i] && times[..i + 1][..i] == times[..i];
        if !IsRtp(messages[i]) {
          control := control + [messages[i]];
          continue;
        }
        ProcessReceiverPacket(messages[i], times[i]);
      }
      assert messages[..|messages|] == messages && times[..|times|] == times;
      ArrivalsAre(messages, times);
      ControlIs(messages);
    }
  }
}

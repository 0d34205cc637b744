/** A keyframe gets through however wide the gap before it is: overflowing throws out what lies below it. */
module FarKeyframe {
  import opened Words
  import opened FrameGate
  import opened GateInvariant
  import opened DecodeSafety
  import opened GateLimits
  import opened Confluence
  import opened Resynchronisation
  import opened Overflow

  /** Frame `f` and its successor are not buffered, and the buffer is not full of later frames. */
  predicate Unseen(g: Gate, f: Frame) {
    && f.frameId !in g.frames && f.frameId + 1 !in g.frames
    && !(|g.frames| == 64 && forall k | k in g.frames :: k > f.frameId)
  }

  predicate NoOtherWhole(g: Gate, id: U32) {
    forall k | k in g.frames && k != id :: !Decodable(g.frames[k])
  }

  /** Unsynchronised, with nothing to resume at; in the keyframe's epoch, without a trace of it. */
  predicate Open(g: Gate, f: Frame) {
    && !g.synced && |g.frames| <= 64 && NoOtherWhole(g, f.frameId)
    && (if g.epoch == Some(f.epoch) then Unseen(g, f)
        else f.frameId in g.frames ==> !Decodable(g.frames[f.frameId]))
  }

  /** The assembly of `f` holds what has been delivered, and nothing else could be resumed at. */
  predicate Holds(g: Gate, f: Frame, got: set<Packet>, start: int) {
    && g.epoch == Some(f.epoch) && g.next.Some? && |g.frames| <= 64 && NoOtherWhole(g, f.frameId)
    && f.frameId in g.frames && f.frameId + 1 !in g.frames
    && Partial(g.frames[f.frameId], f, got, start)
  }

  // ---------------------------------------------------------------- arrivals

  lemma FitsFrame(g: Gate, f: Frame, got: set<Packet>, start: int, p: Packet)
    requires FramePackets(f) && p in f.packets && start > 0 && g.epoch == Some(f.epoch)
    requires f.frameId in g.frames ==> Partial(g.frames[f.frameId], f, got, start)
    ensures Fits(g, p) && p.metadata.value.frameId == f.frameId && p.metadata.value.epoch == f.epoch
  {
    IndexOf(f, p);
  }

  /** Where the packet ends up, unless it is thrown out at once. */
  lemma OwnHolds(g: Gate, f: Frame, got: set<Packet>, start: int, p: Packet, now: int)
    requires FramePackets(f) && p in f.packets && 0 < start <= now && g.epoch == Some(f.epoch) && g.next.Some?
    requires if f.frameId in g.frames then Partial(g.frames[f.frameId], f, got, start) else !Touched(f, got)
    ensures Fits(g, p) && f.frameId in Stored(g, p, now).frames
    ensures Partial(Stored(g, p, now).frames[f.frameId], f, got + {p}, start)
  {
    hide FramePackets, Partial, Touched, Announce, Opening, Place, Bridged;
    FitsFrame(g, f, got, start, p);
    var md := p.metadata.value;
    var filled := Announce(g, md, now).frames;
    AnnounceShape(g, md, now);
    if f.frameId in g.frames {
      OpeningExisting(filled, f, got, start, p, now);
    } else {
      Newcomer(g, md, now);
      OpenedPartial(filled, f, got, start, p, now);
    }
    PlacePartial(Opening(filled, p, md, now), f, got, start, p);
  }

  /** What else is in the buffer then: what was there before, or placeholders. */
  lemma OthersStored(g: Gate, p: Packet, now: int)
    requires Fits(g, p) && g.next.Some? && NoOtherWhole(g, p.metadata.value.frameId)
    ensures NoOtherWhole(Stored(g, p, now), p.metadata.value.frameId)
  {
    hide Announce, Opening, Place, Bridged;
    AnnounceShape(g, p.metadata.value, now);
  }

  lemma ArriveHolds(g: Gate, f: Frame, got: set<Packet>, start: int, p: Packet, now: int)
    requires FramePackets(f) && p in f.packets && 0 < start <= now && f.frameId + 1 < 0x1_0000_0000
    requires g.epoch == Some(f.epoch) && g.next.Some? && |g.frames| <= 64 && NoOtherWhole(g, f.frameId)
    requires f.frameId + 1 !in g.frames
    requires if f.frameId in g.frames then Partial(g.frames[f.frameId], f, got, start)
             else !Touched(f, got) && Unseen(g, f)
    ensures Holds(Process(g, p, now), f, got + {p}, start)
  {
    hide FramePackets, Partial, Touched, Process, Evict, Stored, Decodable;
    FitsFrame(g, f, got, start, p);
    OverflowDropsOldest(g, p, now);
    OwnHolds(g, f, got, start, p, now);
    OthersStored(g, p, now);
    StoresThenEvicts(g, p, now);
    EvictLowest(Stored(g, p, now));
  }

  lemma FirstHolds(g: Gate, f: Frame, got: set<Packet>, start: int, p: Packet, now: int)
    requires FramePackets(f) && p in f.packets && 0 < start <= now && f.frameId + 1 < 0x1_0000_0000
    requires Open(g, f) && !Touched(f, got)
    ensures Holds(Process(g, p, now), f, got + {p}, start)
  {
    hide FramePackets, Partial, Touched, Store, Announce, Decodable, Holds;
    IndexOf(f, p);
    var entered := EnterEpoch(g, p.metadata.value);
    assert EnterEpoch(entered, p.metadata.value) == entered;
    assert Process(g, p, now) == Process(entered, p, now);
    ArriveHolds(entered, f, got, start, p, now);
  }

  // ---------------------------------------------------------------- drains and polls

  lemma OpenDrain(g: Gate, f: Frame, at: int, timeout: int)
    requires Open(g, f)
    ensures var r := Drain(g, at, timeout); Open(r.gate, f) && r.events == []
  {
    hide Decodable, Drain;
    ScanOnlyDrops(g, at, timeout);
    SubsetSize(Drain(g, at, timeout).gate.frames.Keys, g.frames.Keys);
    var r := Drain(g, at, timeout).gate;
    assert |r.frames| == |r.frames.Keys| && |g.frames| == |g.frames.Keys|;
    if |r.frames| == 64 {
      SubsetFull(r.frames.Keys, g.frames.Keys);
    }
  }

  lemma HoldsDrain(g: Gate, f: Frame, got: set<Packet>, start: int, at: int, timeout: int)
    requires FramePackets(f) && Holds(g, f, got, start) && !g.synced && at < start + timeout && !AllIn(f, got)
    ensures var r := Drain(g, at, timeout); Holds(r.gate, f, got, start) && !r.gate.synced && r.events == []
  {
    hide FramePackets, Partial, Drain, AllIn, Complete, Expired;
    var a := g.frames[f.frameId];
    CompleteWhenAllIn(a, f, got, start);
    NotYetExpired(a, f, got, start, at, timeout);
    ScanOnlyDrops(g, at, timeout);
    SubsetSize(Drain(g, at, timeout).gate.frames.Keys, g.frames.Keys);
    var r := Drain(g, at, timeout).gate;
    assert |r.frames| == |r.frames.Keys| && |g.frames| == |g.frames.Keys|;
  }

  lemma WholeLeaves(g: Gate, f: Frame, got: set<Packet>, start: int, at: int, timeout: int)
    requires FramePackets(f) && f.keyframe && f.frameId + 1 < 0x1_0000_0000
    requires Holds(g, f, got, start) && !g.synced && AllIn(f, got)
    ensures var r := Drain(g, at, timeout);
      && r.events == [Emit(f), KeyframeAck(f.epoch, f.frameId)] && InPlace(r.gate, [f], got, start, 1)
  {
    hide FramePackets, Partial, Drain, AllIn, Complete, FrameOf, InPlace;
    var a := g.frames[f.frameId];
    PartialLabels(a, f, got, start);
    CompleteWhenAllIn(a, f, got, start);
    LowestKeyframe(g, f.frameId, at, timeout);
    NoWrap(f.frameId);
    AloneInPlace(g, Drain(g, at, timeout).gate, f, got, start);
  }

  lemma AloneInPlace(g: Gate, r: Gate, f: Frame, got: set<Packet>, start: int)
    requires f.frameId + 1 < 0x1_0000_0000 && AllIn(f, got) && |g.frames| <= 64 && f.frameId in g.frames
    requires f.frameId + 1 !in g.frames
    requires r.synced && r.epoch == Some(f.epoch) && r.next == Some(f.frameId + 1)
    requires r.frames == map k | k in g.frames && k > f.frameId :: g.frames[k]
    ensures InPlace(r, [f], got, start, 1)
  {
    hide AllIn, Ids, Confluence.Open, Gone;
    OneId(f.frameId);
    SubsetSize(r.frames.Keys + Span([f]), g.frames.Keys);
    assert |g.frames.Keys| == |g.frames|;
    GoneWithout(r.frames, f, got, start);
  }

  lemma HoldsPoll(g: Gate, f: Frame, got: set<Packet>, start: int, at: int, timeout: int)
    ensures var r := Poll(g, at, timeout).gate;
      && (Open(g, f) ==> Open(r, f))
      && (Holds(g, f, got, start) ==> Holds(r, f, got, start))
      && r.synced == g.synced
  {
    hide Poll, Partial, Decodable;
    var r := Poll(g, at, timeout).gate;
    PollMarks(g, at, timeout, f.frameId);
    forall id | id in g.frames ensures Decodable(r.frames[id]) <==> Decodable(g.frames[id]) {
      PollMarks(g, at, timeout, id);
      MarkedDecodable(g.frames[id], at);
    }
    if Holds(g, f, got, start) {
      MarkedPartial(g.frames[f.frameId], f, got, start, at);
    }
  }

  // ---------------------------------------------------------------- whole schedules

  /** Before the keyframe is out, and after. */
  ghost predicate Standing(g: Gate, events: seq<Event>, f: Frame, got: set<Packet>, start: int)
    requires f.frameId + 1 < 0x1_0000_0000
  {
    if Frames(events) == []
    then NothingLost(events) && if Touched(f, got) then Holds(g, f, got, start) && !g.synced else Open(g, f)
    else Phase(g, events, [f], got, start)
  }

  lemma StandingArrive(g: Gate, f: Frame, got: set<Packet>, start: int, p: Packet, now: int)
    requires FramePackets(f) && f.frameId + 1 < 0x1_0000_0000 && p in f.packets && 0 < start <= now
    requires if Touched(f, got) then Holds(g, f, got, start) && !g.synced else Open(g, f)
    ensures Holds(Process(g, p, now), f, got + {p}, start) && !Process(g, p, now).synced && Touched(f, got + {p})
    ensures Frames(Receive(g, p, now).events) == [] && NothingLost(Receive(g, p, now).events)
  {
    hide FramePackets, Partial, Touched, Process, Frames, NothingLost, Decodable;
    TouchedBy(f, got, p);
    UnsyncedArrival(g, p, now);
    ProcessOnlyLoses(g, p, now);
    if Touched(f, got) {
      ArriveHolds(g, f, got, start, p, now);
    } else {
      FirstHolds(g, f, got, start, p, now);
    }
  }

  lemma StandingDrain(g: Gate, events: seq<Event>, f: Frame, got: set<Packet>, start: int, at: int, timeout: int)
    requires FramePackets(f) && f.keyframe && f.frameId + 1 < 0x1_0000_0000 && at < start + timeout
    requires Standing(g, events, f, got, start) && Frames(events) == []
    ensures var r := Drain(g, at, timeout);
      && Standing(r.gate, events + r.events, f, got, start)
      && (AllIn(f, got) ==> Frames(events + r.events) == [f])
  {
    hide FramePackets, Drain, Frames, NothingLost, Open, Holds, AllIn, InPlace, Touched;
    assert events + [] == events;
    if !Touched(f, got) {
      UntouchedIncomplete(f, got);
      OpenDrain(g, f, at, timeout);
    } else if !AllIn(f, got) {
      HoldsDrain(g, f, got, start, at, timeout);
    } else {
      WholeLeaves(g, f, got, start, at, timeout);
      EmitEvent(events, f);
      AckEvent(events + [Emit(f)], f);
      var ack := KeyframeAck(f.epoch, f.frameId);
      assert events + [Emit(f), ack] == events + [Emit(f)] + [ack];
    }
  }

  lemma StandingStep(g: Gate, events: seq<Event>, f: Frame, got: set<Packet>, op: Op, start: int, timeout: int)
    requires FramePackets(f) && f.keyframe && f.frameId + 1 < 0x1_0000_0000 && start > 0
    requires Standing(g, events, f, got, start) && InWindow(op, [f], start, timeout)
    ensures var r := Step(g, op, timeout); Standing(r.gate, events + r.events, f, WithOp(got, op), start)
    ensures op.DrainAt? && AllIn(f, got) ==> Frames(events + Step(g, op, timeout).events) == [f]
  {
    hide FramePackets, Process, Drain, Poll, Births, Frames, NothingLost, Open, Holds, AllIn, InPlace, Touched;
    var r := Step(g, op, timeout);
    FramesAppend(events, r.events);
    LostAppend(events, r.events);
    if Frames(events) != [] {
      PhaseStep(g, events, [f], got, op, start, timeout);
    } else {
      assert [] + Frames(r.events) == Frames(r.events);
      match op
      case Arrive(p, at) => StandingArrive(g, f, got, start, p, at);
      case DrainAt(at) =>
        StandingDrain(g, events, f, got, start, at, timeout);
        assert got + {} == got;
      case PollAt(at) =>
        HoldsPoll(g, f, got, start, at, timeout);
        PollMarks(g, at, timeout, 0);
        assert got + {} == got;
    }
  }

  /** Whatever has been delivered before, the schedule adds its own packets. */
  lemma {:induction false} StandingRun(g: Gate, had: set<Packet>, ops: seq<Op>, f: Frame, start: int, timeout: int)
    requires FramePackets(f) && f.keyframe && f.frameId + 1 < 0x1_0000_0000 && start > 0
    requires Standing(g, [], f, had, start) && Schedule(ops, [f], start, timeout)
    ensures var r := Run(g, ops, timeout); Standing(r.gate, r.events, f, had + Delivered(ops), start)
  {
    hide FramePackets, Step, Standing, Delivered;
    if ops == [] {
      NothingYet([f]);
      assert had + {} == had;
    } else {
      var n := |ops| - 1;
      StandingRun(g, had, ops[..n], f, start, timeout);
      DeliveredLast(ops);
      var before := Run(g, ops[..n], timeout);
      assert InWindow(ops[n], [f], start, timeout);
      StandingStep(before.gate, before.events, f, had + Delivered(ops[..n]), ops[n], start, timeout);
      assert WithOp(had + Delivered(ops[..n]), ops[n]) == had + Delivered(ops);
    }
  }

  lemma StandingLast(g: Gate, had: set<Packet>, ops: seq<Op>, f: Frame, start: int, timeout: int)
    requires FramePackets(f) && f.keyframe && f.frameId + 1 < 0x1_0000_0000 && start > 0
    requires Standing(g, [], f, had, start) && Schedule(ops, [f], start, timeout)
    requires ops != [] && ops[|ops| - 1].DrainAt? && AllIn(f, had + Delivered(ops))
    ensures var r := Run(g, ops, timeout);
      && Frames(r.events) == [f] && NothingLost(r.events)
      && r.gate.synced && r.gate.epoch == Some(f.epoch) && r.gate.next == Some(f.frameId + 1)
  {
    hide FramePackets, Step, Standing, Delivered, AllIn, Run, Frames, NothingLost;
    var n := |ops| - 1;
    var before := Run(g, ops[..n], timeout);
    StandingRun(g, had, ops[..n], f, start, timeout);
    DeliveredLast(ops);
    assert Delivered(ops) == Delivered(ops[..n]);
    assert InWindow(ops[n], [f], start, timeout);
    StandingStep(before.gate, before.events, f, had + Delivered(ops[..n]), ops[n], start, timeout);
    assert ops[..n] + [ops[n]] == ops;
    RunStep(g, ops[..n], ops[n], timeout);
    StandsOut(Run(g, ops, timeout), f, WithOp(had + Delivered(ops[..n]), ops[n]), start);
  }

  lemma StandsOut(r: Outcome, f: Frame, got: set<Packet>, start: int)
    requires FramePackets(f) && f.frameId + 1 < 0x1_0000_0000
    requires Standing(r.gate, r.events, f, got, start) && Frames(r.events) == [f]
    ensures NothingLost(r.events)
    ensures r.gate.synced && r.gate.epoch == Some(f.epoch) && r.gate.next == Some(f.frameId + 1)
  {
    hide FramePackets, Frames, NothingLost, InPlace;
    Stands(r.gate, [f], got, start, 1);
  }

  /**
   * However far ahead a keyframe is: an unsynchronised gate without a trace of it, whose buffer is not full of later
   * frames, hands it on whole once all its packets have arrived in time, in any order, repeated and batched at will.
   */
  lemma FarKeyframeLeaves(g: Gate, ops: seq<Op>, f: Frame, start: int, timeout: int)
    requires FramePackets(f) && f.keyframe && f.frameId + 1 < 0x1_0000_0000 && Open(g, f) && start > 0
    requires Schedule(ops, [f], start, timeout) && ops != [] && ops[|ops| - 1].DrainAt? && AllIn(f, Delivered(ops))
    ensures var r := Run(g, ops, timeout);
      && Frames(r.events) == [f] && NothingLost(r.events)
      && r.gate.synced && r.gate.epoch == Some(f.epoch) && r.gate.next == Some(f.frameId + 1)
  {
    hide FramePackets, Delivered, AllIn, Run, NothingLost, Open, Frames;
    FramesOfShort(Lost);
    UntouchedByNothing(f);
    NothingLostYet();
    assert {} + Delivered(ops) == Delivered(ops);
    StandingLast(g, {}, ops, f, start, timeout);
  }

  lemma NothingLostYet()
    ensures NothingLost([])
  {
  }

  /** A run seen from its first step. */
  lemma {:induction false} RunFront(g: Gate, op: Op, rest: seq<Op>, timeout: int)
    ensures var first := Step(g, op, timeout);
      var later := Run(first.gate, rest, timeout);
      Run(g, [op] + rest, timeout) == Outcome(later.gate, first.events + later.events)
    decreases |rest|
  {
    hide Step;
    var first := Step(g, op, timeout);
    if rest == [] {
      assert [op] + rest == [op] && [op][..0] == [];
      assert [] + first.events == first.events && first.events + [] == first.events;
    } else {
      var n := |rest| - 1;
      RunFront(g, op, rest[..n], timeout);
      var before := Run(first.gate, rest[..n], timeout);
      var last := Step(before.gate, rest[n], timeout);
      assert ([op] + rest)[..n + 1] == [op] + rest[..n];
      assert first.events + (before.events + last.events) == first.events + before.events + last.events;
    }
  }

  /** More than 64 ids lie from the due frame to this one: it overflows the buffer, and synchronisation is lost. */
  lemma FarLoses(g: Gate, f: Frame, p: Packet, now: int)
    requires FramePackets(f) && p in f.packets && g.synced && g.next.Some? && |g.frames| <= 64
    requires f.frameId !in g.frames && f.frameId >= g.next.value + 64
    ensures !Process(g, p, now).synced
  {
    hide FramePackets, Process, Ids;
    IndexOf(f, p);
    KeepsSyncExactly(g, p, now);
    IdsSize(g.next.value, f.frameId + 1);
    SubsetSize(Ids(g.next.value, f.frameId + 1), Reach(g, f.frameId));
  }

  lemma RestDelivers(ops: seq<Op>)
    requires ops != [] && ops[0].Arrive?
    ensures Delivered(ops) == {ops[0].packet} + Delivered(ops[1..])
  {
    forall p | p in Delivered(ops) ensures p in {ops[0].packet} + Delivered(ops[1..]) {
      var i :| 0 <= i < |ops| && ops[i].Arrive? && ops[i].packet == p;
      if i > 0 {
        assert ops[1..][i - 1] == ops[i];
      }
    }
    forall p | p in Delivered(ops[1..]) ensures p in Delivered(ops) {
      var i :| 0 <= i < |ops| - 1 && ops[1..][i].Arrive? && ops[1..][i].packet == p;
      assert ops[i + 1] == ops[1..][i];
    }
  }

  /**
   * After an outage of 64 frames or more: a synchronised gate, waiting for a frame that is long gone, loses
   * synchronisation with the first packet of the keyframe and then hands the keyframe on whole.
   */
  lemma KeyframeAfterOutage(g: Gate, ops: seq<Op>, f: Frame, start: int, timeout: int)
    requires FramePackets(f) && f.keyframe && f.frameId + 1 < 0x1_0000_0000 && start > 0
    requires g.synced && g.epoch == Some(f.epoch) && g.next.Some? && f.frameId >= g.next.value + 64
    requires |g.frames| <= 64 && NoOtherWhole(g, f.frameId) && Unseen(g, f)
    requires Schedule(ops, [f], start, timeout) && |ops| > 1 && ops[0].Arrive? && ops[|ops| - 1].DrainAt?
    requires AllIn(f, Delivered(ops))
    ensures var r := Run(g, ops, timeout);
      && Frames(r.events) == [f] && !NothingLost(r.events)
      && r.gate.synced && r.gate.epoch == Some(f.epoch) && r.gate.next == Some(f.frameId + 1)
  {
    hide FramePackets, Delivered, AllIn, Run, NothingLost, Holds, NoOtherWhole, Frames, Process, Births;
    var p, rest := ops[0].packet, ops[1..];
    assert Among(p, [f]) && p in f.packets;
    UntouchedByNothing(f);
    FarLoses(g, f, p, ops[0].at);
    ArriveHolds(g, f, {}, start, p, ops[0].at);
    TouchedBy(f, {}, p);
    assert {} + {p} == {p};
    ArriveEvents(g, p, ops[0].at);
    FramesOfShort(Lost);
    NothingLostYet();
    RestDelivers(ops);
    StandingLast(Process(g, p, ops[0].at), {p}, rest, f, start, timeout);
    assert [ops[0]] + rest == ops;
    RunFront(g, ops[0], rest, timeout);
    var first := Receive(g, p, ops[0].at);
    FramesAppend(first.events, Run(first.gate, rest, timeout).events);
    LostAppend(first.events, Run(first.gate, rest, timeout).events);
    assert [] + [f] == [f];
  }
}

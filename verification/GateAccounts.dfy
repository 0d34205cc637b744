/** What each drain keeps, throws away and counts, and that the counters add up over every run. */
module GateAccounts {
  import opened Words
  import opened StampedPacket
  import opened FrameGate
  import opened GateInvariant
  import opened DecodeSafety
  import opened Confluence

  /** Every packet of the frame is there. */
  predicate AllThere(f: Assembly) {
    f.count > 0 && |f.packets| == f.count && forall i | 0 <= i < f.count :: f.packets[i].Some?
  }

  /** Not to be waited for any longer. */
  predicate Overdue(f: Assembly, at: int, timeout: int) {
    at >= f.firstSeen + timeout
  }

  /** What a scan for a keyframe throws away: what is whole and no keyframe, and what is overdue and not whole. */
  predicate Wasted(f: Assembly, at: int, timeout: int) {
    if AllThere(f) then !f.keyframe else Overdue(f, at, timeout)
  }

  predicate NoKeyframe(frames: map<U32, Assembly>) {
    forall id | id in frames :: !(AllThere(frames[id]) && frames[id].keyframe)
  }

  function WastedBelow(frames: map<U32, Assembly>, bound: int, at: int, timeout: int): set<U32> {
    set id | id in frames && id < bound && Wasted(frames[id], at, timeout)
  }

  lemma WastedIsUseless(f: Assembly, at: int, timeout: int)
    ensures Useless(f, at, timeout) <==> Wasted(f, at, timeout)
    ensures Complete(f) <==> AllThere(f)
  {
  }

  /** An unsynchronised drain with nothing to resume at: what may still be completed stays, the rest is counted. */
  lemma ScanKeepsUsable(g: Gate, at: int, timeout: int)
    requires !g.synced && NoKeyframe(g.frames)
    ensures var r := Drain(g, at, timeout);
      && r.events == [] && !r.gate.synced && r.gate.next == g.next && r.gate.epoch == g.epoch
      && (forall id :: id in r.gate.frames <==> id in g.frames && !Wasted(g.frames[id], at, timeout))
      && (forall id | id in r.gate.frames :: r.gate.frames[id] == g.frames[id])
      && r.gate.droppedFrames == g.droppedFrames + |g.frames| - |r.gate.frames|
  {
    hide Useless, Wasted, Complete, AllThere;
    forall id | id in g.frames
      ensures Useless(g.frames[id], at, timeout) <==> Wasted(g.frames[id], at, timeout)
      ensures Complete(g.frames[id]) <==> AllThere(g.frames[id])
    {
      WastedIsUseless(g.frames[id], at, timeout);
    }
    assert Candidates(g.frames) == {};
    var stale := Stale(g.frames, 0x1_0000_0000, at, timeout);
    var left := (g.frames - stale).Keys;
    assert g.frames.Keys == left + stale && left !! stale;
    assert |g.frames| == |g.frames.Keys| && |g.frames - stale| == |left|;
  }

  /** An unsynchronised drain that resumes at keyframe `k`: everything below goes, what was wasted anyway is counted. */
  lemma ScanResumes(g: Gate, k: U32, at: int, timeout: int)
    requires !g.synced && k in g.frames && AllThere(g.frames[k]) && g.frames[k].keyframe && g.frames[k].frameId == k
    requires NoKeyframe(map id | id in g.frames && id < k :: g.frames[id])
    ensures var r := Drain(g, at, timeout).gate;
      && r.synced && r.next == Some(Wrap32(k + 1)) && r.epoch == g.epoch
      && (forall id :: id in r.frames <==> id in g.frames && id > k)
      && (forall id | id in r.frames :: r.frames[id] == g.frames[id])
      && r.droppedFrames == g.droppedFrames + |WastedBelow(g.frames, k, at, timeout)|
  {
    hide Useless, Wasted, Complete, AllThere, FrameOf;
    forall id | id in g.frames
      ensures Useless(g.frames[id], at, timeout) <==> Wasted(g.frames[id], at, timeout)
      ensures Complete(g.frames[id]) <==> AllThere(g.frames[id])
    {
      WastedIsUseless(g.frames[id], at, timeout);
    }
    var below := map id | id in g.frames && id < k :: g.frames[id];
    assert k in Candidates(g.frames);
    forall id | id in g.frames && id < k ensures id !in Candidates(g.frames) {
      assert id in below && below[id] == g.frames[id];
    }
    assert Least(Candidates(g.frames)) == k;
    assert Stale(g.frames, k, at, timeout) == WastedBelow(g.frames, k, at, timeout);
  }

  /** A synchronised drain that finds the due frame overdue gives up on it alone, and on synchronisation. */
  lemma GivesUpDue(g: Gate, at: int, timeout: int)
    requires g.synced && g.next.Some? && g.next.value in g.frames
    requires !AllThere(g.frames[g.next.value]) && Overdue(g.frames[g.next.value], at, timeout)
    ensures var r := Drain(g, at, timeout);
      && r.events == [Lost] && !r.gate.synced && r.gate.epoch == g.epoch
      && r.gate.next == Some(Wrap32(g.next.value + 1)) && r.gate.frames == g.frames - {g.next.value}
      && r.gate.droppedFrames == g.droppedFrames + 1
  {
    hide Complete, AllThere, FrameOf;
    WastedIsUseless(g.frames[g.next.value], at, timeout);
  }

  // ---------------------------------------------------------------- counters

  /** How many NACKs there are among the events. */
  function NackCount(events: seq<Event>): nat {
    if events == [] then 0
    else NackCount(events[..|events| - 1]) + if events[|events| - 1].NackSent? then 1 else 0
  }

  lemma {:induction false} NackCountAppend(events: seq<Event>, more: seq<Event>)
    ensures NackCount(events + more) == NackCount(events) + NackCount(more)
    decreases more
  {
    if more == [] {
      assert events + [] == events;
    } else {
      var n := |more| - 1;
      NackCountAppend(events, more[..n]);
      assert (events + more)[..|events| + n] == events + more[..n];
    }
  }

  lemma {:induction false} NackCountOf(events: seq<Event>)
    ensures (forall i | 0 <= i < |events| :: events[i].NackSent?) ==> NackCount(events) == |events|
    ensures (forall i | 0 <= i < |events| :: !events[i].NackSent?) ==> NackCount(events) == 0
  {
    if events != [] {
      NackCountOf(events[..|events| - 1]);
    }
  }

  predicate Counted(g: Gate, r: Outcome) {
    && r.gate.completeFrames == g.completeFrames + |Frames(r.events)|
    && r.gate.nackPackets == g.nackPackets + NackCount(r.events)
  }

  lemma {:induction false} AdvanceCounts(g: Gate, at: int, timeout: int)
    ensures Counted(g, Advance(g, at, timeout))
    decreases |g.frames|
  {
    hide Complete, Expired, FrameOf, Frames, NackCount;
    FramesOfShort(Lost);
    NackCountOf([]);
    if g.next.Some? && g.next.value in g.frames {
      var f := g.frames[g.next.value];
      if Complete(f) {
        var g' := Without(g, g.next.value).(completeFrames := g.completeFrames + 1);
        var e := Emit(FrameOf(f));
        AdvanceCounts(g', at, timeout);
        FramesAppend([e], Advance(g', at, timeout).events);
        NackCountAppend([e], Advance(g', at, timeout).events);
        FramesOfShort(e);
        NackCountOf([e]);
      } else if Expired(f, at, timeout) {
        NoFrames([Lost]);
        NackCountOf([Lost]);
      }
    }
  }

  lemma ResyncCounts(g: Gate, at: int, timeout: int)
    ensures Counted(g, Resync(g, at, timeout))
  {
    hide Frames, NackCount, FrameOf, Stale;
    FramesOfShort(Lost);
    NackCountOf([]);
    if Candidates(g.frames) != {} {
      var f := g.frames[Least(Candidates(g.frames))];
      var e, ack := Emit(FrameOf(f)), KeyframeAck(f.epoch, f.frameId);
      FramesAppend([e], [ack]);
      FramesOfShort(e);
      NoFrames([ack]);
      NackCountOf([e, ack]);
      assert [e] + [ack] == [e, ack];
    }
  }

  lemma PollCounts(g: Gate, at: int, timeout: int)
    ensures Counted(g, Poll(g, at, timeout))
  {
    hide Frames, NackCount, Nacks;
    NacksOnly(g.frames, InOrder(g.frames.Keys), at, timeout);
    NoFrames(Poll(g, at, timeout).events);
    NackCountOf(Poll(g, at, timeout).events);
  }

  lemma {:induction false} EvictCounts(g: Gate)
    ensures Evict(g).completeFrames == g.completeFrames && Evict(g).nackPackets == g.nackPackets
    ensures Evict(g).droppedFrames == g.droppedFrames
    decreases |g.frames|
  {
    if |g.frames| > MAX_FRAMES {
      EvictCounts(g.(frames := g.frames - {Least(g.frames.Keys)}, synced := false));
    }
  }

  predicate SameCounters(g: Gate, r: Gate) {
    r.completeFrames == g.completeFrames && r.nackPackets == g.nackPackets && r.droppedFrames == g.droppedFrames
  }

  lemma StoreCounts(g: Gate, p: Packet, md: Metadata, now: int)
    ensures SameCounters(g, Store(g, p, md, now))
  {
    hide Opening, Place, Matches, Evict;
    EvictCounts(g.(frames := g.frames[md.frameId := Place(Opening(g.frames, p, md, now), p, md.index)]));
  }

  lemma ProcessCounts(g: Gate, p: Packet, now: int)
    ensures SameCounters(g, Process(g, p, now))
  {
    hide Store, FillGap;
    if Usable(p) {
      var md := p.metadata.value;
      StoreCounts(Announce(EnterEpoch(g, md), md, now), p, md, now);
    }
  }

  lemma ArriveCounts(g: Gate, p: Packet, now: int)
    ensures Counted(g, Receive(g, p, now)) && Receive(g, p, now).gate.droppedFrames == g.droppedFrames
  {
    hide Frames, NackCount, Process, Opens;
    NoFrames(Receive(g, p, now).events);
    NackCountOf(Receive(g, p, now).events);
    ProcessCounts(g, p, now);
  }

  lemma StepCounts(g: Gate, op: Op, timeout: int)
    ensures Counted(g, Step(g, op, timeout))
  {
    hide Advance, Resync, Receive, Poll, Frames, NackCount;
    match op
    case Arrive(p, at) => ArriveCounts(g, p, at);
    case DrainAt(at) =>
      AdvanceCounts(g, at, timeout);
      ResyncCounts(g, at, timeout);
    case PollAt(at) => PollCounts(g, at, timeout);
    case InvalidateSync =>
      NoFrames(Invalidate(g).events);
      NackCountOf(Invalidate(g).events);
  }

  /** Over any run the receiver's counters are the numbers of frames handed on and of NACKs sent. */
  lemma {:induction false} CountersTrue(ops: seq<Op>, timeout: int)
    ensures var r := Run(START, ops, timeout);
      r.gate.completeFrames == |Frames(r.events)| && r.gate.nackPackets == NackCount(r.events)
  {
    hide Step, Frames, NackCount;
    FramesOfShort(Lost);
    NackCountOf([]);
    if ops != [] {
      var n := |ops| - 1;
      CountersTrue(ops[..n], timeout);
      var before := Run(START, ops[..n], timeout);
      StepCounts(before.gate, ops[n], timeout);
      FramesAppend(before.events, Step(before.gate, ops[n], timeout).events);
      NackCountAppend(before.events, Step(before.gate, ops[n], timeout).events);
    }
  }

  /** Invalidation forgets everything but the epoch and the counters. */
  lemma InvalidateForgets(g: Gate)
    ensures var r := Invalidate(g);
      && r.gate.frames == map[] && r.gate.next == None && !r.gate.synced && r.gate.epoch == g.epoch
      && r.gate.droppedFrames == g.droppedFrames && r.events == if g.synced then [Lost] else []
  {
  }
}

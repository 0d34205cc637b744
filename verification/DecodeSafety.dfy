/** A decoder fed by the gate never meets a frame whose reference chain back to a keyframe is broken. */
module DecodeSafety {
  import opened Words
  import opened FrameGate
  import opened GateInvariant

  /** The frame the next one has to follow; `None` at the start and after every loss of synchronisation. */
  function Anchor(events: seq<Event>): Option<Frame> {
    if events == [] then None
    else
      match events[|events| - 1]
      case Emit(f) => Some(f)
      case Lost => None
      case _ => Anchor(events[..|events| - 1])
  }

  predicate Follows(f: Frame, anchor: Option<Frame>) {
    match anchor
    case None => f.keyframe
    case Some(prev) => f.epoch == prev.epoch && f.frameId == Wrap32(prev.frameId + 1)
  }

  /** Every frame is a keyframe or directly follows the one emitted before it, with no loss of sync in between. */
  predicate DecodeSafe(events: seq<Event>) {
    events == [] ||
    var n := |events| - 1;
    DecodeSafe(events[..n]) && (events[n].Emit? ==> Follows(events[n].frame, Anchor(events[..n])))
  }

  /** The last event is a frame that restored synchronisation and has not been acknowledged yet. */
  predicate Unacknowledged(events: seq<Event>) {
    events != [] && events[|events| - 1].Emit? && Anchor(events[..|events| - 1]).None?
  }

  /** A frame that restores synchronisation is acknowledged at once, by its own epoch and id; nothing else ever is. */
  predicate Acknowledged(events: seq<Event>) {
    events == [] ||
    var n := |events| - 1;
    && Acknowledged(events[..n])
    && (Unacknowledged(events[..n]) <==> events[n].KeyframeAck?)
    && (events[n].KeyframeAck? && n > 0 && events[n - 1].Emit? ==>
          events[n] == KeyframeAck(events[n - 1].frame.epoch, events[n - 1].frame.frameId))
  }

  /** How the gate's state remembers the events so far. */
  predicate Linked(g: Gate, events: seq<Event>) {
    DecodeSafe(events) && Acknowledged(events) && !Unacknowledged(events) &&
    if g.synced then
      var a := Anchor(events);
      a.Some? && g.next == Some(Wrap32(a.value.frameId + 1)) && g.epoch == Some(a.value.epoch)
    else Anchor(events) == None
  }

  lemma Snoc(events: seq<Event>, e: Event)
    ensures (events + [e])[..|events|] == events
    ensures DecodeSafe(events + [e]) <==> DecodeSafe(events) && (e.Emit? ==> Follows(e.frame, Anchor(events)))
    ensures Anchor(events + [e]) == match e case Emit(f) => Some(f) case Lost => None case _ => Anchor(events)
    ensures Unacknowledged(events + [e]) <==> e.Emit? && Anchor(events).None?
    ensures !e.KeyframeAck? ==> (Acknowledged(events + [e]) <==> Acknowledged(events) && !Unacknowledged(events))
  {
    assert (events + [e])[..|events|] == events;
  }

  /** The acknowledgement of the frame just emitted. */
  lemma SnocAck(events: seq<Event>, f: Frame)
    requires Acknowledged(events) && !Unacknowledged(events) && Anchor(events).None?
    ensures Acknowledged(events + [Emit(f)] + [KeyframeAck(f.epoch, f.frameId)])
  {
    hide Anchor;
    Snoc(events, Emit(f));
    var front := events + [Emit(f)];
    assert (front + [KeyframeAck(f.epoch, f.frameId)])[..|front|] == front;
  }

  lemma {:induction false} EvictOnlyLoses(g: Gate)
    ensures var r := Evict(g); r.next == g.next && r.epoch == g.epoch && (r.synced ==> g.synced)
    decreases |g.frames|
  {
    if |g.frames| > MAX_FRAMES {
      EvictOnlyLoses(g.(frames := g.frames - {Least(g.frames.Keys)}, synced := false));
    }
  }

  /** A packet can lose synchronisation but never gain it, and leaves a synchronised gate where it stands. */
  lemma ProcessOnlyLoses(g: Gate, p: Packet, now: int)
    requires g.synced ==> g.next.Some?
    ensures var r := Process(g, p, now);
      r.synced ==> g.synced && r.next == g.next && r.epoch == g.epoch
  {
    hide Opening, Place, FillGap;
    if Usable(p) {
      var md := p.metadata.value;
      var g2 := Announce(EnterEpoch(g, md), md, now);
      var f := Opening(g2.frames, p, md, now);
      EvictOnlyLoses(g2.(frames := g2.frames[md.frameId := Place(f, p, md.index)]));
    }
  }

  lemma ReceiveLinked(g: Gate, events: seq<Event>, p: Packet, now: int)
    requires Linked(g, events) && (g.synced ==> g.next.Some?)
    ensures var r := Receive(g, p, now); Linked(r.gate, events + r.events)
  {
    hide Process, FillGap, DecodeSafe, Anchor, Acknowledged, Unacknowledged;
    var g' := Process(g, p, now);
    ProcessOnlyLoses(g, p, now);
    var births, lost := Births(g, p, now), LostBetween(g, g');
    assert events + [] == events;
    if births != [] {
      Snoc(events, births[0]);
      assert births == [births[0]];
    }
    assert Linked(g, events + births);
    if lost != [] {
      Snoc(events + births, Lost);
    } else {
      assert events + births + [] == events + births;
    }
    assert events + (births + lost) == events + births + lost;
  }

  lemma {:induction false} AdvanceLinked(g: Gate, events: seq<Event>, at: int, timeout: int, pool: set<Packet>)
    requires Linked(g, events) && g.synced && Sound(g, pool)
    ensures var r := Advance(g, at, timeout); Linked(r.gate, events + r.events)
    decreases |g.frames|
  {
    hide SlotsOk, Complete, Expired, DecodeSafe, Anchor, Acknowledged, Unacknowledged;
    if g.next.Some? && g.next.value in g.frames {
      var id := g.next.value;
      var f := g.frames[id];
      if Complete(f) {
        var e := Emit(FrameOf(f));
        var g' := Without(g, id).(completeFrames := g.completeFrames + 1);
        Snoc(events, e);
        AdvanceLinked(g', events + [e], at, timeout, pool);
        var rest := Advance(g', at, timeout).events;
        assert events + ([e] + rest) == events + [e] + rest;
      } else if Expired(f, at, timeout) {
        Snoc(events, Lost);
      } else {
        assert events + [] == events;
      }
    } else {
      assert events + [] == events;
    }
  }

  lemma ResyncLinked(g: Gate, events: seq<Event>, at: int, timeout: int, pool: set<Packet>)
    requires Linked(g, events) && !g.synced && Sound(g, pool)
    ensures var r := Resync(g, at, timeout); Linked(r.gate, events + r.events)
  {
    hide SlotsOk, Stale, DecodeSafe, Anchor, Acknowledged, Unacknowledged;
    var keys := Candidates(g.frames);
    if keys == {} {
      assert events + [] == events;
    } else {
      var f := g.frames[Least(keys)];
      var e, ack := Emit(FrameOf(f)), KeyframeAck(f.epoch, f.frameId);
      Snoc(events, e);
      Snoc(events + [e], ack);
      SnocAck(events, FrameOf(f));
      assert events + [e, ack] == events + [e] + [ack];
    }
  }

  lemma {:induction false} NacksLinked(g: Gate, events: seq<Event>, nacks: seq<Event>, at: int)
    requires Linked(g, events) && OnlyNacks(nacks, at)
    ensures Linked(g, events + nacks)
  {
    hide DecodeSafe, Anchor, Acknowledged, Unacknowledged;
    if nacks == [] {
      assert events + [] == events;
    } else {
      var n := |nacks| - 1;
      NacksLinked(g, events, nacks[..n], at);
      Snoc(events + nacks[..n], nacks[n]);
      assert nacks == nacks[..n] + [nacks[n]];
      assert events + nacks == events + nacks[..n] + [nacks[n]];
    }
  }

  lemma StepLinked(g: Gate, events: seq<Event>, op: Op, timeout: int, pool: set<Packet>)
    requires Linked(g, events) && Sound(g, pool)
    ensures var r := Step(g, op, timeout); Linked(r.gate, events + r.events)
  {
    hide FramesOk, Advance, Resync, Receive, Nacks, DecodeSafe, Anchor, Acknowledged, Unacknowledged;
    match op
    case Arrive(p, at) => ReceiveLinked(g, events, p, at);
    case DrainAt(at) =>
      if g.synced {
        AdvanceLinked(g, events, at, timeout, pool);
      } else {
        ResyncLinked(g, events, at, timeout, pool);
      }
    case PollAt(at) =>
      var nacks := Nacks(g.frames, InOrder(g.frames.Keys), at, timeout);
      NacksOnly(g.frames, InOrder(g.frames.Keys), at, timeout);
      NacksLinked(g, events, nacks, at);
    case InvalidateSync =>
      Snoc(events, Lost);
      assert events + [] == events;
  }

  lemma {:induction false} RunLinked(ops: seq<Op>, timeout: int, pool: set<Packet>)
    requires PositiveTimes(ops) && Arrivals(ops, pool)
    ensures var r := Run(START, ops, timeout); Linked(r.gate, r.events)
  {
    hide Step, Sound;
    if ops != [] {
      var n := |ops| - 1;
      RunLinked(ops[..n], timeout, pool);
      RunSound(ops[..n], timeout, pool);
      var before := Run(START, ops[..n], timeout);
      StepLinked(before.gate, before.events, ops[n], timeout, pool);
    }
  }

  /** Whatever arrives and whenever: the first frame after a loss of sync is a keyframe, others continue the last. */
  lemma EveryRunDecodeSafe(ops: seq<Op>, timeout: int, pool: set<Packet>)
    requires PositiveTimes(ops) && Arrivals(ops, pool)
    ensures DecodeSafe(Run(START, ops, timeout).events)
  {
    RunLinked(ops, timeout, pool);
  }

  /** Each keyframe that restores synchronisation is acknowledged exactly once, straight away, and nothing else is. */
  lemma EveryResyncAcknowledged(ops: seq<Op>, timeout: int, pool: set<Packet>)
    requires PositiveTimes(ops) && Arrivals(ops, pool)
    ensures Acknowledged(Run(START, ops, timeout).events) && !Unacknowledged(Run(START, ops, timeout).events)
  {
    RunLinked(ops, timeout, pool);
  }

  /** The frames among some events, in order. */
  function Frames(events: seq<Event>): seq<Frame> {
    if events == [] then []
    else Frames(events[..|events| - 1]) + if events[|events| - 1].Emit? then [events[|events| - 1].frame] else []
  }

  /** A keyframe and the frames that build on it, one id after the other in one epoch. */
  predicate Chain(frames: seq<Frame>) {
    && frames != [] && frames[0].keyframe
    && forall i | 0 < i < |frames| ::
         frames[i].epoch == frames[i - 1].epoch && frames[i].frameId == Wrap32(frames[i - 1].frameId + 1)
  }

  predicate NothingLost(events: seq<Event>) {
    forall i | 0 <= i < |events| :: !events[i].Lost?
  }

  /** `part` ends an unbroken chain in frame `f`. */
  predicate Unbroken(part: seq<Event>, f: Frame) {
    var frames := Frames(part);
    NothingLost(part) && Chain(frames) && frames[|frames| - 1] == f
  }

  lemma UnbrokenStart(e: Event)
    requires e.Emit? && e.frame.keyframe
    ensures Unbroken([e], e.frame)
  {
    assert [e][..0] == [];
    assert Frames([e]) == [e.frame];
  }

  lemma UnbrokenGrows(part: seq<Event>, f: Frame, e: Event)
    requires Unbroken(part, f) && !e.Lost? && (e.Emit? ==> Follows(e.frame, Some(f)))
    ensures Unbroken(part + [e], if e.Emit? then e.frame else f)
  {
    assert (part + [e])[..|part|] == part;
    assert Frames(part + [e]) == Frames(part) + if e.Emit? then [e.frame] else [];
  }

  /** The anchor of any event prefix ends an unbroken chain. */
  lemma {:induction false} AnchorChain(events: seq<Event>) returns (start: nat)
    requires DecodeSafe(events) && Anchor(events).Some?
    ensures start < |events| && Unbroken(events[start..], Anchor(events).value)
  {
    hide Unbroken;
    var n := |events| - 1;
    var e := events[n];
    if e.Emit? && Anchor(events[..n]).None? {
      start := n;
      assert events[n..] == [e];
      UnbrokenStart(e);
    } else {
      start := AnchorChain(events[..n]);
      UnbrokenGrows(events[..n][start..], Anchor(events[..n]).value, e);
      assert events[start..] == events[..n][start..] + [e];
    }
  }

  /** No delta frame leaves the gate without its chain: the frames back to a keyframe, with no loss of sync between. */
  lemma DeltaHasChain(ops: seq<Op>, timeout: int, pool: set<Packet>, i: nat) returns (start: nat)
    requires PositiveTimes(ops) && Arrivals(ops, pool)
    requires var events := Run(START, ops, timeout).events; i < |events| && events[i].Emit?
    ensures var events := Run(START, ops, timeout).events;
      start <= i && Unbroken(events[start..i + 1], events[i].frame)
  {
    hide Run, Unbroken;
    var events := Run(START, ops, timeout).events;
    EveryRunDecodeSafe(ops, timeout, pool);
    SafePrefix(events, i + 1);
    start := AnchorChain(events[..i + 1]);
    assert events[..i + 1][start..] == events[start..i + 1];
  }

  lemma {:induction false} SafePrefix(events: seq<Event>, k: nat)
    requires DecodeSafe(events) && k <= |events|
    ensures DecodeSafe(events[..k])
  {
    if k == |events| {
      assert events[..k] == events;
    } else {
      SafePrefix(events[..|events| - 1], k);
      assert events[..|events| - 1][..k] == events[..k];
    }
  }
}

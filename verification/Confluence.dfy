/** Assembling frames: the order, repetition and batching of packets make no difference, frames starting in order. */
module Confluence {
  import opened Words
  import opened StampedPacket
  import opened FrameGate
  import opened GateInvariant
  import opened DecodeSafety
  import opened GateLimits

  /** The packets of one frame as the sender numbered them. */
  predicate FramePackets(f: Frame) {
    && 0 < |f.packets| < 0x1_0000
    && forall i | 0 <= i < |f.packets| ::
         f.packets[i].metadata == Some(Metadata(f.epoch, f.frameId, i, |f.packets|, f.keyframe))
  }

  /** Frames one after the other in one epoch. */
  predicate Succession(fs: seq<Frame>) {
    && fs != [] && fs[0].frameId + |fs| < 0x1_0000_0000
    && forall j | 0 <= j < |fs| ::
         FramePackets(fs[j]) && fs[j].epoch == fs[0].epoch && fs[j].frameId == fs[0].frameId + j
  }

  predicate Among(p: Packet, fs: seq<Frame>) {
    exists j | 0 <= j < |fs| :: p in fs[j].packets
  }

  /** Only packets of these frames, in any order and number, with drains and polls anywhere between, in time. */
  predicate Schedule(ops: seq<Op>, fs: seq<Frame>, start: int, timeout: int) {
    forall i | 0 <= i < |ops| ::
      && !ops[i].InvalidateSync? && start <= ops[i].at < start + timeout
      && (ops[i].Arrive? ==> Among(ops[i].packet, fs))
  }

  /** Which packets a schedule delivers. */
  function Delivered(ops: seq<Op>): set<Packet> {
    set i | 0 <= i < |ops| && ops[i].Arrive? :: ops[i].packet
  }

  predicate Touched(f: Frame, got: set<Packet>) {
    exists i | 0 <= i < |f.packets| :: f.packets[i] in got
  }

  predicate AllIn(f: Frame, got: set<Packet>) {
    forall i | 0 <= i < |f.packets| :: f.packets[i] in got
  }

  /** Every frame before the packet's own has been started. */
  predicate InTurn(p: Packet, fs: seq<Frame>, got: set<Packet>) {
    forall j, k | 0 <= j < k < |fs| && p in fs[k].packets :: Touched(fs[j], got)
  }

  /** The first packets of the frames arrive in frame order; after that packets may overtake each other freely. */
  predicate StartsInOrder(ops: seq<Op>, fs: seq<Frame>) {
    forall i | 0 <= i < |ops| && ops[i].Arrive? :: InTurn(ops[i].packet, fs, Delivered(ops[..i]))
  }

  function Span(fs: seq<Frame>): set<U32>
    requires fs != []
  {
    Ids(fs[0].frameId, fs[0].frameId + |fs|)
  }

  /** Synchronised, the first frame is next in line, none of them nor their successor is buffered, and there is room. */
  predicate Waiting(g: Gate, fs: seq<Frame>)
    requires fs != []
  {
    && g.synced && g.next == Some(fs[0].frameId) && g.epoch == Some(fs[0].epoch)
    && |g.frames| + |fs| <= MAX_FRAMES
    && forall id | id in g.frames :: !(fs[0].frameId <= id <= fs[0].frameId + |fs|)
  }

  /** An assembly of `f` that holds exactly the packets in `got`. */
  predicate Partial(a: Assembly, f: Frame, got: set<Packet>, start: int) {
    && a.epoch == f.epoch && a.frameId == f.frameId && a.keyframe == f.keyframe
    && a.count == |f.packets| == |a.packets| && a.firstSeen >= start
    && forall i | 0 <= i < |a.packets| :: a.packets[i] == if f.packets[i] in got then Some(f.packets[i]) else None
  }

  /** A frame still to be handed on: its assembly holds what has been delivered. */
  predicate Open(frames: map<U32, Assembly>, f: Frame, got: set<Packet>, start: int) {
    if Touched(f, got) then f.frameId in frames && Partial(frames[f.frameId], f, got, start) else f.frameId !in frames
  }

  /** A frame that is out; late copies of its packets may have opened a new assembly that nobody will ask for. */
  ghost predicate Gone(frames: map<U32, Assembly>, f: Frame, got: set<Packet>, start: int) {
    AllIn(f, got) && (f.frameId in frames ==> exists held :: Partial(frames[f.frameId], f, held, start))
  }

  /** The gate when the first `m` frames are out. */
  ghost predicate InPlace(g: Gate, fs: seq<Frame>, got: set<Packet>, start: int, m: nat)
    requires fs != [] && fs[0].frameId + |fs| < 0x1_0000_0000
  {
    && m <= |fs|
    && g.synced && g.epoch == Some(fs[0].epoch) && g.next.Some? && g.next.value == fs[0].frameId + m
    && fs[0].frameId + |fs| !in g.frames && |g.frames.Keys + Span(fs)| <= MAX_FRAMES
    && (forall j | m <= j < |fs| :: Open(g.frames, fs[j], got, start))
    && (forall j | 0 <= j < m :: Gone(g.frames, fs[j], got, start))
  }

  ghost predicate Phase(g: Gate, events: seq<Event>, fs: seq<Frame>, got: set<Packet>, start: int)
    requires fs != [] && fs[0].frameId + |fs| < 0x1_0000_0000
  {
    && Frames(events) <= fs && NothingLost(events)
    && InPlace(g, fs, got, start, |Frames(events)|)
  }

  lemma IndexOf(f: Frame, p: Packet)
    requires FramePackets(f) && p in f.packets
    ensures p.metadata.Some? && p.metadata.value.index < |f.packets| && f.packets[p.metadata.value.index] == p
    ensures p.metadata.value == Metadata(f.epoch, f.frameId, p.metadata.value.index, |f.packets|, f.keyframe)
  {
  }

  lemma PlacePartial(a: Assembly, f: Frame, got: set<Packet>, start: int, p: Packet)
    requires FramePackets(f) && p in f.packets && Partial(a, f, got, start)
    ensures Partial(Place(a, p, p.metadata.value.index), f, got + {p}, start)
  {
    IndexOf(f, p);
    var k := p.metadata.value.index;
    forall i | 0 <= i < |f.packets| && i != k ensures f.packets[i] != p {
      assert f.packets[i].metadata.value.index == i;
    }
  }

  lemma OpenedPartial(frames: map<U32, Assembly>, f: Frame, got: set<Packet>, start: int, p: Packet, now: int)
    requires FramePackets(f) && p in f.packets && f.frameId !in frames && !Touched(f, got) && start <= now
    ensures Partial(Opening(frames, p, p.metadata.value, now), f, got, start)
  {
    IndexOf(f, p);
  }

  lemma OpeningExisting(frames: map<U32, Assembly>, f: Frame, got: set<Packet>, start: int, p: Packet, now: int)
    requires FramePackets(f) && p in f.packets && f.frameId in frames && start > 0
    requires Partial(frames[f.frameId], f, got, start)
    ensures Opening(frames, p, p.metadata.value, now) == frames[f.frameId]
  {
    IndexOf(f, p);
  }

  /** A matching packet with no gap before its frame: no placeholder, no mismatch, no eviction. */
  lemma StoresCleanly(g: Gate, p: Packet, now: int)
    requires Usable(p) && g.epoch == Some(p.metadata.value.epoch) && g.next.Some?
    requires forall id: U32 | g.next.value <= id < p.metadata.value.frameId :: id in g.frames
    requires Matches(Opening(g.frames, p, p.metadata.value, now), p.metadata.value)
    requires |g.frames.Keys + {p.metadata.value.frameId}| <= MAX_FRAMES
    ensures var md := p.metadata.value;
      Process(g, p, now) == g.(frames := g.frames[md.frameId := Place(Opening(g.frames, p, md, now), p, md.index)])
  {
    hide Place, Opening, Matches, Announce, FillGap;
    var md := p.metadata.value;
    AnnounceShape(g, md, now);
    var filled := Announce(g, md, now);
    assert Bridged(g, md.frameId) == g.frames.Keys;
    assert filled.frames == g.frames;
    var frames := g.frames[md.frameId := Place(Opening(g.frames, p, md, now), p, md.index)];
    assert frames.Keys == g.frames.Keys + {md.frameId};
    assert |frames| == |frames.Keys|;
  }

  /** One more packet of `f` in its assembly; nothing else in the gate moves. */
  lemma ArrivePartial(g: Gate, f: Frame, p: Packet, now: int, start: int, got: set<Packet>)
    requires FramePackets(f) && p in f.packets && 0 < start <= now
    requires g.epoch == Some(f.epoch) && g.next.Some?
    requires forall id: U32 | g.next.value <= id < f.frameId :: id in g.frames
    requires if f.frameId in g.frames then Partial(g.frames[f.frameId], f, got, start) else !Touched(f, got)
    requires |g.frames.Keys + {f.frameId}| <= MAX_FRAMES
    ensures var r := Process(g, p, now);
      && f.frameId in r.frames && r == g.(frames := g.frames[f.frameId := r.frames[f.frameId]])
      && Partial(r.frames[f.frameId], f, got + {p}, start)
  {
    hide FramePackets, Process, Place, Opening, Partial, Touched;
    IndexOf(f, p);
    var a := Opening(g.frames, p, p.metadata.value, now);
    if f.frameId in g.frames {
      OpeningExisting(g.frames, f, got, start, p, now);
    } else {
      OpenedPartial(g.frames, f, got, start, p, now);
    }
    PartialMatches(a, f, got, start, p);
    StoresCleanly(g, p, now);
    PlacePartial(a, f, got, start, p);
  }

  lemma PartialMatches(a: Assembly, f: Frame, got: set<Packet>, start: int, p: Packet)
    requires FramePackets(f) && p in f.packets && Partial(a, f, got, start)
    ensures Usable(p) && Matches(a, p.metadata.value)
  {
    IndexOf(f, p);
  }

  lemma FramesAppend(events: seq<Event>, more: seq<Event>)
    ensures Frames(events + more) == Frames(events) + Frames(more)
    decreases more
  {
    if more == [] {
      assert events + [] == events;
    } else {
      var n := |more| - 1;
      FramesAppend(events, more[..n]);
      assert (events + more)[..|events| + n] == events + more[..n];
    }
  }

  lemma {:induction false} NoFrames(events: seq<Event>)
    requires forall i | 0 <= i < |events| :: !events[i].Emit?
    ensures Frames(events) == []
  {
    if events != [] {
      NoFrames(events[..|events| - 1]);
    }
  }

  lemma LostAppend(events: seq<Event>, more: seq<Event>)
    ensures NothingLost(events + more) <==> NothingLost(events) && NothingLost(more)
  {
    if NothingLost(events + more) {
      forall i | 0 <= i < |events| ensures !events[i].Lost? {
        assert (events + more)[i] == events[i];
      }
      forall i | 0 <= i < |more| ensures !more[i].Lost? {
        assert (events + more)[|events| + i] == more[i];
      }
    }
  }

  /** An arrival emits nothing and tells when it costs synchronisation. */
  lemma ArriveEvents(g: Gate, p: Packet, now: int)
    requires g.synced
    ensures var r := Receive(g, p, now); Frames(r.events) == [] && (NothingLost(r.events) <==> r.gate.synced)
  {
    hide Process, Opens;
    var r := Receive(g, p, now);
    NoFrames(r.events);
    if !r.gate.synced {
      assert r.events[|r.events| - 1] == Lost;
    }
  }

  /** A packet belongs to one of the frames only. */
  lemma OtherFrame(fs: seq<Frame>, j: nat, k: nat, p: Packet)
    requires Succession(fs) && j < |fs| && k < |fs| && j != k && p in fs[k].packets
    ensures p !in fs[j].packets
  {
  }

  /** What a packet of another frame leaves alone. */
  lemma OtherUnmoved(frames: map<U32, Assembly>, frames': map<U32, Assembly>, f: Frame, got: set<Packet>, p: Packet,
                     start: int)
    requires p !in f.packets
    requires f.frameId in frames <==> f.frameId in frames'
    requires f.frameId in frames ==> frames[f.frameId] == frames'[f.frameId]
    ensures Touched(f, got + {p}) <==> Touched(f, got)
    ensures Open(frames, f, got, start) ==> Open(frames', f, got + {p}, start)
    ensures Gone(frames, f, got, start) ==> Gone(frames', f, got + {p}, start)
  {
  }

  lemma NoGap(g: Gate, fs: seq<Frame>, got: set<Packet>, start: int, m: nat, k: nat, p: Packet)
    requires Succession(fs) && InPlace(g, fs, got, start, m) && k < |fs| && p in fs[k].packets && InTurn(p, fs, got)
    ensures forall id: U32 | g.next.value <= id < fs[k].frameId :: id in g.frames
    ensures |g.frames.Keys + {fs[k].frameId}| <= MAX_FRAMES
  {
    hide FramePackets, Partial, Touched;
    forall id: U32 | g.next.value <= id < fs[k].frameId ensures id in g.frames {
      var j := id - fs[0].frameId;
      assert Touched(fs[j], got);
      assert Open(g.frames, fs[j], got, start);
    }
    assert fs[k].frameId in Span(fs);
    SubsetSize(g.frames.Keys + {fs[k].frameId}, g.frames.Keys + Span(fs));
  }

  lemma UntouchedByNothing(f: Frame)
    ensures !Touched(f, {})
  {
  }

  lemma TouchedBy(f: Frame, got: set<Packet>, p: Packet)
    requires p in f.packets
    ensures Touched(f, got + {p})
    ensures AllIn(f, got) ==> AllIn(f, got + {p})
  {
    var i :| 0 <= i < |f.packets| && f.packets[i] == p;
    assert f.packets[i] in got + {p};
  }

  /** What the assembly of one of the frames holds: what has been delivered, while the frame is still to come. */
  lemma HeldBy(g: Gate, fs: seq<Frame>, got: set<Packet>, start: int, m: nat, k: nat) returns (held: set<Packet>)
    requires Succession(fs) && InPlace(g, fs, got, start, m) && k < |fs|
    ensures if k >= m then held == got else AllIn(fs[k], got)
    ensures if fs[k].frameId in g.frames then Partial(g.frames[fs[k].frameId], fs[k], held, start)
            else !Touched(fs[k], held)
  {
    hide FramePackets, Partial, Touched, AllIn, Ids;
    held := got;
    if k >= m {
      assert Open(g.frames, fs[k], got, start);
    } else {
      assert Gone(g.frames, fs[k], got, start);
      if fs[k].frameId in g.frames {
        held :| Partial(g.frames[fs[k].frameId], fs[k], held, start);
      } else {
        held := {};
        UntouchedByNothing(fs[k]);
      }
    }
  }

  lemma OwnFrame(frames: map<U32, Assembly>, f: Frame, got: set<Packet>, held: set<Packet>, p: Packet, start: int)
    requires p in f.packets && f.frameId in frames && Partial(frames[f.frameId], f, held + {p}, start)
    ensures held == got ==> Open(frames, f, got + {p}, start)
    ensures AllIn(f, got) ==> Gone(frames, f, got + {p}, start)
  {
    hide Partial, Touched, AllIn;
    TouchedBy(f, got, p);
  }

  lemma ArriveInTurn(g: Gate, fs: seq<Frame>, got: set<Packet>, start: int, m: nat, k: nat, p: Packet, now: int)
    requires Succession(fs) && InPlace(g, fs, got, start, m) && 0 < start <= now
    requires k < |fs| && p in fs[k].packets && InTurn(p, fs, got)
    ensures InPlace(Process(g, p, now), fs, got + {p}, start, m)
  {
    hide FramePackets, Partial, Process, Touched, AllIn, Open, Gone, Span, InTurn;
    var f := fs[k];
    var r := Process(g, p, now);
    NoGap(g, fs, got, start, m, k, p);
    var held := HeldBy(g, fs, got, start, m, k);
    ArrivePartial(g, f, p, now, start, held);
    OwnFrame(r.frames, f, got, held, p, start);
    InSpan(fs, k);
    assert r.frames.Keys == g.frames.Keys + {f.frameId};
    assert r.frames.Keys + Span(fs) == g.frames.Keys + Span(fs);
    forall j | 0 <= j < |fs| && j != k
      ensures Open(g.frames, fs[j], got, start) ==> Open(r.frames, fs[j], got + {p}, start)
      ensures Gone(g.frames, fs[j], got, start) ==> Gone(r.frames, fs[j], got + {p}, start)
    {
      OtherFrame(fs, j, k, p);
      OtherUnmoved(g.frames, r.frames, fs[j], got, p, start);
    }
  }

  lemma InSpan(fs: seq<Frame>, j: nat)
    requires Succession(fs) && j < |fs|
    ensures fs[j].frameId in Span(fs)
  {
    hide FramePackets;
  }

  lemma CompleteWhenAllIn(a: Assembly, f: Frame, got: set<Packet>, start: int)
    requires FramePackets(f) && Partial(a, f, got, start)
    ensures Complete(a) <==> AllIn(f, got)
    ensures AllIn(f, got) ==> FrameOf(a) == f
  {
    if Complete(a) {
      forall i | 0 <= i < |f.packets| ensures f.packets[i] in got {
        assert a.packets[i].Some?;
      }
    }
    if AllIn(f, got) {
      assert FrameOf(a).packets == f.packets;
    }
  }

  lemma PartialStart(a: Assembly, f: Frame, got: set<Packet>, start: int)
    requires Partial(a, f, got, start)
    ensures a.firstSeen >= start
  {
  }

  lemma FramesOfShort(e: Event)
    ensures Frames([]) == []
    ensures e.Emit? ==> Frames([e]) == [e.frame]
    ensures e.Emit? ==> Frames([e] + []) == [e.frame]
  {
    assert [e][..0] == [];
    assert [e] + [] == [e];
  }

  lemma {:induction false} NacksNoFrames(frames: map<U32, Assembly>, order: seq<U32>, at: int, timeout: int)
    requires forall id | id in order :: id in frames
    ensures Frames(Nacks(frames, order, at, timeout)) == []
  {
    hide Due, NackGroups;
    if order != [] {
      var n := |order| - 1;
      NacksNoFrames(frames, order[..n], at, timeout);
      var f := frames[order[n]];
      FramesAppend(Nacks(frames, order[..n], at, timeout),
                   if Due(f, at, timeout) then [NackSent(order[n], at, NackGroups(f))] else []);
    }
  }

  /** A poll only touches timers. */
  lemma PollMarks(g: Gate, at: int, timeout: int, id: U32)
    ensures var r := Poll(g, at, timeout);
      && r.gate.frames.Keys == g.frames.Keys && |r.gate.frames| == |g.frames|
      && r.gate.synced == g.synced && r.gate.next == g.next && r.gate.epoch == g.epoch
      && (id in g.frames ==>
            r.gate.frames[id] == g.frames[id] || r.gate.frames[id] == g.frames[id].(lastNack := at))
      && Frames(r.events) == [] && NothingLost(r.events)
  {
    hide Due, Nacks, Frames;
    var r := Poll(g, at, timeout);
    NacksOnly(g.frames, InOrder(g.frames.Keys), at, timeout);
    NacksNoFrames(g.frames, InOrder(g.frames.Keys), at, timeout);
    assert r.gate.frames.Keys == g.frames.Keys;
    assert |r.gate.frames| == |r.gate.frames.Keys| && |g.frames| == |g.frames.Keys|;
  }

  lemma MarkedPartial(a: Assembly, f: Frame, got: set<Packet>, start: int, at: int)
    requires Partial(a, f, got, start)
    ensures Partial(a.(lastNack := at), f, got, start)
  {
  }

  lemma DeliveredLast(ops: seq<Op>)
    requires ops != []
    ensures var n := |ops| - 1;
      Delivered(ops) == Delivered(ops[..n]) + if ops[n].Arrive? then {ops[n].packet} else {}
  {
    var n := |ops| - 1;
    forall p | p in Delivered(ops)
      ensures p in Delivered(ops[..n]) || (ops[n].Arrive? && p == ops[n].packet)
    {
      var i :| 0 <= i < |ops| && ops[i].Arrive? && ops[i].packet == p;
      if i < n {
        assert ops[..n][i] == ops[i];
      }
    }
    forall p | p in Delivered(ops[..n]) ensures p in Delivered(ops) {
      var i :| 0 <= i < n && ops[..n][i].Arrive? && ops[..n][i].packet == p;
      assert ops[i] == ops[..n][i];
    }
  }

  lemma UntouchedIncomplete(f: Frame, got: set<Packet>)
    requires FramePackets(f) && !Touched(f, got)
    ensures !AllIn(f, got)
  {
    assert f.packets[0] !in got;
  }

  lemma WithoutFields(g: Gate, id: U32)
    requires id + 1 < 0x1_0000_0000
    ensures var r := Without(g, id);
      && r.synced == g.synced && r.epoch == g.epoch && r.next == Some(id + 1) && r.frames == g.frames - {id}
  {
  }

  /** The due frame leaves and the next one is due. */
  lemma EmitInPlace(g: Gate, g': Gate, fs: seq<Frame>, got: set<Packet>, start: int, m: nat)
    requires Succession(fs) && InPlace(g, fs, got, start, m) && m < |fs| && AllIn(fs[m], got)
    requires g'.synced && g'.epoch == g.epoch && g'.next == Some(fs[m].frameId + 1)
    requires g'.frames == g.frames - {fs[m].frameId}
    ensures InPlace(g', fs, got, start, m + 1)
  {
    hide FramePackets, Open, Gone, Span;
    InSpan(fs, m);
    SameUnion(g.frames, Span(fs), fs[m].frameId);
    forall j | 0 <= j < |fs| && j != m
      ensures Open(g.frames, fs[j], got, start) ==> Open(g'.frames, fs[j], got, start)
      ensures Gone(g.frames, fs[j], got, start) ==> Gone(g'.frames, fs[j], got, start)
    {
      OtherErased(g.frames, fs[m].frameId, fs[j], got, start);
    }
    GoneWithout(g'.frames, fs[m], got, start);
  }

  lemma NoWrap(id: U32)
    requires id + 1 < 0x1_0000_0000
    ensures Wrap32(id + 1) == id + 1
  {
  }

  lemma SameUnion(frames: map<U32, Assembly>, span: set<U32>, id: U32)
    requires id in span
    ensures (frames - {id}).Keys + span == frames.Keys + span
  {
  }

  lemma OtherErased(frames: map<U32, Assembly>, id: U32, f: Frame, got: set<Packet>, start: int)
    requires f.frameId != id
    ensures Open(frames, f, got, start) ==> Open(frames - {id}, f, got, start)
    ensures Gone(frames, f, got, start) ==> Gone(frames - {id}, f, got, start)
  {
    hide Partial, Touched, AllIn;
    assert f.frameId in frames ==> (frames - {id})[f.frameId] == frames[f.frameId];
  }

  lemma GoneWithout(frames: map<U32, Assembly>, f: Frame, got: set<Packet>, start: int)
    requires AllIn(f, got) && f.frameId !in frames
    ensures Gone(frames, f, got, start)
  {
  }

  /** The frame that is due leaves if all of it is there; it is never overdue. */
  lemma DueFrame(g: Gate, fs: seq<Frame>, got: set<Packet>, start: int, m: nat, at: int, timeout: int)
    requires Succession(fs) && InPlace(g, fs, got, start, m) && m < |fs| && at < start + timeout
    ensures g.next == Some(fs[m].frameId)
    ensures if AllIn(fs[m], got)
            then && fs[m].frameId in g.frames && Complete(g.frames[fs[m].frameId])
                 && FrameOf(g.frames[fs[m].frameId]) == fs[m]
            else Advance(g, at, timeout) == Outcome(g, [])
  {
    hide FramePackets, Partial, Complete, Touched, AllIn, FrameOf, Span, Gone;
    var f := fs[m];
    assert Open(g.frames, f, got, start);
    if !Touched(f, got) {
      UntouchedIncomplete(f, got);
    } else {
      CompleteWhenAllIn(g.frames[f.frameId], f, got, start);
      PartialStart(g.frames[f.frameId], f, got, start);
    }
  }

  lemma EmitDue(g: Gate, fs: seq<Frame>, got: set<Packet>, start: int, m: nat)
    requires Succession(fs) && InPlace(g, fs, got, start, m) && m < |fs| && AllIn(fs[m], got)
    ensures InPlace(Without(g, fs[m].frameId).(completeFrames := g.completeFrames + 1), fs, got, start, m + 1)
  {
    hide FramePackets, Open, Gone, Span, Without;
    WithoutFields(g, fs[m].frameId);
    EmitInPlace(g, Without(g, fs[m].frameId).(completeFrames := g.completeFrames + 1), fs, got, start, m);
  }

  lemma NothingDue(g: Gate, fs: seq<Frame>, got: set<Packet>, start: int, at: int, timeout: int)
    requires Succession(fs) && InPlace(g, fs, got, start, |fs|)
    ensures Advance(g, at, timeout) == Outcome(g, [])
  {
    hide FramePackets, Open, Gone, Span;
  }

  /** The first frame that is not out yet is not all there. */
  predicate StopsAt(fs: seq<Frame>, got: set<Packet>, m: nat) {
    m < |fs| ==> !AllIn(fs[m], got)
  }

  /** A drain hands on whole frames as far as they go. */
  lemma {:induction false} AdvancePhase(g: Gate, events: seq<Event>, fs: seq<Frame>, got: set<Packet>, start: int,
                                        at: int, timeout: int)
    requires Succession(fs) && Phase(g, events, fs, got, start) && at < start + timeout
    ensures var r := Advance(g, at, timeout);
      && Phase(r.gate, events + r.events, fs, got, start)
      && StopsAt(fs, got, |Frames(events + r.events)|)
    decreases |fs| - |Frames(events)|
  {
    hide FramePackets, Complete, AllIn, Frames, FrameOf, NothingLost, InPlace, Succession, Without;
    var m := |Frames(events)|;
    assert events + [] == events;
    if m == |fs| {
      NothingDue(g, fs, got, start, at, timeout);
    } else {
      var f := fs[m];
      DueFrame(g, fs, got, start, m, at, timeout);
      if AllIn(f, got) {
        var g' := Without(g, f.frameId).(completeFrames := g.completeFrames + 1);
        var rest := Advance(g', at, timeout).events;
        EmitDue(g, fs, got, start, m);
        EmitEvent(events, f);
        AdvancePhase(g', events + [Emit(f)], fs, got, start, at, timeout);
        assert events + ([Emit(f)] + rest) == events + [Emit(f)] + rest;
      }
    }
  }

  lemma EmitEvent(events: seq<Event>, f: Frame)
    ensures Frames(events + [Emit(f)]) == Frames(events) + [f]
    ensures NothingLost(events + [Emit(f)]) <==> NothingLost(events)
  {
    assert (events + [Emit(f)])[..|events|] == events;
    LostAppend(events, [Emit(f)]);
  }

  lemma PollPhase(g: Gate, events: seq<Event>, fs: seq<Frame>, got: set<Packet>, start: int, at: int, timeout: int)
    requires Succession(fs) && Phase(g, events, fs, got, start)
    ensures var r := Poll(g, at, timeout); Phase(r.gate, events + r.events, fs, got, start)
  {
    hide FramePackets, Poll, Frames, NothingLost, Open, Gone, Ids;
    var r := Poll(g, at, timeout);
    assert Frames(events) + [] == Frames(events);
    PollMarks(g, at, timeout, fs[0].frameId);
    FramesAppend(events, r.events);
    LostAppend(events, r.events);
    forall j | 0 <= j < |fs|
      ensures Open(g.frames, fs[j], got, start) ==> Open(r.gate.frames, fs[j], got, start)
      ensures Gone(g.frames, fs[j], got, start) ==> Gone(r.gate.frames, fs[j], got, start)
    {
      PollMarks(g, at, timeout, fs[j].frameId);
      MarkedFrame(g.frames, r.gate.frames, fs[j], got, start, at);
    }
  }

  lemma MarkedFrame(frames: map<U32, Assembly>, frames': map<U32, Assembly>, f: Frame, got: set<Packet>, start: int,
                    at: int)
    requires f.frameId in frames <==> f.frameId in frames'
    requires f.frameId in frames ==>
      frames'[f.frameId] == frames[f.frameId] || frames'[f.frameId] == frames[f.frameId].(lastNack := at)
    ensures Open(frames, f, got, start) ==> Open(frames', f, got, start)
    ensures Gone(frames, f, got, start) ==> Gone(frames', f, got, start)
  {
    hide Partial, Touched, AllIn;
    if f.frameId in frames {
      forall held | Partial(frames[f.frameId], f, held, start) ensures Partial(frames'[f.frameId], f, held, start) {
        MarkedPartial(frames[f.frameId], f, held, start, at);
      }
    }
  }

  // ---------------------------------------------------------------- frames that start out of order

  /** The frame was announced before its first packet came; that packet will end synchronisation. */
  predicate Doomed(g: Gate, f: Frame) {
    && g.synced && g.epoch == Some(f.epoch) && g.next.Some? && g.next.value <= f.frameId && f.frameId in g.frames
    && g.frames[f.frameId].count == 0 && g.frames[f.frameId].firstSeen > 0
  }

  /** Synchronisation is lost, or will be with the first packet of some frame that has not started. */
  ghost predicate Spoiled(g: Gate, events: seq<Event>, fs: seq<Frame>, got: set<Packet>) {
    || !NothingLost(events)
    || exists j :: 0 <= j < |fs| && !Touched(fs[j], got) && Doomed(g, fs[j])
  }

  lemma DoomedArrive(g: Gate, f: Frame, p: Packet, now: int)
    requires Doomed(g, f) && Usable(p) && p.metadata.value.epoch == f.epoch && Process(g, p, now).synced
    ensures Doomed(Process(g, p, now), f) && p.metadata.value.frameId != f.frameId
  {
    hide Announce;
    var md := p.metadata.value;
    AnnounceShape(g, md, now);
    TakenIn(g, p, now);
    if md.frameId == f.frameId {
      PlaceholderRefuses(g, p, now);
    }
  }

  lemma {:induction false} DoomedAdvance(g: Gate, f: Frame, at: int, timeout: int)
    requires Doomed(g, f)
    ensures var r := Advance(g, at, timeout); NothingLost(r.events) ==> Doomed(r.gate, f)
    decreases |g.frames|
  {
    hide FrameOf, Expired;
    if g.next.value in g.frames && Complete(g.frames[g.next.value]) {
      var id := g.next.value;
      var g' := Without(g, id).(completeFrames := g.completeFrames + 1);
      DoomedAdvance(g', f, at, timeout);
      LostAppend([Emit(FrameOf(g.frames[id]))], Advance(g', at, timeout).events);
    } else if g.next.value in g.frames && Expired(g.frames[g.next.value], at, timeout) {
      assert Advance(g, at, timeout).events[0] == Lost;
    }
  }

  lemma DoomedPoll(g: Gate, f: Frame, at: int, timeout: int)
    requires Doomed(g, f)
    ensures Doomed(Poll(g, at, timeout).gate, f)
  {
    hide Poll;
    PollMarks(g, at, timeout, f.frameId);
  }

  /** A packet of a frame whose predecessor has not started dooms that predecessor. */
  lemma OutOfTurn(g: Gate, fs: seq<Frame>, got: set<Packet>, start: int, m: nat, j: nat, k: nat, p: Packet, now: int)
    requires Succession(fs) && InPlace(g, fs, got, start, m) && 0 < now
    requires j < k < |fs| && p in fs[k].packets && !Touched(fs[j], got)
    requires Process(g, p, now).synced
    ensures Doomed(Process(g, p, now), fs[j])
  {
    hide FramePackets, Partial, Touched, AllIn, Announce, Process, Ids, Room, Bridged, Accepts;
    IndexOf(fs[k], p);
    var md := p.metadata.value;
    if j < m {
      assert Gone(g.frames, fs[j], got, start);
      AllTouched(fs[j], got);
    }
    assert Open(g.frames, fs[j], got, start);
    AnnounceShape(g, md, now);
    TakenIn(g, p, now);
    SpanRoom(g, fs, k);
    RoomBridges(g, md, now);
    BridgedAll(g, md.frameId, fs[j].frameId);
  }

  lemma AllTouched(f: Frame, got: set<Packet>)
    requires FramePackets(f) && AllIn(f, got)
    ensures Touched(f, got)
  {
    assert f.packets[0] in got;
  }

  lemma SpanRoom(g: Gate, fs: seq<Frame>, k: nat)
    requires Succession(fs) && k < |fs| && |g.frames.Keys + Span(fs)| <= MAX_FRAMES
    requires g.next.Some? && fs[0].frameId <= g.next.value
    ensures Room(g, fs[k].frameId)
  {
    hide FramePackets;
    var ids := Ids(GapStart(g, fs[k].frameId), fs[k].frameId + 1);
    assert forall id | id in ids :: id in Span(fs);
    SubsetSize(g.frames.Keys + ids, g.frames.Keys + Span(fs));
  }

  // ---------------------------------------------------------------- whole schedules

  predicate InWindow(op: Op, fs: seq<Frame>, start: int, timeout: int) {
    !op.InvalidateSync? && start <= op.at < start + timeout && (op.Arrive? ==> Among(op.packet, fs))
  }

  function WithOp(got: set<Packet>, op: Op): set<Packet> {
    got + if op.Arrive? then {op.packet} else {}
  }

  lemma PhaseStep(g: Gate, events: seq<Event>, fs: seq<Frame>, got: set<Packet>, op: Op, start: int, timeout: int)
    requires Succession(fs) && Phase(g, events, fs, got, start) && start > 0 && InWindow(op, fs, start, timeout)
    requires op.Arrive? ==> InTurn(op.packet, fs, got)
    ensures var r := Step(g, op, timeout); Phase(r.gate, events + r.events, fs, WithOp(got, op), start)
  {
    hide FramePackets, Process, Advance, Poll, InPlace, Frames, NothingLost, InTurn, Succession, Births;
    Stands(g, fs, got, start, |Frames(events)|);
    match op
    case Arrive(p, at) =>
      var k :| 0 <= k < |fs| && p in fs[k].packets;
      ArriveInTurn(g, fs, got, start, |Frames(events)|, k, p, at);
      Stands(Process(g, p, at), fs, got + {p}, start, |Frames(events)|);
      ArriveEvents(g, p, at);
      FramesAppend(events, Receive(g, p, at).events);
      LostAppend(events, Receive(g, p, at).events);
      assert Frames(events) + [] == Frames(events);
    case DrainAt(at) =>
      AdvancePhase(g, events, fs, got, start, at, timeout);
      assert got + {} == got;
    case PollAt(at) =>
      PollPhase(g, events, fs, got, start, at, timeout);
      assert got + {} == got;
  }

  lemma Stands(g: Gate, fs: seq<Frame>, got: set<Packet>, start: int, m: nat)
    requires Succession(fs) && InPlace(g, fs, got, start, m)
    ensures g.synced && g.epoch == Some(fs[0].epoch) && g.next == Some(fs[0].frameId + m)
  {
    hide FramePackets, Span, Open, Gone;
  }

  lemma PhaseBreaks(g: Gate, events: seq<Event>, fs: seq<Frame>, got: set<Packet>, p: Packet, now: int, start: int)
    requires Succession(fs) && Phase(g, events, fs, got, start) && 0 < now && !InTurn(p, fs, got)
    ensures var r := Receive(g, p, now); Spoiled(r.gate, events + r.events, fs, got + {p})
  {
    hide FramePackets, Process, InPlace, Frames, NothingLost, Succession, Doomed, Touched, Births;
    var j, k :| 0 <= j < k < |fs| && p in fs[k].packets && !Touched(fs[j], got);
    Stands(g, fs, got, start, |Frames(events)|);
    ArriveEvents(g, p, now);
    LostAppend(events, Receive(g, p, now).events);
    if Process(g, p, now).synced {
      OutOfTurn(g, fs, got, start, |Frames(events)|, j, k, p, now);
      OtherFrame(fs, j, k, p);
      StillUntouched(fs[j], got, p);
    }
  }

  lemma StillUntouched(f: Frame, got: set<Packet>, p: Packet)
    requires !Touched(f, got) && p !in f.packets
    ensures !Touched(f, got + {p})
  {
  }

  lemma SpoiledStep(g: Gate, events: seq<Event>, fs: seq<Frame>, got: set<Packet>, op: Op, start: int, timeout: int)
    requires Succession(fs) && Spoiled(g, events, fs, got) && InWindow(op, fs, start, timeout)
    ensures var r := Step(g, op, timeout); Spoiled(r.gate, events + r.events, fs, WithOp(got, op))
  {
    hide FramePackets, Process, Advance, Poll, NothingLost, Succession, Doomed, Touched, Births, Frames;
    var r := Step(g, op, timeout);
    LostAppend(events, r.events);
    if NothingLost(events) && NothingLost(r.events) {
      var j :| 0 <= j < |fs| && !Touched(fs[j], got) && Doomed(g, fs[j]);
      DoomedSynced(g, fs[j]);
      match op
      case Arrive(p, at) =>
        ArriveEvents(g, p, at);
        var k :| 0 <= k < |fs| && p in fs[k].packets;
        PacketOf(fs, j, k, p);
        DoomedArrive(g, fs[j], p, at);
        if k != j {
          OtherFrame(fs, j, k, p);
          StillUntouched(fs[j], got, p);
        }
      case DrainAt(at) =>
        DoomedAdvance(g, fs[j], at, timeout);
        assert got + {} == got;
      case PollAt(at) =>
        DoomedPoll(g, fs[j], at, timeout);
        assert got + {} == got;
    }
  }

  lemma DoomedSynced(g: Gate, f: Frame)
    requires Doomed(g, f)
    ensures g.synced
  {
  }

  lemma PacketOf(fs: seq<Frame>, j: nat, k: nat, p: Packet)
    requires Succession(fs) && j < |fs| && k < |fs| && p in fs[k].packets
    ensures Usable(p) && p.metadata.value.epoch == fs[j].epoch
    ensures k == j ==> p.metadata.value.frameId == fs[j].frameId
  {
  }

  lemma InOrderNext(ops: seq<Op>, fs: seq<Frame>)
    requires ops != []
    ensures var n := |ops| - 1;
      StartsInOrder(ops, fs) <==>
        StartsInOrder(ops[..n], fs) && (ops[n].Arrive? ==> InTurn(ops[n].packet, fs, Delivered(ops[..n])))
  {
    hide InTurn, Delivered;
    var n := |ops| - 1;
    forall i | 0 <= i < n ensures ops[..n][..i] == ops[..i] && ops[..n][i] == ops[i] {
    }
    if StartsInOrder(ops, fs) {
      forall i | 0 <= i < n && ops[..n][i].Arrive? ensures InTurn(ops[..n][i].packet, fs, Delivered(ops[..n][..i])) {
        assert InTurn(ops[i].packet, fs, Delivered(ops[..i]));
      }
    }
  }

  /** Either the frames have started in order and everything is in place, or synchronisation is lost or bound to be. */
  lemma {:induction false} ScheduleSplits(g: Gate, ops: seq<Op>, fs: seq<Frame>, start: int, timeout: int)
    requires Succession(fs) && Waiting(g, fs) && start > 0 && Schedule(ops, fs, start, timeout)
    ensures var r := Run(g, ops, timeout);
      if StartsInOrder(ops, fs) then Phase(r.gate, r.events, fs, Delivered(ops), start)
      else Spoiled(r.gate, r.events, fs, Delivered(ops))
  {
    hide FramePackets, Phase, Spoiled, Step, Succession, Waiting, InTurn, StartsInOrder, Delivered;
    if ops == [] {
      StartPhase(g, fs, start);
      NothingYet(fs);
    } else {
      var n := |ops| - 1;
      ScheduleSplits(g, ops[..n], fs, start, timeout);
      InOrderNext(ops, fs);
      DeliveredLast(ops);
      var before, got := Run(g, ops[..n], timeout), Delivered(ops[..n]);
      assert InWindow(ops[n], fs, start, timeout);
      if StartsInOrder(ops, fs) {
        PhaseStep(before.gate, before.events, fs, got, ops[n], start, timeout);
      } else if StartsInOrder(ops[..n], fs) {
        StepReceives(before.gate, ops[n], timeout);
        PhaseBreaks(before.gate, before.events, fs, got, ops[n].packet, ops[n].at, start);
      } else {
        SpoiledStep(before.gate, before.events, fs, got, ops[n], start, timeout);
      }
    }
  }

  lemma StepReceives(g: Gate, op: Op, timeout: int)
    requires op.Arrive?
    ensures Step(g, op, timeout) == Receive(g, op.packet, op.at)
  {
    hide Receive;
  }

  lemma NothingYet(fs: seq<Frame>)
    ensures StartsInOrder([], fs) && Delivered([]) == {}
  {
  }

  lemma StartPhase(g: Gate, fs: seq<Frame>, start: int)
    requires Succession(fs) && Waiting(g, fs)
    ensures Phase(g, [], fs, {}, start)
  {
    hide FramePackets, Partial, Span, Touched;
    SpanFits(g, fs);
    assert Frames([]) == [];
    forall j | 0 <= j < |fs| ensures Open(g.frames, fs[j], {}, start) {
      UntouchedByNothing(fs[j]);
    }
  }

  lemma SpanFits(g: Gate, fs: seq<Frame>)
    requires fs != [] && fs[0].frameId + |fs| <= 0x1_0000_0000 && |g.frames| + |fs| <= MAX_FRAMES
    ensures |g.frames.Keys + Span(fs)| <= MAX_FRAMES
  {
    hide Ids;
    IdsSize(fs[0].frameId, fs[0].frameId + |fs|);
    UnionSize(g.frames.Keys, Span(fs));
    assert |g.frames.Keys| == |g.frames|;
  }

  lemma UnionSize<T>(a: set<T>, b: set<T>)
    ensures |a + b| <= |a| + |b|
  {
    assert |a + b| == |a| + |b| - |a * b|;
  }

  /** Started in order, the frames all leave with the last drain. */
  lemma AllLeave(g: Gate, ops: seq<Op>, fs: seq<Frame>, start: int, timeout: int)
    requires Succession(fs) && Waiting(g, fs) && start > 0
    requires Schedule(ops, fs, start, timeout) && ops != [] && ops[|ops| - 1].DrainAt?
    requires StartsInOrder(ops, fs) && forall j | 0 <= j < |fs| :: AllIn(fs[j], Delivered(ops))
    ensures var r := Run(g, ops, timeout);
      && Frames(r.events) == fs && NothingLost(r.events)
      && InPlace(r.gate, fs, Delivered(ops), start, |fs|)
  {
    hide FramePackets, Succession, Waiting, InTurn, StartsInOrder, Delivered, AllIn, Run, Advance, Frames, NothingLost;
    hide InPlace;
    var n := |ops| - 1;
    var got := Delivered(ops[..n]);
    var before := Run(g, ops[..n], timeout);
    ScheduleSplits(g, ops[..n], fs, start, timeout);
    InOrderNext(ops, fs);
    DeliveredLast(ops);
    assert Delivered(ops) == got;
    RunStep(g, ops[..n], ops[n], timeout);
    assert ops[..n] + [ops[n]] == ops;
    Stands(before.gate, fs, got, start, |Frames(before.events)|);
    AdvancePhase(before.gate, before.events, fs, got, start, ops[n].at, timeout);
    var frames := Frames(Run(g, ops, timeout).events);
    assert |frames| == |fs|;
    assert frames == fs;
  }

  /** Started out of order, all frames having started, synchronisation has been lost. */
  lemma SyncLost(g: Gate, ops: seq<Op>, fs: seq<Frame>, start: int, timeout: int)
    requires Succession(fs) && Waiting(g, fs) && start > 0 && Schedule(ops, fs, start, timeout)
    requires !StartsInOrder(ops, fs) && forall j | 0 <= j < |fs| :: AllIn(fs[j], Delivered(ops))
    ensures !NothingLost(Run(g, ops, timeout).events)
  {
    hide FramePackets, Succession, Waiting, StartsInOrder, Delivered, AllIn, Run, NothingLost, Touched;
    ScheduleSplits(g, ops, fs, start, timeout);
    forall j | 0 <= j < |fs| ensures Touched(fs[j], Delivered(ops)) {
      FrameOfSuccession(fs, j);
      AllTouched(fs[j], Delivered(ops));
    }
  }

  /**
   * Packets of a succession of frames, in any order, repeated and batched at will, all of them in time: nothing is lost
   * exactly when the first packets of the frames arrive in frame order, and then exactly these frames leave, whole and
   * in order, and the gate waits for their successor.
   */
  lemma InterleavingConfluent(g: Gate, ops: seq<Op>, fs: seq<Frame>, start: int, timeout: int)
    requires Succession(fs) && Waiting(g, fs) && start > 0
    requires Schedule(ops, fs, start, timeout) && ops != [] && ops[|ops| - 1].DrainAt?
    requires forall j | 0 <= j < |fs| :: AllIn(fs[j], Delivered(ops))
    ensures var r := Run(g, ops, timeout);
      && (NothingLost(r.events) <==> StartsInOrder(ops, fs))
      && (StartsInOrder(ops, fs) ==>
            Frames(r.events) == fs && r.gate.synced && r.gate.next == Some(fs[0].frameId + |fs|))
  {
    hide FramePackets, Succession, Waiting, StartsInOrder, Schedule, Delivered, AllIn, Run, Frames, NothingLost;
    hide InPlace;
    if StartsInOrder(ops, fs) {
      AllLeave(g, ops, fs, start, timeout);
      Stands(Run(g, ops, timeout).gate, fs, Delivered(ops), start, |fs|);
    } else {
      SyncLost(g, ops, fs, start, timeout);
    }
  }

  lemma FrameOfSuccession(fs: seq<Frame>, j: nat)
    requires Succession(fs) && j < |fs|
    ensures FramePackets(fs[j])
  {
  }

  /**
   * One frame, whatever the order, repetition and batching: once every packet has arrived in time and the gate has been
   * drained, exactly this frame has left, whole and in order, and the gate waits for its successor.
   */
  lemma AssemblyConfluent(g: Gate, ops: seq<Op>, f: Frame, start: int, timeout: int)
    requires FramePackets(f) && f.frameId + 1 < 0x1_0000_0000 && Waiting(g, [f]) && start > 0
    requires Schedule(ops, [f], start, timeout) && ops != [] && ops[|ops| - 1].DrainAt?
    requires AllIn(f, Delivered(ops))
    ensures var r := Run(g, ops, timeout);
      && Frames(r.events) == [f] && NothingLost(r.events) && r.gate.synced && r.gate.next == Some(f.frameId + 1)
  {
    hide FramePackets, Run, Frames, NothingLost, Delivered, AllIn;
    InterleavingConfluent(g, ops, [f], start, timeout);
  }
}

/** What every step of the frame gate keeps, whatever arrives and whenever: the buffer is bounded and well formed. */
module GateInvariant {
  import opened Words
  import opened StampedPacket
  import opened FrameGate
  import Nack

  predicate Fitting(p: Packet, f: Assembly, i: nat)
    requires i < 0x1_0000
  {
    p.metadata == Some(Metadata(f.epoch, f.frameId, i, f.count, f.keyframe))
  }

  /** A slot holds the packet with that index, and the numbering was fixed by a packet that is there. */
  predicate SlotsOk(f: Assembly, pool: set<Packet>) {
    && |f.packets| == f.count
    && (forall i | 0 <= i < |f.packets| && f.packets[i].Some? ::
          f.packets[i].value in pool && Fitting(f.packets[i].value, f, i))
    && (f.count != 0 ==> exists i | 0 <= i < |f.packets| ::
          f.packets[i].Some? && f.firstSequence == Wrap16(f.packets[i].value.sequence - i))
  }

  predicate FramesOk(frames: map<U32, Assembly>, epoch: Option<U16>, pool: set<Packet>) {
    forall id | id in frames ::
      && frames[id].frameId == id && epoch == Some(frames[id].epoch)
      && frames[id].firstSeen > 0 && SlotsOk(frames[id], pool)
  }

  predicate Sound(g: Gate, pool: set<Packet>) {
    && |g.frames| <= MAX_FRAMES
    && (g.synced ==> g.next.Some? && g.epoch.Some?)
    && FramesOk(g.frames, g.epoch, pool)
  }

  /** A whole frame: all packets of one frame, in order. */
  predicate Whole(f: Frame, pool: set<Packet>) {
    && 0 < |f.packets| < 0x1_0000
    && forall i | 0 <= i < |f.packets| ::
         f.packets[i] in pool
         && f.packets[i].metadata == Some(Metadata(f.epoch, f.frameId, i, |f.packets|, f.keyframe))
  }

  predicate AllWhole(events: seq<Event>, pool: set<Packet>) {
    forall i | 0 <= i < |events| && events[i].Emit? :: Whole(events[i].frame, pool)
  }

  lemma {:induction false} FillGapOk(frames: map<U32, Assembly>, from: int, to: U32, epoch: U16, now: int,
                                     pool: set<Packet>)
    requires 0 <= from && now > 0
    requires FramesOk(frames, Some(epoch), pool) && |frames| <= MAX_FRAMES
    ensures FramesOk(FillGap(frames, from, to, epoch, now), Some(epoch), pool)
    ensures |FillGap(frames, from, to, epoch, now)| <= MAX_FRAMES
    decreases (to as int) - from
  {
    if from < to && |frames| < MAX_FRAMES {
      var grown := if from in frames then frames else frames[from := Placeholder(epoch, from, now)];
      FillGapOk(grown, from + 1, to, epoch, now, pool);
    }
  }

  /** What the gap loop adds: placeholders for an initial stretch of the gap, cut off only by a full buffer. */
  lemma {:induction false} FillGapShape(frames: map<U32, Assembly>, from: int, to: U32, epoch: U16, now: int)
    requires 0 <= from <= to
    ensures from + GapTurns(frames, from, to, epoch, now) <= to
    ensures forall id :: id in FillGap(frames, from, to, epoch, now) <==>
      id in frames || from <= id < from + GapTurns(frames, from, to, epoch, now)
    ensures forall id | id in FillGap(frames, from, to, epoch, now) ::
      FillGap(frames, from, to, epoch, now)[id] == if id in frames then frames[id] else Placeholder(epoch, id, now)
    ensures from + GapTurns(frames, from, to, epoch, now) < to ==> |FillGap(frames, from, to, epoch, now)| >= MAX_FRAMES
    ensures |frames| <= MAX_FRAMES ==> |FillGap(frames, from, to, epoch, now)| <= MAX_FRAMES
    decreases (to as int) - from
  {
    if from < to && |frames| < MAX_FRAMES {
      var grown := if from in frames then frames else frames[from := Placeholder(epoch, from, now)];
      FillGapShape(grown, from + 1, to, epoch, now);
    }
  }

  /** The ids from `from` up to but not including `end`. */
  function Ids(from: U32, end: int): set<U32> {
    set id: U32 {:trigger id in Ids(from, end)} | from <= id < end
  }

  lemma IdsNext(from: U32, last: U32)
    requires from <= last
    ensures Ids(from, last + 1) == Ids(from, last) + {last}
  {
  }

  lemma {:induction false} IdsSize(from: U32, end: int)
    requires from <= end <= 0x1_0000_0000
    ensures |Ids(from, end)| == end - from
    decreases end - from as int
  {
    if from < end {
      IdsSize(from, end - 1);
      IdsNext(from, end - 1);
    }
  }

  lemma SubsetSize<T>(a: set<T>, b: set<T>)
    requires a <= b
    ensures |a| <= |b|
  {
    assert b == a + (b - a);
  }

  lemma IdsFit(from: U32, n: nat, keys: set<U32>)
    requires from + n <= 0x1_0000_0000 && forall id: U32 | from <= id < from + n :: id in keys
    ensures n <= |keys|
  {
    IdsSize(from, from + n);
    SubsetSize(Ids(from, from + n), keys);
  }

  /** However large the jump in frame ids, the gap loop takes at most 64 turns. */
  lemma GapTurnsBounded(frames: map<U32, Assembly>, from: U32, to: U32, epoch: U16, now: int)
    requires from <= to && |frames| <= MAX_FRAMES
    ensures GapTurns(frames, from, to, epoch, now) <= MAX_FRAMES
  {
    hide FillGap, GapTurns;
    var n := GapTurns(frames, from, to, epoch, now);
    var r := FillGap(frames, from, to, epoch, now);
    FillGapShape(frames, from, to, epoch, now);
    assert |r.Keys| == |r|;
    IdsFit(from, n, r.Keys);
  }

  lemma OpeningOk(g: Gate, p: Packet, md: Metadata, now: int, pool: set<Packet>)
    requires FramesOk(g.frames, g.epoch, pool) && g.epoch == Some(md.epoch)
    requires now > 0 && p in pool && p.metadata == Some(md) && md.index < md.count
    requires Matches(Opening(g.frames, p, md, now), md)
    ensures var f := Place(Opening(g.frames, p, md, now), p, md.index);
      f.frameId == md.frameId && f.epoch == md.epoch && f.firstSeen > 0 && SlotsOk(f, pool)
  {
    var f := Opening(g.frames, p, md, now);
    var r := Place(f, p, md.index);
    if md.frameId in g.frames {
      assert f == g.frames[md.frameId];
      var i :| 0 <= i < |f.packets| && f.packets[i].Some? && f.firstSequence == Wrap16(f.packets[i].value.sequence - i);
      assert r.packets[i] == f.packets[i];
    } else {
      assert r.packets[md.index] == Some(p);
    }
  }

  lemma {:induction false} EvictOk(g: Gate, pool: set<Packet>)
    requires FramesOk(g.frames, g.epoch, pool) && (g.synced ==> g.next.Some? && g.epoch.Some?)
    ensures Sound(Evict(g), pool)
    decreases |g.frames|
  {
    if |g.frames| > MAX_FRAMES {
      EvictOk(g.(frames := g.frames - {Least(g.frames.Keys)}, synced := false), pool);
    }
  }

  lemma StoreSound(g: Gate, p: Packet, md: Metadata, now: int, pool: set<Packet>)
    requires Sound(g, pool) && g.next.Some? && g.epoch == Some(md.epoch)
    requires now > 0 && p in pool && p.metadata == Some(md) && md.index < md.count
    ensures Sound(Store(g, p, md, now), pool)
  {
    hide SlotsOk, Place, Opening;
    var f := Opening(g.frames, p, md, now);
    if Matches(f, md) {
      OpeningOk(g, p, md, now, pool);
      EvictOk(g.(frames := g.frames[md.frameId := Place(f, p, md.index)]), pool);
    }
  }

  lemma ProcessSound(g: Gate, p: Packet, now: int, pool: set<Packet>)
    requires Sound(g, pool) && now > 0 && p in pool
    ensures Sound(Process(g, p, now), pool)
  {
    hide SlotsOk, Store, FillGap;
    if Usable(p) {
      var md := p.metadata.value;
      var g1 := EnterEpoch(g, md);
      assert Sound(g1, pool);
      if md.frameId > g1.next.value {
        FillGapOk(g1.frames, g1.next.value, md.frameId, md.epoch, now, pool);
      }
      StoreSound(Announce(g1, md, now), p, md, now, pool);
    }
  }

  lemma FrameWhole(f: Assembly, pool: set<Packet>)
    requires SlotsOk(f, pool) && Complete(f)
    ensures Whole(FrameOf(f), pool)
    ensures FrameOf(f).frameId == f.frameId && FrameOf(f).epoch == f.epoch && FrameOf(f).keyframe == f.keyframe
  {
  }

  lemma NoneWhole(pool: set<Packet>)
    ensures AllWhole([], pool) && AllWhole([Lost], pool)
  {
  }

  lemma {:induction false} AdvanceSound(g: Gate, at: int, timeout: int, pool: set<Packet>)
    requires Sound(g, pool)
    ensures var r := Advance(g, at, timeout); Sound(r.gate, pool) && AllWhole(r.events, pool)
    decreases |g.frames|
  {
    hide SlotsOk, Whole, FrameOf, Complete, Expired;
    NoneWhole(pool);
    if g.next.Some? && g.next.value in g.frames {
      var id := g.next.value;
      var f := g.frames[id];
      if Complete(f) {
        FrameWhole(f, pool);
        AdvanceSound(Without(g, id).(completeFrames := g.completeFrames + 1), at, timeout, pool);
      }
    }
  }

  lemma ResyncSound(g: Gate, at: int, timeout: int, pool: set<Packet>)
    requires Sound(g, pool)
    ensures var r := Resync(g, at, timeout); Sound(r.gate, pool) && AllWhole(r.events, pool)
  {
    hide SlotsOk, Whole, FrameOf, Stale, Complete;
    var keys := Candidates(g.frames);
    if keys != {} {
      FrameWhole(g.frames[Least(keys)], pool);
    }
    FewerKeys(Resync(g, at, timeout).gate.frames, g.frames);
  }

  lemma FewerKeys(a: map<U32, Assembly>, b: map<U32, Assembly>)
    requires a.Keys <= b.Keys
    ensures |a| <= |b|
  {
    assert b.Keys == a.Keys + (b.Keys - a.Keys);
    assert |a| == |a.Keys| && |b| == |b.Keys|;
  }

  predicate OnlyNacks(events: seq<Event>, at: int) {
    forall i | 0 <= i < |events| :: events[i].NackSent? && events[i].at == at
  }

  lemma {:induction false} NacksOnly(frames: map<U32, Assembly>, order: seq<U32>, at: int, timeout: int)
    requires forall id | id in order :: id in frames
    ensures OnlyNacks(Nacks(frames, order, at, timeout), at)
  {
    hide Due, NackGroups;
    if order != [] {
      NacksOnly(frames, order[..|order| - 1], at, timeout);
    }
  }

  lemma MarkedSlots(f: Assembly, at: int, pool: set<Packet>)
    requires SlotsOk(f, pool)
    ensures SlotsOk(f.(lastNack := at), pool)
  {
  }

  lemma PollSound(g: Gate, at: int, timeout: int, pool: set<Packet>)
    requires Sound(g, pool)
    ensures var r := Poll(g, at, timeout); Sound(r.gate, pool) && AllWhole(r.events, pool)
  {
    hide Due, Nacks, NackGroups, SlotsOk, FramesOk, Poll, Whole;
    NacksOnly(g.frames, InOrder(g.frames.Keys), at, timeout);
    PollFields(g, at, timeout);
    PollFramesOk(g, at, timeout, pool);
    FewerKeys(Poll(g, at, timeout).gate.frames, g.frames);
  }

  lemma PollFields(g: Gate, at: int, timeout: int)
    ensures var r := Poll(g, at, timeout);
      && r.gate.frames.Keys == g.frames.Keys && r.gate.synced == g.synced && r.gate.next == g.next
      && r.gate.epoch == g.epoch && r.events == Nacks(g.frames, InOrder(g.frames.Keys), at, timeout)
  {
    hide Due, Nacks;
  }

  lemma PollFramesOk(g: Gate, at: int, timeout: int, pool: set<Packet>)
    requires FramesOk(g.frames, g.epoch, pool)
    ensures FramesOk(Poll(g, at, timeout).gate.frames, g.epoch, pool)
  {
    hide Due, Nacks, SlotsOk;
    var frames := Poll(g, at, timeout).gate.frames;
    forall id | id in frames ensures SlotsOk(frames[id], pool) {
      MarkedSlots(g.frames[id], at, pool);
    }
  }

  /** One locked step. */
  lemma StepSound(g: Gate, op: Op, timeout: int, pool: set<Packet>)
    requires Sound(g, pool)
    requires op.Arrive? ==> op.at > 0 && op.packet in pool
    ensures var r := Step(g, op, timeout); Sound(r.gate, pool) && AllWhole(r.events, pool)
  {
    hide FramesOk, Whole, Process, Opens, Advance, Resync, Poll;
    match op
    case Arrive(p, at) => ProcessSound(g, p, at, pool);
    case DrainAt(at) => AdvanceSound(g, at, timeout, pool); ResyncSound(g, at, timeout, pool);
    case PollAt(at) => PollSound(g, at, timeout, pool);
    case InvalidateSync => EmptyFramesOk(g.epoch, pool);
  }

  lemma EmptyFramesOk(epoch: Option<U16>, pool: set<Packet>)
    ensures FramesOk(map[], epoch, pool)
  {
  }

  /** Every run from the start keeps the invariant, and everything that leaves the gate is a whole frame. */
  lemma {:induction false} RunSound(ops: seq<Op>, timeout: int, pool: set<Packet>)
    requires PositiveTimes(ops) && Arrivals(ops, pool)
    ensures var r := Run(START, ops, timeout); Sound(r.gate, pool) && AllWhole(r.events, pool)
  {
    hide FramesOk, Whole, Step;
    EmptyFramesOk(START.epoch, pool);
    if ops != [] {
      var n := |ops| - 1;
      RunSound(ops[..n], timeout, pool);
      StepSound(Run(START, ops[..n], timeout).gate, ops[n], timeout, pool);
    }
  }

  /** An unfinished frame always has something to ask for. */
  lemma DueHasMissing(f: Assembly, at: int, timeout: int)
    requires |f.packets| == f.count && Due(f, at, timeout)
    ensures Nack.Missing(f.firstSequence, Have(f)) != [] && NackGroups(f) != []
  {
    var i :| 0 <= i < |f.packets| && f.packets[i].None?;
    Nack.MissingIndicesComplete(Have(f), i);
  }
}

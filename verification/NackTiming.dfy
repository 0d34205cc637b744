/** When a frame is asked for, and for what: every unfinished frame in time, and none too early. */
module NackTiming {
  import opened Words
  import opened StampedPacket
  import opened FrameGate
  import opened GateInvariant
  import opened GateLimits
  import opened NackBudget
  import Nack

  /** A packet of frame `id` that ends it has arrived. */
  predicate MarkerArrived(ops: seq<Op>, id: U32) {
    exists i :: 0 <= i < |ops| && ops[i].Arrive? && EndsFrame(ops[i].packet, id)
  }

  predicate EndsFrame(p: Packet, id: U32) {
    p.marker && p.metadata.Some? && p.metadata.value.frameId == id
  }

  /** The marker packet fills a slot. */
  predicate MarkerIn(f: Assembly) {
    exists i :: 0 <= i < |f.packets| && f.packets[i].Some? && f.packets[i].value.marker
  }

  /** The assembly remembers its marker packet, and only then. */
  predicate Remembers(f: Assembly, id: U32, ops: seq<Op>) {
    (MarkerIn(f) ==> f.markerSeen) && (f.markerSeen ==> MarkerArrived(ops, id))
  }

  predicate AllRemember(g: Gate, ops: seq<Op>) {
    forall id | id in g.frames :: Remembers(g.frames[id], id, ops)
  }

  lemma ArrivedGrows(ops: seq<Op>, op: Op, id: U32)
    ensures MarkerArrived(ops, id) ==> MarkerArrived(ops + [op], id)
    ensures op.Arrive? && EndsFrame(op.packet, id) ==> MarkerArrived(ops + [op], id)
  {
    if MarkerArrived(ops, id) {
      var i :| 0 <= i < |ops| && ops[i].Arrive? && EndsFrame(ops[i].packet, id);
      assert (ops + [op])[i] == ops[i];
    }
    if op.Arrive? && EndsFrame(op.packet, id) {
      assert (ops + [op])[|ops|] == op;
    }
  }

  lemma RemembersOn(f: Assembly, id: U32, ops: seq<Op>, op: Op)
    requires Remembers(f, id, ops)
    ensures Remembers(f, id, ops + [op])
  {
    ArrivedGrows(ops, op, id);
  }

  lemma EmptyRemembers(f: Assembly, id: U32, ops: seq<Op>)
    requires !f.markerSeen && forall i | 0 <= i < |f.packets| :: f.packets[i].None?
    ensures Remembers(f, id, ops)
  {
  }

  lemma PlacedRemembers(f: Assembly, id: U32, ops: seq<Op>, p: Packet, now: int, index: nat)
    requires Remembers(f, id, ops) && p.metadata.Some? && p.metadata.value.frameId == id
    ensures Remembers(Place(f, p, index), id, ops + [Arrive(p, now)])
  {
    ArrivedGrows(ops, Arrive(p, now), id);
    var r := Place(f, p, index);
    if MarkerIn(r) && !p.marker {
      var i :| 0 <= i < |r.packets| && r.packets[i].Some? && r.packets[i].value.marker;
      assert f.packets[i] == r.packets[i];
    }
  }

  /** A frame in the buffer after the gap loop: one that was there, or a placeholder. */
  lemma FilledRemember(g: Gate, md: Metadata, now: int, ops: seq<Op>, op: Op)
    requires g.next.Some? && AllRemember(g, ops)
    ensures AllRemember(Announce(g, md, now), ops + [op])
  {
    hide Announce, Remembers;
    AnnounceShape(g, md, now);
    var filled := Announce(g, md, now).frames;
    forall id | id in filled ensures Remembers(filled[id], id, ops + [op]) {
      if id in g.frames {
        RemembersOn(g.frames[id], id, ops, op);
      } else {
        EmptyRemembers(filled[id], id, ops + [op]);
      }
    }
  }

  lemma ShrunkRemember(g: Gate, r: Gate, ops: seq<Op>)
    requires AllRemember(g, ops) && Shrunk(g, r)
    ensures AllRemember(r, ops)
  {
    hide Remembers;
  }

  lemma OpeningRemembers(g: Gate, filled: map<U32, Assembly>, p: Packet, md: Metadata, now: int, ops: seq<Op>)
    requires md.frameId in filled ==> Remembers(filled[md.frameId], md.frameId, ops) && filled[md.frameId].firstSeen > 0
    ensures Remembers(Opening(filled, p, md, now), md.frameId, ops)
  {
    hide Remembers;
    if md.frameId !in filled {
      EmptyRemembers(Opening(filled, p, md, now), md.frameId, ops);
    }
  }

  lemma StoreRemembers(g: Gate, p: Packet, md: Metadata, now: int, ops: seq<Op>)
    requires p.metadata == Some(md)
    requires forall id | id in g.frames :: Remembers(g.frames[id], id, ops + [Arrive(p, now)])
    requires md.frameId in g.frames ==> Remembers(g.frames[md.frameId], md.frameId, ops)
    requires md.frameId in g.frames ==> g.frames[md.frameId].firstSeen > 0
    ensures AllRemember(Store(g, p, md, now), ops + [Arrive(p, now)])
  {
    hide Remembers, Opening, Place, Matches;
    var f := Opening(g.frames, p, md, now);
    OpeningRemembers(g, g.frames, p, md, now, ops);
    PlacedRemembers(f, md.frameId, ops, p, now, md.index);
    var stored := g.(frames := g.frames[md.frameId := Place(f, p, md.index)]);
    EvictShrinks(stored);
    ShrunkRemember(stored, Evict(stored), ops + [Arrive(p, now)]);
  }

  lemma ArriveRemembers(g: Gate, p: Packet, now: int, ops: seq<Op>, pool: set<Packet>)
    requires AllRemember(g, ops) && Sound(g, pool) && now > 0
    ensures AllRemember(Process(g, p, now), ops + [Arrive(p, now)])
  {
    hide Remembers, Announce, Store, SlotsOk;
    if Usable(p) {
      var md := p.metadata.value;
      var entered := EnterEpoch(g, md);
      AnnounceShape(entered, md, now);
      FilledRemember(entered, md, now, ops, Arrive(p, now));
      StoreRemembers(Announce(entered, md, now), p, md, now, ops);
    } else {
      forall id | id in g.frames ensures Remembers(g.frames[id], id, ops + [Arrive(p, now)]) {
        RemembersOn(g.frames[id], id, ops, Arrive(p, now));
      }
    }
  }

  predicate OnlyTimer(f: Assembly, r: Assembly) {
    r == f.(lastNack := r.lastNack)
  }

  lemma QuietRemembers(g: Gate, r: Gate, ops: seq<Op>, op: Op)
    requires AllRemember(g, ops)
    requires forall id | id in r.frames :: id in g.frames && OnlyTimer(g.frames[id], r.frames[id])
    ensures AllRemember(r, ops + [op])
  {
    hide Remembers;
    forall id | id in r.frames ensures Remembers(r.frames[id], id, ops + [op]) {
      RemembersOn(g.frames[id], id, ops, op);
      TimerForgets(g.frames[id], id, ops + [op], r.frames[id].lastNack);
    }
  }

  lemma TimerForgets(f: Assembly, id: U32, ops: seq<Op>, at: int)
    requires Remembers(f, id, ops)
    ensures Remembers(f.(lastNack := at), id, ops)
  {
    if MarkerIn(f.(lastNack := at)) {
      assert MarkerIn(f);
    }
  }

  lemma {:induction false} RunRemembers(ops: seq<Op>, timeout: int, pool: set<Packet>)
    requires PositiveTimes(ops) && Arrivals(ops, pool)
    ensures AllRemember(Run(START, ops, timeout).gate, ops)
  {
    hide Remembers, Sound, Process, Advance, Resync, Poll, Births;
    if ops != [] {
      var n := |ops| - 1;
      RunRemembers(ops[..n], timeout, pool);
      RunSound(ops[..n], timeout, pool);
      assert ops == ops[..n] + [ops[n]];
      var g := Run(START, ops[..n], timeout).gate;
      match ops[n]
      case Arrive(p, at) => ArriveRemembers(g, p, at, ops[..n], pool);
      case DrainAt(at) =>
        AdvanceShrinks(g, at, timeout);
        ResyncShrinks(g, at, timeout);
        QuietRemembers(g, Drain(g, at, timeout).gate, ops[..n], ops[n]);
      case PollAt(at) =>
        forall id | id in Poll(g, at, timeout).gate.frames
          ensures id in g.frames && OnlyTimer(g.frames[id], Poll(g, at, timeout).gate.frames[id])
        {
          PolledFrame(g, at, timeout, id);
        }
        QuietRemembers(g, Poll(g, at, timeout).gate, ops[..n], ops[n]);
      case InvalidateSync => QuietRemembers(g, Invalidate(g).gate, ops[..n], ops[n]);
    }
  }

  // ---------------------------------------------------------------- one poll of a run

  /** The assembly was opened at `since`, and at `at` its turn to be asked for has come. */
  predicate Wanting(f: Assembly, at: int, timeout: int) {
    && (exists i :: 0 <= i < |f.packets| && f.packets[i].None?)
    && at < f.firstSeen + timeout && (f.firstSeen + 120_000 <= at || MarkerIn(f))
  }

  lemma WantingIncomplete(f: Assembly, at: int, timeout: int)
    requires Wanting(f, at, timeout) && |f.packets| == f.count
    ensures !Complete(f) && f.count != 0
  {
  }

  lemma PollEvents(ops: seq<Op>, at: int, timeout: int)
    ensures var g := Run(START, ops, timeout).gate;
      Run(START, ops + [PollAt(at)], timeout).events
        == Run(START, ops, timeout).events + Nacks(g.frames, InOrder(g.frames.Keys), at, timeout)
  {
    hide Run, Nacks;
    RunStep(START, ops, PollAt(at), timeout);
  }

  /**
   * Asked in time: once an unfinished assembly is 120 ms old, or its marker packet is in, and until its deadline, every
   * poll leaves it with a NACK sent less than 50 ms ago.
   */
  lemma AskedInTime(ops: seq<Op>, at: int, timeout: int, pool: set<Packet>, id: U32)
    requires Chronological(ops + [PollAt(at)]) && Arrivals(ops, pool) && timeout > 0
    requires var g := Run(START, ops, timeout).gate; id in g.frames && Wanting(g.frames[id], at, timeout)
    ensures var events := Run(START, ops + [PollAt(at)], timeout).events;
      && OpenedAt(events, id) == Some(Run(START, ops, timeout).gate.frames[id].firstSeen)
      && NackTimes(events, id) != [] && NackTimes(events, id)[|NackTimes(events, id)| - 1] > at - 50_000
  {
    hide Run, Nacks, OpenedAt, NackTimes, Complete, SlotsOk, MarkerIn, WithinBudget;
    var before := Run(START, ops, timeout);
    var f := before.gate.frames[id];
    ChronologicalPrefix(ops, PollAt(at));
    RunSound(ops, timeout, pool);
    RunBudgeted(ops, timeout, pool);
    RunRemembers(ops, timeout, pool);
    assert Entry(before.gate, before.events, id, Clock(ops), timeout);
    SlotCount(f, pool);
    WantingIncomplete(f, at, timeout);
    PollEvents(ops, at, timeout);
    NacksAppend(before.events, before.gate.frames, InOrder(before.gate.frames.Keys), at, timeout, id);
  }

  lemma SlotCount(f: Assembly, pool: set<Packet>)
    requires SlotsOk(f, pool)
    ensures |f.packets| == f.count
  {
  }

  lemma ChronologicalPrefix(ops: seq<Op>, op: Op)
    requires Chronological(ops + [op])
    ensures Chronological(ops) && PositiveTimes(ops) && (Timed(op) ==> op.at > 0 && Clock(ops) <= op.at)
  {
    var all := ops + [op];
    forall i | 0 <= i < |ops| ensures all[i] == ops[i] {
    }
    assert all[|ops|] == op;
    ClockLatest(ops);
  }

  /** What a NACK asks for: the sequence numbers of exactly the packets the assembly lacks, each once. */
  predicate AsksFor(groups: seq<Nack.Group>, f: Assembly) {
    var asked := Nack.Decode(groups);
    && (forall x :: x in asked <==> exists i :: 0 <= i < |f.packets| && IsGap(f, i, x))
    && forall j, k | 0 <= j < k < |asked| :: asked[j] != asked[k]
  }

  predicate IsGap(f: Assembly, i: nat, x: U16)
    requires i < |f.packets|
  {
    f.packets[i].None? && x == Wrap16(f.firstSequence + i)
  }

  lemma MissingNames(f: Assembly, x: U16)
    ensures x in Nack.Missing(f.firstSequence, Have(f)) <==> exists i :: 0 <= i < |f.packets| && IsGap(f, i, x)
  {
    hide Nack.MissingIndices, Wrap16;
    var have := Have(f);
    var missing, indices := Nack.Missing(f.firstSequence, have), Nack.MissingIndices(have);
    if x in missing {
      var k :| 0 <= k < |missing| && missing[k] == x;
      assert IsGap(f, indices[k], x);
    }
    if exists i :: 0 <= i < |f.packets| && IsGap(f, i, x) {
      var i: nat :| i < |f.packets| && IsGap(f, i, x);
      Nack.MissingIndicesComplete(have, i);
      var k :| 0 <= k < |indices| && indices[k] == i;
      assert missing[k] == x;
    }
  }

  lemma GroupsAsk(f: Assembly)
    requires |f.packets| < 0x1_0000
    ensures AsksFor(NackGroups(f), f)
  {
    hide Nack.Pack, Nack.Decode, Nack.Missing, IsGap;
    var first, have := f.firstSequence, Have(f);
    Nack.PackExact(first, have);
    forall x: U16 ensures x in Nack.Missing(first, have) <==> exists i :: 0 <= i < |f.packets| && IsGap(f, i, x) {
      MissingNames(f, x);
    }
    AllDistinct(first, have);
  }

  lemma AllDistinct(first: U16, have: seq<bool>)
    requires |have| < 0x1_0000
    ensures var missing := Nack.Missing(first, have);
      forall j, k | 0 <= j < k < |missing| :: missing[j] != missing[k]
  {
    hide Nack.MissingIndices;
    var missing := Nack.Missing(first, have);
    forall j, k | 0 <= j < k < |missing| ensures missing[j] != missing[k] {
      Nack.MissingDistinct(first, have, j, k);
    }
  }

  /**
   * Asked not too early, not too often, not too late and for the right packets: whatever a poll sends is for an
   * assembly that is 120 ms old or whose marker packet has arrived, before its deadline, at least 50 ms after the NACK
   * before it, and names the sequence numbers of exactly the packets that are missing.
   */
  lemma AskedRightly(ops: seq<Op>, at: int, timeout: int, pool: set<Packet>, e: Event)
    requires Chronological(ops + [PollAt(at)]) && Arrivals(ops, pool) && timeout > 0
    requires var g := Run(START, ops, timeout).gate; e in Nacks(g.frames, InOrder(g.frames.Keys), at, timeout)
    ensures e.NackSent? && e.at == at && e.frameId in Run(START, ops, timeout).gate.frames
    ensures var before := Run(START, ops, timeout);
      var times, since := NackTimes(before.events, e.frameId), OpenedAt(before.events, e.frameId);
      && since.Some? && at < since.value + timeout
      && (at >= since.value + 120_000 || MarkerArrived(ops, e.frameId))
      && (times != [] ==> times[|times| - 1] <= at - 50_000)
      && AsksFor(e.groups, before.gate.frames[e.frameId])
  {
    hide Run, Nacks, OpenedAt, NackTimes, Complete, SlotsOk, MarkerIn, MarkerArrived, WithinBudget, NackGroups, AsksFor;
    var before := Run(START, ops, timeout);
    ChronologicalPrefix(ops, PollAt(at));
    RunSound(ops, timeout, pool);
    RunBudgeted(ops, timeout, pool);
    RunRemembers(ops, timeout, pool);
    NacksExactlyDue(before.gate.frames, InOrder(before.gate.frames.Keys), at, timeout, 0);
    var id := e.frameId;
    var f := before.gate.frames[id];
    NacksExactlyDue(before.gate.frames, InOrder(before.gate.frames.Keys), at, timeout, id);
    assert Entry(before.gate, before.events, id, Clock(ops), timeout);
    SlotCount(f, pool);
    GroupsAsk(f);
    DueRetry(f, at, timeout);
  }

  lemma DueRetry(f: Assembly, at: int, timeout: int)
    requires Due(f, at, timeout)
    ensures f.count != 0 && at < f.firstSeen + timeout
    ensures f.markerSeen || at >= f.firstSeen + 120_000
    ensures f.lastNack == 0 || f.lastNack <= at - 50_000
  {
  }
}

/** How often the gate asks for one frame: the retry timer and the recovery deadline bound it over any run. */
module NackBudget {
  import opened Words
  import opened StampedPacket
  import opened FrameGate
  import opened GateInvariant

  /** When the current assembly of frame `id` was opened. */
  function OpenedAt(events: seq<Event>, id: U32): Option<int> {
    if events == [] then None
    else
      var e := events[|events| - 1];
      if e.Opened? && e.frameId == id then Some(e.at) else OpenedAt(events[..|events| - 1], id)
  }

  /** The NACKs sent for the current assembly of frame `id`. */
  function NackTimes(events: seq<Event>, id: U32): seq<int> {
    if events == [] then []
    else
      var e := events[|events| - 1];
      if e.Opened? && e.frameId == id then []
      else NackTimes(events[..|events| - 1], id) + if e.NackSent? && e.frameId == id then [e.at] else []
  }

  /** At least 50 ms apart and all before the deadline that runs from `start`. */
  predicate WithinBudget(times: seq<int>, start: int, timeout: int) {
    && (forall i | 0 <= i < |times| :: start <= times[i] < start + timeout)
    && (forall i | 0 < i < |times| :: times[i] - times[i - 1] >= NACK_RETRY_US)
  }

  predicate Budget(events: seq<Event>, id: U32, timeout: int) {
    var start := OpenedAt(events, id);
    if start.Some? then WithinBudget(NackTimes(events, id), start.value, timeout) else NackTimes(events, id) == []
  }

  /** The timer fields of an assembly agree with what was sent for it. */
  predicate Tracked(f: Assembly, id: U32, events: seq<Event>, clock: int) {
    f.count != 0 ==>
      var times := NackTimes(events, id);
      && OpenedAt(events, id) == Some(f.firstSeen) && f.firstSeen <= clock
      && (if f.lastNack == 0 then times == [] else times != [] && times[|times| - 1] == f.lastNack)
  }

  predicate Entry(g: Gate, events: seq<Event>, id: U32, clock: int, timeout: int) {
    Budget(events, id, timeout) && (id in g.frames ==> Tracked(g.frames[id], id, events, clock))
  }

  predicate Budgeted(g: Gate, events: seq<Event>, clock: int, timeout: int) {
    forall id: U32 :: Entry(g, events, id, clock, timeout)
  }

  predicate Timed(op: Op) { !op.InvalidateSync? }

  /** Clock readings never go back. */
  predicate Chronological(ops: seq<Op>) {
    && (forall i | 0 <= i < |ops| && Timed(ops[i]) :: ops[i].at > 0)
    && (forall i, j | 0 <= i < j < |ops| && Timed(ops[i]) && Timed(ops[j]) :: ops[i].at <= ops[j].at)
  }

  function Clock(ops: seq<Op>): int {
    if ops == [] then 0
    else if Timed(ops[|ops| - 1]) then ops[|ops| - 1].at else Clock(ops[..|ops| - 1])
  }

  lemma {:induction false} ClockLatest(ops: seq<Op>)
    requires Chronological(ops)
    ensures forall i | 0 <= i < |ops| && Timed(ops[i]) :: ops[i].at <= Clock(ops)
    ensures Clock(ops) > 0 ==> exists i :: 0 <= i < |ops| && Timed(ops[i]) && ops[i].at == Clock(ops)
    ensures Clock(ops) >= 0
  {
    if ops != [] {
      ClockLatest(ops[..|ops| - 1]);
    }
  }

  /** Events of other kinds say nothing about NACKs. */
  predicate Silent(events: seq<Event>) {
    forall i | 0 <= i < |events| :: !events[i].Opened? && !events[i].NackSent?
  }

  lemma {:induction false} SilentAppend(events: seq<Event>, more: seq<Event>, id: U32)
    requires Silent(more)
    ensures OpenedAt(events + more, id) == OpenedAt(events, id)
    ensures NackTimes(events + more, id) == NackTimes(events, id)
  {
    if more == [] {
      assert events + [] == events;
    } else {
      var n := |more| - 1;
      SilentAppend(events, more[..n], id);
      assert (events + more)[..|events| + n] == events + more[..n];
    }
  }

  lemma OpenedAppend(events: seq<Event>, e: Event, id: U32)
    requires e.Opened?
    ensures OpenedAt(events + [e], id) == if e.frameId == id then Some(e.at) else OpenedAt(events, id)
    ensures NackTimes(events + [e], id) == if e.frameId == id then [] else NackTimes(events, id)
  {
    assert (events + [e])[..|events|] == events;
  }

  lemma NackAppend(events: seq<Event>, e: Event, id: U32)
    requires e.NackSent?
    ensures OpenedAt(events + [e], id) == OpenedAt(events, id)
    ensures NackTimes(events + [e], id) == NackTimes(events, id) + if e.frameId == id then [e.at] else []
  {
    assert (events + [e])[..|events|] == events;
  }

  /** Assemblies survive or disappear; none is created or touched. */
  predicate Shrunk(g: Gate, g': Gate) {
    forall id | id in g'.frames :: id in g.frames && g'.frames[id] == g.frames[id]
  }

  lemma SilentStep(g: Gate, g': Gate, events: seq<Event>, more: seq<Event>, clock: int, clock': int, timeout: int)
    requires Budgeted(g, events, clock, timeout) && Silent(more) && Shrunk(g, g') && clock <= clock'
    ensures Budgeted(g', events + more, clock', timeout)
  {
    hide Entry, OpenedAt, NackTimes;
    forall id: U32 ensures Entry(g', events + more, id, clock', timeout) {
      SilentAppend(events, more, id);
      EntryQuiet(g, g', events, events + more, id, clock, clock', timeout);
    }
  }

  lemma {:induction false} AdvanceShrinks(g: Gate, at: int, timeout: int)
    ensures var r := Advance(g, at, timeout); Silent(r.events) && Shrunk(g, r.gate)
    decreases |g.frames|
  {
    hide Complete, Expired, FrameOf;
    if g.next.Some? && g.next.value in g.frames && Complete(g.frames[g.next.value]) {
      AdvanceShrinks(Without(g, g.next.value).(completeFrames := g.completeFrames + 1), at, timeout);
    }
  }

  lemma ResyncShrinks(g: Gate, at: int, timeout: int)
    ensures var r := Resync(g, at, timeout); Silent(r.events) && Shrunk(g, r.gate)
  {
  }

  lemma {:induction false} EvictShrinks(g: Gate)
    ensures Shrunk(g, Evict(g))
    decreases |g.frames|
  {
    if |g.frames| > MAX_FRAMES {
      EvictShrinks(g.(frames := g.frames - {Least(g.frames.Keys)}, synced := false));
    }
  }

  /** After a packet an assembly is an old one with its timers untouched, a placeholder, or the one just opened. */
  predicate Accounted(g: Gate, g': Gate, births: seq<Event>, id: U32, now: int)
    requires id in g'.frames
  {
    var f := g'.frames[id];
    f.count != 0 ==>
      if births == [Opened(id, now)] then f.firstSeen == now && f.lastNack == 0
      else
        && id in g.frames && f.firstSeen == g.frames[id].firstSeen && f.lastNack == g.frames[id].lastNack
        && f.count == g.frames[id].count
  }

  lemma ProcessAccounted(g: Gate, p: Packet, now: int, pool: set<Packet>)
    requires Sound(g, pool) && now > 0
    ensures forall id | id in Process(g, p, now).frames :: Accounted(g, Process(g, p, now), Births(g, p, now), id, now)
  {
    hide SlotsOk, FillGap, GapTurns;
    if Usable(p) {
      var md := p.metadata.value;
      var g1 := EnterEpoch(g, md);
      if md.frameId > g1.next.value {
        FillGapShape(g1.frames, g1.next.value, md.frameId, md.epoch, now);
      }
      var g2 := Announce(g1, md, now);
      assert forall id | id in g2.frames ::
          (id in g.frames && g2.frames[id] == g.frames[id]) || g2.frames[id] == Placeholder(md.epoch, id, now);
      StoreAccounted(g, g2, p, md, now);
    }
  }

  lemma StoreAccounted(g: Gate, g2: Gate, p: Packet, md: Metadata, now: int)
    requires forall id | id in g2.frames ::
      g2.frames[id].firstSeen > 0
      && ((id in g.frames && g2.frames[id] == g.frames[id]) || g2.frames[id] == Placeholder(md.epoch, id, now))
    requires now > 0 && md.count != 0
    ensures var r := Store(g2, p, md, now);
      forall id | id in r.frames ::
        Accounted(g, r, if md.frameId !in g2.frames then [Opened(md.frameId, now)] else [], id, now)
  {
    var f := Opening(g2.frames, p, md, now);
    EvictShrinks(g2.(frames := g2.frames[md.frameId := Place(f, p, md.index)]));
  }

  lemma ReceiveBudgeted(g: Gate, events: seq<Event>, p: Packet, now: int, clock: int, timeout: int, pool: set<Packet>)
    requires Budgeted(g, events, clock, timeout) && Sound(g, pool) && now > 0 && clock <= now && timeout > 0
    ensures var r := Receive(g, p, now); Budgeted(r.gate, events + r.events, now, timeout)
  {
    hide Process, Sound, OpenedAt, NackTimes, Opens;
    var g' := Process(g, p, now);
    var births := Births(g, p, now);
    ProcessAccounted(g, p, now, pool);
    BirthsShape(g, p, now);
    forall id: U32
      ensures Entry(g', events + births, id, now, timeout)
    {
      assert Entry(g, events, id, clock, timeout);
      if births == [] {
        assert events + [] == events;
      } else {
        OpenedAppend(events, births[0], id);
      }
    }
    var lost := LostBetween(g, g');
    SilentStep(g', g', events + births, lost, now, now, timeout);
    assert events + (births + lost) == events + births + lost;
  }

  lemma BirthsShape(g: Gate, p: Packet, now: int)
    ensures var b := Births(g, p, now); b == [] || exists id :: b == [Opened(id, now)]
  {
    hide FillGap;
  }

  lemma {:induction false} NacksAppend(events: seq<Event>, frames: map<U32, Assembly>, order: seq<U32>, at: int,
                                       timeout: int, id: U32)
    requires forall k | k in order :: k in frames
    requires forall i, j | 0 <= i < j < |order| :: order[i] < order[j]
    ensures var more := Nacks(frames, order, at, timeout);
      && OpenedAt(events + more, id) == OpenedAt(events, id)
      && NackTimes(events + more, id) ==
           NackTimes(events, id) + if id in order && Due(frames[id], at, timeout) then [at] else []
  {
    hide Due, NackGroups, OpenedAt, NackTimes;
    if order == [] {
      assert events + [] == events;
    } else {
      var n := |order| - 1;
      var k := order[n];
      NacksAppend(events, frames, order[..n], at, timeout, id);
      assert id in order <==> id in order[..n] || id == k;
      var front := Nacks(frames, order[..n], at, timeout);
      if Due(frames[k], at, timeout) {
        var e := NackSent(k, at, NackGroups(frames[k]));
        NackAppend(events + front, e, id);
        assert events + (front + [e]) == events + front + [e];
      } else {
        assert front + [] == front;
      }
    }
  }

  lemma DueWithinBudget(f: Assembly, id: U32, events: seq<Event>, clock: int, at: int, timeout: int)
    requires Tracked(f, id, events, clock) && Due(f, at, timeout) && clock <= at
    requires WithinBudget(NackTimes(events, id), f.firstSeen, timeout)
    ensures WithinBudget(NackTimes(events, id) + [at], f.firstSeen, timeout)
  {
  }

  /** Nothing was sent for this frame and its assembly is as it was. */
  lemma EntryQuiet(g: Gate, g': Gate, events: seq<Event>, events': seq<Event>, id: U32, clock: int, clock': int,
                   timeout: int)
    requires Entry(g, events, id, clock, timeout) && clock <= clock'
    requires OpenedAt(events', id) == OpenedAt(events, id) && NackTimes(events', id) == NackTimes(events, id)
    requires id in g'.frames ==> id in g.frames && g'.frames[id] == g.frames[id]
    ensures Entry(g', events', id, clock', timeout)
  {
  }

  lemma EntryNacked(g: Gate, g': Gate, events: seq<Event>, events': seq<Event>, id: U32, clock: int, at: int,
                    timeout: int)
    requires Entry(g, events, id, clock, timeout) && clock <= at && at > 0
    requires OpenedAt(events', id) == OpenedAt(events, id) && NackTimes(events', id) == NackTimes(events, id) + [at]
    requires id in g.frames && Due(g.frames[id], at, timeout)
    requires id in g'.frames && g'.frames[id] == g.frames[id].(lastNack := at)
    ensures Entry(g', events', id, at, timeout)
  {
    hide Due, OpenedAt, NackTimes, WithinBudget;
    DueCounts(g.frames[id], at, timeout);
    DueWithinBudget(g.frames[id], id, events, clock, at, timeout);
  }

  lemma PolledFrame(g: Gate, at: int, timeout: int, id: U32)
    ensures var r := Poll(g, at, timeout).gate.frames;
      && (id in r <==> id in g.frames)
      && (id in r ==> r[id] == if Due(g.frames[id], at, timeout) then g.frames[id].(lastNack := at) else g.frames[id])
  {
    hide Due, Nacks;
  }

  lemma PollEntry(g: Gate, events: seq<Event>, id: U32, at: int, clock: int, timeout: int)
    requires Entry(g, events, id, clock, timeout) && at > 0 && clock <= at
    ensures var r := Poll(g, at, timeout); Entry(r.gate, events + r.events, id, at, timeout)
  {
    hide Entry, Due, Nacks, OpenedAt, NackTimes;
    NacksAppend(events, g.frames, InOrder(g.frames.Keys), at, timeout, id);
    PolledFrame(g, at, timeout, id);
    var r := Poll(g, at, timeout);
    var times := NackTimes(events, id);
    if id in g.frames && Due(g.frames[id], at, timeout) {
      EntryNacked(g, r.gate, events, events + r.events, id, clock, at, timeout);
    } else {
      assert times + [] == times;
      EntryQuiet(g, r.gate, events, events + r.events, id, clock, at, timeout);
    }
  }

  lemma PollBudgeted(g: Gate, events: seq<Event>, at: int, clock: int, timeout: int)
    requires Budgeted(g, events, clock, timeout) && at > 0 && clock <= at
    ensures var r := Poll(g, at, timeout); Budgeted(r.gate, events + r.events, at, timeout)
  {
    hide Poll, Entry;
    forall id: U32 ensures Entry(Poll(g, at, timeout).gate, events + Poll(g, at, timeout).events, id, at, timeout) {
      PollEntry(g, events, id, at, clock, timeout);
    }
  }

  lemma DueCounts(f: Assembly, at: int, timeout: int)
    requires Due(f, at, timeout)
    ensures f.count != 0
  {
  }

  lemma {:induction false} RunBudgeted(ops: seq<Op>, timeout: int, pool: set<Packet>)
    requires Chronological(ops) && Arrivals(ops, pool) && timeout > 0
    ensures var r := Run(START, ops, timeout); Budgeted(r.gate, r.events, Clock(ops), timeout)
  {
    hide Sound, Budgeted, Advance, Resync, Receive, Poll;
    if ops == [] {
      NothingBudgeted(timeout);
    } else {
      var n := |ops| - 1;
      RunBudgeted(ops[..n], timeout, pool);
      RunSound(ops[..n], timeout, pool);
      ClockLatest(ops[..n]);
      var before := Run(START, ops[..n], timeout);
      var g, events, clock := before.gate, before.events, Clock(ops[..n]);
      match ops[n]
      case Arrive(p, at) => ReceiveBudgeted(g, events, p, at, clock, timeout, pool);
      case DrainAt(at) =>
        AdvanceShrinks(g, at, timeout);
        ResyncShrinks(g, at, timeout);
        var r := Drain(g, at, timeout);
        SilentStep(g, r.gate, events, r.events, clock, at, timeout);
      case PollAt(at) => PollBudgeted(g, events, at, clock, timeout);
      case InvalidateSync =>
        var r := Invalidate(g);
        SilentStep(g, r.gate, events, r.events, clock, clock, timeout);
    }
  }

  lemma NothingBudgeted(timeout: int)
    ensures Budgeted(START, [], 0, timeout)
  {
  }

  lemma {:induction false} SpacedSpan(times: seq<int>, start: int, timeout: int)
    requires WithinBudget(times, start, timeout) && times != []
    ensures times[|times| - 1] - times[0] >= (|times| - 1) * NACK_RETRY_US
  {
    var n := |times| - 1;
    if n > 0 {
      SpacedSpan(times[..n], start, timeout);
    }
  }

  function NackLimit(timeout: int): int {
    (timeout + NACK_RETRY_US - 1) / NACK_RETRY_US
  }

  lemma BudgetLimit(times: seq<int>, start: int, timeout: int)
    requires WithinBudget(times, start, timeout) && timeout > 0
    ensures |times| <= NackLimit(timeout)
  {
    if times != [] {
      SpacedSpan(times, start, timeout);
    }
  }

  /** Over any run: the NACKs of one assembly are 50 ms apart, precede its deadline, and so are few. */
  lemma NacksBounded(ops: seq<Op>, timeout: int, pool: set<Packet>, id: U32)
    requires Chronological(ops) && Arrivals(ops, pool) && timeout > 0
    ensures var events := Run(START, ops, timeout).events;
      var times := NackTimes(events, id);
      var start := OpenedAt(events, id);
      && (times != [] ==> start.Some? && WithinBudget(times, start.value, timeout))
      && |times| <= NackLimit(timeout)
    ensures timeout == 1_000_000 ==> |NackTimes(Run(START, ops, timeout).events, id)| <= 20
  {
    hide Run;
    RunBudgeted(ops, timeout, pool);
    var r := Run(START, ops, timeout);
    var events := r.events;
    assert Entry(r.gate, events, id, Clock(ops), timeout);
    if OpenedAt(events, id).Some? {
      BudgetLimit(NackTimes(events, id), OpenedAt(events, id).value, timeout);
    }
  }

  /** A poll sends one NACK for every frame that is due, and none for any other. */
  lemma {:induction false} NacksExactlyDue(frames: map<U32, Assembly>, order: seq<U32>, at: int, timeout: int, id: U32)
    requires forall k | k in order :: k in frames
    ensures (exists e :: e in Nacks(frames, order, at, timeout) && e.NackSent? && e.frameId == id)
      <==> id in order && Due(frames[id], at, timeout)
    ensures forall e | e in Nacks(frames, order, at, timeout) ::
      e.NackSent? && e.frameId in frames && e == NackSent(e.frameId, at, NackGroups(frames[e.frameId]))
  {
    hide Due, NackGroups;
    if order != [] {
      var n := |order| - 1;
      var k := order[n];
      NacksExactlyDue(frames, order[..n], at, timeout, id);
      var front := Nacks(frames, order[..n], at, timeout);
      var e := NackSent(k, at, NackGroups(frames[k]));
      assert id in order <==> id in order[..n] || id == k;
      if Due(frames[k], at, timeout) {
        assert Nacks(frames, order, at, timeout) == front + [e];
        assert e in front + [e];
        assert forall x :: x in front + [e] <==> x in front || x == e;
      } else {
        assert Nacks(frames, order, at, timeout) == front;
      }
    }
  }

  /** Every due poll sends a NACK that names something, and nothing is sent for a frame that is not due. */
  lemma DuePollSends(g: Gate, at: int, timeout: int, pool: set<Packet>, id: U32)
    requires Sound(g, pool)
    ensures (exists e :: e in Poll(g, at, timeout).events && e.NackSent? && e.frameId == id)
      <==> id in g.frames && Due(g.frames[id], at, timeout)
    ensures forall e | e in Poll(g, at, timeout).events :: e.NackSent? && e.groups != []
  {
    hide Nacks, NackGroups;
    var order := InOrder(g.frames.Keys);
    NacksExactlyDue(g.frames, order, at, timeout, id);
    forall e | e in Poll(g, at, timeout).events ensures e.NackSent? && e.groups != [] {
      NacksExactlyDue(g.frames, order, at, timeout, e.frameId);
      assert SlotsOk(g.frames[e.frameId], pool);
      DueHasMissing(g.frames[e.frameId], at, timeout);
    }
  }
}

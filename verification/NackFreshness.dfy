/** What "unreceived" means over a run: a frame once handed on is asked for only after it was opened anew. */
module NackFreshness {
  import opened Words
  import opened FrameGate
  import opened GateInvariant
  import opened NackBudget

  /** Frame `id` has been handed on since its assembly was last opened. */
  predicate HandedOn(events: seq<Event>, id: U32) {
    events != [] &&
    var e := events[|events| - 1];
    if e.Opened? && e.frameId == id then false
    else (e.Emit? && e.frame.frameId == id) || HandedOn(events[..|events| - 1], id)
  }

  /** Every assembly has been opened, and has not been handed on since. */
  predicate Fresh(g: Gate, events: seq<Event>) {
    forall id | id in g.frames && g.frames[id].count != 0 :: !HandedOn(events, id) && OpenedAt(events, id).Some?
  }

  /** Each NACK is for a frame that has not been handed on since its assembly was opened. */
  predicate AsksFresh(events: seq<Event>) {
    events == [] ||
    var n := |events| - 1;
    var e := events[n];
    && AsksFresh(events[..n])
    && (e.NackSent? ==> !HandedOn(events[..n], e.frameId) && OpenedAt(events[..n], e.frameId).Some?)
  }

  lemma Snoc(events: seq<Event>, e: Event, id: U32)
    ensures (events + [e])[..|events|] == events
    ensures HandedOn(events + [e], id) <==>
      !(e.Opened? && e.frameId == id) && ((e.Emit? && e.frame.frameId == id) || HandedOn(events, id))
    ensures OpenedAt(events + [e], id) == if e.Opened? && e.frameId == id then Some(e.at) else OpenedAt(events, id)
    ensures AsksFresh(events + [e]) <==>
      AsksFresh(events) && (e.NackSent? ==> !HandedOn(events, e.frameId) && OpenedAt(events, e.frameId).Some?)
  {
    assert (events + [e])[..|events|] == events;
  }

  /** An event that neither emits what is buffered nor asks for anything. */
  lemma FreshSnoc(g: Gate, g': Gate, events: seq<Event>, e: Event)
    requires Fresh(g, events) && AsksFresh(events) && !e.NackSent?
    requires e.Emit? ==> e.frame.frameId !in g'.frames
    requires Shrunk(g, g')
    ensures Fresh(g', events + [e]) && AsksFresh(events + [e])
  {
    hide HandedOn, OpenedAt, AsksFresh;
    Snoc(events, e, 0);
    forall id | id in g'.frames && g'.frames[id].count != 0
      ensures !HandedOn(events + [e], id) && OpenedAt(events + [e], id).Some?
    {
      Snoc(events, e, id);
    }
  }

  lemma {:induction false} AdvanceFresh(g: Gate, events: seq<Event>, at: int, timeout: int, pool: set<Packet>)
    requires Fresh(g, events) && AsksFresh(events) && Sound(g, pool)
    ensures var r := Advance(g, at, timeout); Fresh(r.gate, events + r.events) && AsksFresh(events + r.events)
    decreases |g.frames|
  {
    hide SlotsOk, Complete, Expired, HandedOn, OpenedAt, AsksFresh, Fresh;
    assert events + [] == events;
    if g.next.Some? && g.next.value in g.frames {
      var id := g.next.value;
      var f := g.frames[id];
      if Complete(f) {
        var e := Emit(FrameOf(f));
        var g' := Without(g, id).(completeFrames := g.completeFrames + 1);
        FreshSnoc(g, g', events, e);
        AdvanceFresh(g', events + [e], at, timeout, pool);
        assert events + ([e] + Advance(g', at, timeout).events) == events + [e] + Advance(g', at, timeout).events;
      } else if Expired(f, at, timeout) {
        FreshSnoc(g, Without(g, id).(droppedFrames := g.droppedFrames + 1, synced := false), events, Lost);
      }
    }
  }

  lemma ResyncFresh(g: Gate, events: seq<Event>, at: int, timeout: int, pool: set<Packet>)
    requires Fresh(g, events) && AsksFresh(events) && Sound(g, pool)
    ensures var r := Resync(g, at, timeout); Fresh(r.gate, events + r.events) && AsksFresh(events + r.events)
  {
    hide SlotsOk, Decodable, HandedOn, OpenedAt, AsksFresh, Stale;
    assert events + [] == events;
    var r := Resync(g, at, timeout);
    if Candidates(g.frames) != {} {
      var f := g.frames[Least(Candidates(g.frames))];
      var e, ack := Emit(FrameOf(f)), KeyframeAck(f.epoch, f.frameId);
      FreshSnoc(g, r.gate, events, e);
      FreshSnoc(r.gate, r.gate, events + [e], ack);
      assert events + [e, ack] == events + [e] + [ack];
    }
  }

  lemma ArriveFresh(g: Gate, events: seq<Event>, p: Packet, now: int, pool: set<Packet>)
    requires Fresh(g, events) && AsksFresh(events) && Sound(g, pool) && now > 0
    ensures var r := Receive(g, p, now); Fresh(r.gate, events + r.events) && AsksFresh(events + r.events)
  {
    hide Process, Sound, HandedOn, OpenedAt, AsksFresh, Opens;
    var g' := Process(g, p, now);
    var births, lost := Births(g, p, now), LostBetween(g, g');
    ProcessAccounted(g, p, now, pool);
    BirthsShape(g, p, now);
    assert events + [] == events;
    if births != [] {
      Snoc(events, births[0], 0);
    }
    forall id | id in g'.frames && g'.frames[id].count != 0
      ensures !HandedOn(events + births, id) && OpenedAt(events + births, id).Some?
    {
      assert Accounted(g, g', births, id, now);
      if births != [] {
        Snoc(events, births[0], id);
      }
    }
    assert events + births + [] == events + births;
    if lost != [] {
      FreshSnoc(g', g', events + births, Lost);
    }
    assert events + (births + lost) == events + births + lost;
  }

  lemma {:induction false} NacksFresh(g: Gate, events: seq<Event>, order: seq<U32>, at: int, timeout: int)
    requires Fresh(g, events) && AsksFresh(events) && forall id | id in order :: id in g.frames
    ensures var more := Nacks(g.frames, order, at, timeout); Fresh(g, events + more) && AsksFresh(events + more)
  {
    hide Due, NackGroups, HandedOn, OpenedAt, AsksFresh;
    if order == [] {
      assert events + [] == events;
    } else {
      var n := |order| - 1;
      var front := Nacks(g.frames, order[..n], at, timeout);
      NacksFresh(g, events, order[..n], at, timeout);
      if Due(g.frames[order[n]], at, timeout) {
        var e := NackSent(order[n], at, NackGroups(g.frames[order[n]]));
        DueCounts(g.frames[order[n]], at, timeout);
        forall id: U32 ensures HandedOn(events + front + [e], id) <==> HandedOn(events + front, id)
          ensures OpenedAt(events + front + [e], id) == OpenedAt(events + front, id)
        {
          Snoc(events + front, e, id);
        }
        Snoc(events + front, e, order[n]);
        assert events + (front + [e]) == events + front + [e];
      } else {
        assert front + [] == front;
      }
    }
  }

  lemma PollFresh(g: Gate, events: seq<Event>, at: int, timeout: int)
    requires Fresh(g, events) && AsksFresh(events)
    ensures var r := Poll(g, at, timeout); Fresh(r.gate, events + r.events) && AsksFresh(events + r.events)
  {
    hide Due, Nacks, HandedOn, OpenedAt, AsksFresh;
    NacksFresh(g, events, InOrder(g.frames.Keys), at, timeout);
  }

  lemma StepFresh(g: Gate, events: seq<Event>, op: Op, timeout: int, pool: set<Packet>)
    requires Fresh(g, events) && AsksFresh(events) && Sound(g, pool)
    requires op.Arrive? ==> op.at > 0
    ensures var r := Step(g, op, timeout); Fresh(r.gate, events + r.events) && AsksFresh(events + r.events)
  {
    hide Sound, Advance, Resync, Receive, Poll, HandedOn, OpenedAt, AsksFresh;
    match op
    case Arrive(p, at) => ArriveFresh(g, events, p, at, pool);
    case DrainAt(at) =>
      AdvanceFresh(g, events, at, timeout, pool);
      ResyncFresh(g, events, at, timeout, pool);
    case PollAt(at) => PollFresh(g, events, at, timeout);
    case InvalidateSync =>
      assert events + [] == events;
      FreshSnoc(g, Invalidate(g).gate, events, Lost);
  }

  lemma {:induction false} RunFresh(ops: seq<Op>, timeout: int, pool: set<Packet>)
    requires PositiveTimes(ops) && Arrivals(ops, pool)
    ensures var r := Run(START, ops, timeout); Fresh(r.gate, r.events) && AsksFresh(r.events)
  {
    hide Step, Sound;
    if ops != [] {
      var n := |ops| - 1;
      RunFresh(ops[..n], timeout, pool);
      RunSound(ops[..n], timeout, pool);
      var before := Run(START, ops[..n], timeout);
      StepFresh(before.gate, before.events, ops[n], timeout, pool);
    }
  }

  lemma {:induction false} AsksFreshAt(events: seq<Event>, j: nat)
    requires AsksFresh(events) && j < |events| && events[j].NackSent?
    ensures !HandedOn(events[..j], events[j].frameId) && OpenedAt(events[..j], events[j].frameId).Some?
  {
    var n := |events| - 1;
    if j < n {
      AsksFreshAt(events[..n], j);
      assert events[..n][..j] == events[..j];
    }
  }

  lemma {:induction false} ReopenedSince(events: seq<Event>, i: nat, id: U32) returns (k: nat)
    requires i < |events| && events[i].Emit? && events[i].frame.frameId == id && !HandedOn(events, id)
    ensures i < k < |events| && events[k].Opened? && events[k].frameId == id
  {
    var n := |events| - 1;
    if events[n].Opened? && events[n].frameId == id {
      k := n;
    } else {
      k := ReopenedSince(events[..n], i, id);
    }
  }

  /**
   * In any run: when a NACK asks for packets of a frame that has been handed on before, a late copy has opened a new
   * assembly for it in between. So what has been handed on is never asked for unless it comes in again.
   */
  lemma NackAfterHandOver(ops: seq<Op>, timeout: int, pool: set<Packet>, i: nat, j: nat) returns (k: nat)
    requires PositiveTimes(ops) && Arrivals(ops, pool)
    requires var events := Run(START, ops, timeout).events;
      && i < j < |events| && events[i].Emit? && events[j].NackSent?
      && events[i].frame.frameId == events[j].frameId
    ensures var events := Run(START, ops, timeout).events;
      i < k < j && events[k].Opened? && events[k].frameId == events[j].frameId
  {
    hide Run;
    var events := Run(START, ops, timeout).events;
    RunFresh(ops, timeout, pool);
    AsksFreshAt(events, j);
    k := ReopenedSince(events[..j], i, events[j].frameId);
  }
}

/** Nothing waits for ever behind an unfinished frame, as long as that frame is in the buffer. */
module GivingUp {
  import opened Words
  import opened FrameGate
  import opened GateInvariant
  import opened GateLimits
  import opened Confluence

  /** The frame that is due is in the buffer, under assembly or announced, since time `since`. */
  predicate Holds(g: Gate, id: U32, since: int) {
    g.synced && g.next == Some(id) && id in g.frames && g.frames[id].firstSeen == since
  }

  /** From event `n` on a frame has been emitted or synchronisation lost. */
  predicate Resolved(events: seq<Event>, n: nat) {
    exists e :: n <= e < |events| && (events[e].Emit? || events[e].Lost?)
  }

  lemma ResolvedByLast(events: seq<Event>, more: seq<Event>, n: nat, k: nat)
    requires n <= |events| && k < |more| && (more[k].Emit? || more[k].Lost?)
    ensures Resolved(events + more, n)
  {
    assert (events + more)[|events| + k] == more[k];
  }

  lemma ResolvedBefore(events: seq<Event>, more: seq<Event>, n: nat)
    requires Resolved(events, n)
    ensures Resolved(events + more, n)
  {
    var e :| n <= e < |events| && (events[e].Emit? || events[e].Lost?);
    assert (events + more)[e] == events[e];
  }

  lemma HeldArrival(g: Gate, id: U32, since: int, p: Packet, now: int)
    requires Holds(g, id, since) && since > 0 && Process(g, p, now).synced
    ensures Holds(Process(g, p, now), id, since)
  {
    hide Announce, Store, Place, Opening;
    if !(Usable(p) && g.epoch == Some(p.metadata.value.epoch)) {
      StrangerLoses(g, p, now);
    } else {
      var md := p.metadata.value;
      AnnounceShape(g, md, now);
      TakenIn(g, p, now);
      if md.frameId == id {
        FoundFirst(Announce(g, md, now).frames, p, md, now);
        OwnPlaced(g, p, now);
        PlaceKeepsTime(g.frames[id], p, md.index);
      }
    }
  }

  lemma PlaceKeepsTime(f: Assembly, p: Packet, index: nat)
    ensures Place(f, p, index).firstSeen == f.firstSeen
  {
  }

  lemma HeldDrain(g: Gate, id: U32, since: int, at: int, timeout: int)
    requires Holds(g, id, since)
    ensures var r := Drain(g, at, timeout);
      || (r.events != [] && (r.events[0].Emit? || r.events[0].Lost?))
      || (at < since + timeout && r == Outcome(g, []))
  {
    hide Complete, FrameOf;
  }

  lemma HeldPoll(g: Gate, id: U32, since: int, at: int, timeout: int)
    requires Holds(g, id, since)
    ensures Holds(Poll(g, at, timeout).gate, id, since)
  {
    hide Poll;
    PollMarks(g, at, timeout, id);
  }

  /** One step: something happens, or the frame is still held and no drain has come after its deadline. */
  lemma HeldStep(g: Gate, id: U32, since: int, op: Op, timeout: int)
    requires Holds(g, id, since) && since > 0
    ensures var r := Step(g, op, timeout);
      || (exists k :: 0 <= k < |r.events| && (r.events[k].Emit? || r.events[k].Lost?))
      || (Holds(r.gate, id, since) && (op.DrainAt? ==> op.at < since + timeout))
  {
    hide Process, Drain, Poll, Births;
    match op
    case Arrive(p, at) =>
      if Process(g, p, at).synced {
        HeldArrival(g, id, since, p, at);
      } else {
        assert Receive(g, p, at).events[|Births(g, p, at)|] == Lost;
      }
    case DrainAt(at) => HeldDrain(g, id, since, at, timeout);
    case PollAt(at) => HeldPoll(g, id, since, at, timeout);
    case InvalidateSync => assert Invalidate(g).events[0] == Lost;
  }

  lemma {:induction false} HeldRun(ops: seq<Op>, n: nat, k: nat, id: U32, since: int, timeout: int)
    requires n <= k <= |ops| && Holds(Run(START, ops[..n], timeout).gate, id, since) && since > 0
    ensures var a, b := Run(START, ops[..n], timeout), Run(START, ops[..k], timeout);
      && |a.events| <= |b.events| && (Resolved(b.events, |a.events|) || Holds(b.gate, id, since))
    decreases k
  {
    hide Run, Step, Holds, Resolved;
    if n < k {
      HeldRun(ops, n, k - 1, id, since, timeout);
      RunPrefix(START, ops, k - 1, timeout);
      StepOn(Run(START, ops[..k - 1], timeout), ops[k - 1], |Run(START, ops[..n], timeout).events|, id, since, timeout);
    }
  }

  /** One step further: what has happened stays, and a drain after the deadline makes something happen. */
  lemma StepOn(before: Outcome, op: Op, n: nat, id: U32, since: int, timeout: int)
    requires n <= |before.events| && (Resolved(before.events, n) || Holds(before.gate, id, since)) && since > 0
    ensures var last := Step(before.gate, op, timeout);
      var events := before.events + last.events;
      && (Resolved(events, n) || Holds(last.gate, id, since))
      && (op.DrainAt? && op.at >= since + timeout ==> Resolved(events, n))
  {
    hide Step, Holds, Resolved;
    var last := Step(before.gate, op, timeout);
    if Resolved(before.events, n) {
      ResolvedBefore(before.events, last.events, n);
    } else {
      HeldStep(before.gate, id, since, op, timeout);
      if k :| 0 <= k < |last.events| && (last.events[k].Emit? || last.events[k].Lost?) {
        ResolvedByLast(before.events, last.events, n, k);
      }
    }
  }

  /**
   * In any run: if at some moment the frame that is due is in the buffer, then by the first drain after its deadline,
   * whatever happens in between, a frame has been emitted or synchronisation given up.
   */
  lemma DueFrameResolved(ops: seq<Op>, n: nat, k: nat, timeout: int, pool: set<Packet>)
    requires PositiveTimes(ops) && Arrivals(ops, pool) && n <= k < |ops| && ops[k].DrainAt?
    requires var g := Run(START, ops[..n], timeout).gate;
      && g.synced && g.next.Some? && g.next.value in g.frames
      && ops[k].at >= g.frames[g.next.value].firstSeen + timeout
    ensures Resolved(Run(START, ops[..k + 1], timeout).events, |Run(START, ops[..n], timeout).events|)
  {
    hide Run, Step, Resolved, SlotsOk;
    var g := Run(START, ops[..n], timeout).gate;
    RunSound(ops[..n], timeout, pool);
    var id := g.next.value;
    var since := g.frames[id].firstSeen;
    HeldRun(ops, n, k, id, since, timeout);
    RunPrefix(START, ops, k, timeout);
    StepOn(Run(START, ops[..k], timeout), ops[k], |Run(START, ops[..n], timeout).events|, id, since, timeout);
  }

  /** Synchronised, and of the frame that is due nothing is in the buffer. */
  predicate Unseen(g: Gate) {
    g.synced && g.next.Some? && g.next.value !in g.frames
  }

  /** The exception: while nothing of the due frame is in the buffer, time alone never resolves anything. */
  lemma {:induction false} UnseenWaits(g: Gate, ops: seq<Op>, timeout: int)
    requires Unseen(g) && forall i | 0 <= i < |ops| :: ops[i].DrainAt? || ops[i].PollAt?
    ensures var r := Run(g, ops, timeout); Unseen(r.gate) && r.gate.next == g.next && !Resolved(r.events, 0)
  {
    hide Poll;
    if ops != [] {
      var n := |ops| - 1;
      UnseenWaits(g, ops[..n], timeout);
      var before := Run(g, ops[..n], timeout);
      if ops[n].PollAt? {
        PollMarks(before.gate, ops[n].at, timeout, g.next.value);
        PollQuiet(before.gate, ops[n].at, timeout);
      }
    }
  }

  lemma PollQuiet(g: Gate, at: int, timeout: int)
    ensures OnlyNacks(Poll(g, at, timeout).events, at)
  {
    hide Nacks;
    NacksOnly(g.frames, InOrder(g.frames.Keys), at, timeout);
  }
}

/** Runs from the start in which the gate's limits show. */
module Witnesses {
  import opened Words
  import opened Rtp
  import opened StampedPacket
  import opened FrameGate
  import opened GateInvariant
  import opened DecodeSafety
  import opened GateLimits
  import opened Confluence
  import opened Resynchronisation
  import opened ConfluenceLimits
  import NackBudget

  /** One keyframe, drained: the gate waits for the next frame with an empty buffer. */
  lemma KeyframeOut(timeout: int) returns (ops: seq<Op>)
    ensures PositiveTimes(ops)
    ensures var g := Run(START, ops, timeout).gate;
      g.synced && g.epoch == Some(1) && g.next == Some(2) && g.frames == map[]
  {
    hide Run, Process, Drain, Births;
    var key := Made(1, 0, 1, true);
    ops := [Arrive(key, 1)] + [DrainAt(1)];
    KeyAlone(key, 1);
    RunNothing(START, timeout);
    assert [] + [Arrive(key, 1)] == [Arrive(key, 1)];
    RunStep(START, [], Arrive(key, 1), timeout);
    RunStep(START, [Arrive(key, 1)], DrainAt(1), timeout);
    LowestKeyframe(Process(START, key, 1), 1, 1, timeout);
  }

  /** Two frames of one packet each: in frame order both are taken in, the other way round synchronisation is lost. */
  lemma OvertakingHappens(timeout: int) returns (ops: seq<Op>, p: Packet, q: Packet)
    ensures PositiveTimes(ops) && Usable(p) && Usable(q)
    ensures p.metadata.value.frameId == 3 && q.metadata.value.frameId == 2
    ensures var g := Run(START, ops, timeout).gate;
      && g.synced && g.next == Some(2)
      && Process(Process(g, q, 1), p, 1).synced
      && Process(g, p, 1).synced && !Process(Process(g, p, 1), q, 1).synced
  {
    hide Run, Process, Ids;
    ops := KeyframeOut(timeout);
    p, q := Made(3, 0, 1, false), Made(2, 0, 1, false);
    var g := Run(START, ops, timeout).gate;
    OvertakingAbsorbedExactly(g, p, q, 1, 1);
    IdsSize(2, 4);
    assert Reach(g, 3) == Ids(2, 4);
    KeepsSyncExactly(g, p, 1);
    OpensNext(g, q);
    var r := Process(g, q, 1);
    assert r.frames.Keys == {2};
    TwoIn(Ids(2, 4));
    assert Reach(r, 3) == Ids(2, 4);
    KeepsSyncExactly(r, p, 1);
  }

  lemma TwoIn(ids: set<U32>)
    requires ids == Ids(2, 4)
    ensures {2} + ids == ids
  {
  }

  function Last(): Packet {
    Packet(Msg(false, []), Some(Metadata(1, 1, 1, 2, true)), 1, true)
  }

  /** Both packets of a keyframe. */
  lemma BothIn() returns (g: Gate)
    ensures g == Process(Process(START, Made(1, 0, 2, true), 1), Last(), 1)
    ensures !g.synced && g.epoch == Some(1) && g.frames.Keys == {1}
    ensures g.frames[1].frameId == 1 && Decodable(g.frames[1])
  {
    var first := Made(1, 0, 2, true);
    var g1 := Process(START, first, 1);
    assert g1.frames.Keys == {1} && g1.frames[1].packets == [Some(first), None];
    assert g1.frames.Keys + {1} == {1};
    StoresCleanly(g1, Last(), 1);
    g := Process(g1, Last(), 1);
    assert g.frames[1].packets == [Some(first), Some(Last())];
  }

  /** A late copy of the last packet opens an assembly that asks for the other one at the next poll. */
  lemma LateCopyOpens(g: Gate, timeout: int)
    requires timeout > 0 && g.synced && g.epoch == Some(1) && g.next == Some(2) && g.frames == map[]
    ensures var r := Process(g, Last(), 1); 1 in r.frames && Due(r.frames[1], 1, timeout)
  {
    assert g.frames.Keys + {1} == {1};
    StoresCleanly(g, Last(), 1);
    var f := Process(g, Last(), 1).frames[1];
    assert f.packets == [None, Some(Last())];
    assert f.packets[0].None?;
  }

  function FiveSteps(): seq<Op> {
    [Arrive(Made(1, 0, 2, true), 1)] + [Arrive(Last(), 1)] + [DrainAt(1)] + [Arrive(Last(), 1)] + [PollAt(1)]
  }

  lemma FiveStepsLead(timeout: int)
    ensures var g2 := Process(Process(START, Made(1, 0, 2, true), 1), Last(), 1);
      var drained := Drain(g2, 1, timeout);
      var polled := Poll(Process(drained.gate, Last(), 1), 1, timeout);
      && Run(START, FiveSteps()[..4], timeout).gate == Process(drained.gate, Last(), 1)
      && exists before, between ::
           Run(START, FiveSteps(), timeout).events == before + drained.events + between + polled.events
  {
    hide Run, Process, Drain, Births, Poll;
    var ops := FiveSteps();
    RunNothing(START, timeout);
    assert ops[..0] == [] && ops[..5] == ops;
    RunPrefix(START, ops, 0, timeout);
    RunPrefix(START, ops, 1, timeout);
    RunPrefix(START, ops, 2, timeout);
    RunPrefix(START, ops, 3, timeout);
    RunPrefix(START, ops, 4, timeout);
    var before := Run(START, ops[..2], timeout);
    var drained := Drain(before.gate, 1, timeout);
    var late := Receive(drained.gate, Last(), 1);
    var polled := Poll(late.gate, 1, timeout);
    assert Run(START, ops, timeout).events == before.events + drained.events + late.events + polled.events;
  }

  lemma FrameOfId(f: Assembly)
    ensures FrameOf(f).frameId == f.frameId
  {
  }

  predicate EmitThenNack(events: seq<Event>, i: nat, j: nat, id: U32) {
    && i < j < |events| && events[i].Emit? && events[i].frame.frameId == id
    && events[j].NackSent? && events[j].frameId == id
  }

  /** A frame that has been handed on is asked for again: a late copy of one packet, then a poll. */
  lemma HandedOnAskedAgain(timeout: int) returns (i: nat, j: nat)
    requires timeout > 0
    ensures EmitThenNack(Run(START, FiveSteps(), timeout).events, i, j, 1)
  {
    hide Run, Process, Drain, Poll, Due, FrameOf;
    var g2 := BothIn();
    LowestKeyframe(g2, 1, 1, timeout);
    var drained := Drain(g2, 1, timeout);
    assert drained.gate.frames == map[];
    LateCopyOpens(drained.gate, timeout);
    FiveStepsLead(timeout);
    RunSound(FiveSteps()[..4], timeout, {Made(1, 0, 2, true), Last()});
    var polled := Poll(Process(drained.gate, Last(), 1), 1, timeout);
    NackBudget.DuePollSends(Process(drained.gate, Last(), 1), 1, timeout, {Made(1, 0, 2, true), Last()}, 1);
    var before, between :|
      Run(START, FiveSteps(), timeout).events == before + drained.events + between + polled.events;
    var k :| 0 <= k < |polled.events| && polled.events[k].NackSent? && polled.events[k].frameId == 1;
    i, j := |before|, |before + drained.events + between| + k;
    var events := Run(START, FiveSteps(), timeout).events;
    assert events[i] == drained.events[0] == Emit(FrameOf(g2.frames[1]));
    assert events[j] == polled.events[k];
    FrameOfId(g2.frames[1]);
  }

  function DeltaFirst(): seq<Op> {
    [Arrive(Made(2, 0, 1, false), 1)] + [Arrive(Made(1, 0, 1, true), 1)] + [DrainAt(1)] + [DrainAt(1)]
  }

  lemma BothWhole() returns (g: Gate)
    ensures g == Process(Process(START, Made(2, 0, 1, false), 1), Made(1, 0, 1, true), 1)
    ensures !g.synced && g.epoch == Some(1) && g.frames.Keys == {1, 2}
    ensures g.frames[1].epoch == 1 && g.frames[1].frameId == 1
    ensures Decodable(g.frames[1]) && FrameOf(g.frames[1]) == Frame(1, 1, true, [Made(1, 0, 1, true)])
    ensures Complete(g.frames[2]) && FrameOf(g.frames[2]) == Frame(1, 2, false, [Made(2, 0, 1, false)])
  {
    var delta, key := Made(2, 0, 1, false), Made(1, 0, 1, true);
    var g1 := Process(START, delta, 1);
    assert g1.frames.Keys == {2} && g1.frames[2].packets == [Some(delta)];
    assert |g1.frames.Keys + {1}| == |{1, 2}| by { assert g1.frames.Keys + {1} == {1, 2}; }
    StoresCleanly(g1, key, 1);
    g := Process(g1, key, 1);
    assert g.frames[1].packets == [Some(key)] && g.frames[2] == g1.frames[2];
    assert FrameOf(g.frames[1]).packets == [key] && FrameOf(g.frames[2]).packets == [delta];
  }

  lemma OnlyDue(g: Gate, timeout: int)
    requires g.synced && g.next == Some(2) && g.frames.Keys == {2} && Complete(g.frames[2])
    ensures Drain(g, 1, timeout).events == [Emit(FrameOf(g.frames[2]))]
  {
    hide Complete, FrameOf;
    var rest := Without(g, 2).(completeFrames := g.completeFrames + 1);
    assert Advance(rest, 1, timeout) == Outcome(rest, []);
    var e := Emit(FrameOf(g.frames[2]));
    assert [e] + [] == [e];
    assert Advance(g, 1, timeout).events == [e] + Advance(rest, 1, timeout).events;
  }

  /** Before the first keyframe the order in which frames start need not matter: a delta frame, then its keyframe. */
  lemma EarlyDeltaKept(timeout: int)
    ensures Frames(Run(START, DeltaFirst(), timeout).events) ==
      [Frame(1, 1, true, [Made(1, 0, 1, true)]), Frame(1, 2, false, [Made(2, 0, 1, false)])]
  {
    hide Run, Process, Drain, Births, FrameOf, Complete, Frames;
    var ops := DeltaFirst();
    var g := BothWhole();
    LowestKeyframe(g, 1, 1, timeout);
    var key := Drain(g, 1, timeout);
    assert key.gate.frames.Keys == {2};
    OnlyDue(key.gate, timeout);
    var delta := Drain(key.gate, 1, timeout);
    RunNothing(START, timeout);
    assert ops[..0] == [] && ops[..4] == ops;
    RunPrefix(START, ops, 0, timeout);
    RunPrefix(START, ops, 1, timeout);
    RunPrefix(START, ops, 2, timeout);
    RunPrefix(START, ops, 3, timeout);
    var before := Run(START, ops[..2], timeout).events;
    NothingOutYet(ops, timeout);
    FramesAppend(before, key.events);
    FramesAppend(before + key.events, delta.events);
    var f1, f2 := FrameOf(g.frames[1]), FrameOf(g.frames[2]);
    var e1, ack := Emit(f1), KeyframeAck(f1.epoch, f1.frameId);
    AckEvent([e1], f1);
    assert key.events == [e1] + [ack];
    FramesOfShort(e1);
    FramesOfShort(Emit(f2));
    assert Run(START, ops, timeout).events == before + key.events + delta.events;
    assert [] + [f1] + [f2] == [f1, f2];
  }

  lemma NothingOutYet(ops: seq<Op>, timeout: int)
    requires |ops| >= 2 && ops[0].Arrive? && ops[1].Arrive?
    ensures Frames(Run(START, ops[..2], timeout).events) == []
  {
    hide Run, Process, Births, Frames;
    var first := Receive(START, ops[0].packet, ops[0].at);
    var second := Receive(first.gate, ops[1].packet, ops[1].at);
    assert ops[..0] == [];
    RunNothing(START, timeout);
    RunPrefix(START, ops, 0, timeout);
    RunPrefix(START, ops, 1, timeout);
    ProcessOnlyLoses(START, ops[0].packet, ops[0].at);
    UnsyncedArrival(START, ops[0].packet, ops[0].at);
    UnsyncedArrival(first.gate, ops[1].packet, ops[1].at);
    FramesAppend(first.events, second.events);
    assert [] + first.events == first.events;
  }
}

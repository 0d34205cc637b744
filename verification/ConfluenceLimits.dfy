/** When the assembly of a frame depends on the schedule after all, and that a gate can get there. */
module ConfluenceLimits {
  import opened Words
  import opened StampedPacket
  import opened FrameGate
  import opened GateInvariant
  import opened DecodeSafety
  import opened GateLimits
  import opened Confluence
  import opened Resynchronisation
  import opened Rtp

  /** `Waiting` for one frame, without the conditions on its successor. */
  predicate NextInLine(g: Gate, f: Frame) {
    && g.synced && g.next == Some(f.frameId) && g.epoch == Some(f.epoch)
    && f.frameId !in g.frames && |g.frames| < MAX_FRAMES
  }

  /** The promise of `AssemblyConfluent`, for every schedule. */
  ghost predicate Confluent(g: Gate, f: Frame, timeout: int) {
    forall ops: seq<Op>, start: int
      | && start > 0 && Schedule(ops, [f], start, timeout) && ops != [] && ops[|ops| - 1].DrainAt?
        && AllIn(f, Delivered(ops)) ::
      Settled(Run(g, ops, timeout), f)
  }

  predicate Settled(r: Outcome, f: Frame) {
    Frames(r.events) == [f] && r.gate.synced && r.gate.next == Some(Wrap32(f.frameId + 1))
  }

  function FirstPackets(f: Frame, k: nat): set<Packet>
    requires k <= |f.packets|
  {
    var first := f.packets[..k];
    set p | p in first
  }

  function InOrderArrivals(f: Frame, k: nat, at: int): seq<Op>
    requires k <= |f.packets|
  {
    seq(k, i requires 0 <= i < k => Arrive(f.packets[i], at))
  }

  /** `r` is `g` with an assembly of `f` that holds `got`. */
  predicate Grown(g: Gate, r: Gate, f: Frame, got: set<Packet>, at: int) {
    && f.frameId in r.frames && r == g.(frames := g.frames[f.frameId := r.frames[f.frameId]])
    && Partial(r.frames[f.frameId], f, got, at)
  }

  lemma OneMore(g: Gate, f: Frame)
    requires |g.frames| < MAX_FRAMES
    ensures |g.frames.Keys + {f.frameId}| <= MAX_FRAMES
  {
    UnionSize(g.frames.Keys, {f.frameId});
    assert |g.frames.Keys| == |g.frames|;
  }

  lemma GrowsFirst(g: Gate, f: Frame, p: Packet, at: int)
    requires FramePackets(f) && NextInLine(g, f) && p in f.packets && at > 0
    ensures Grown(g, Process(g, p, at), f, {p}, at)
  {
    hide FramePackets, Process, Partial, Touched;
    OneMore(g, f);
    UntouchedByNothing(f);
    ArrivePartial(g, f, p, at, at, {});
    assert {} + {p} == {p};
  }

  lemma GrowsOn(g: Gate, before: Gate, f: Frame, got: set<Packet>, p: Packet, at: int)
    requires FramePackets(f) && NextInLine(g, f) && p in f.packets && at > 0
    requires Grown(g, before, f, got, at)
    ensures Grown(g, Process(before, p, at), f, got + {p}, at)
  {
    hide FramePackets, Process, Partial;
    OneMore(g, f);
    assert before.frames.Keys + {f.frameId} == g.frames.Keys + {f.frameId};
    ArrivePartial(before, f, p, at, at, got);
  }

  /** The packets in order, with nothing in between: the assembly grows and the rest of the buffer stays. */
  lemma {:induction false} ArrivalsFill(g: Gate, f: Frame, k: nat, at: int, timeout: int)
    requires FramePackets(f) && NextInLine(g, f) && 0 < k <= |f.packets| && at > 0
    ensures Grown(g, Run(g, InOrderArrivals(f, k, at), timeout).gate, f, FirstPackets(f, k), at)
  {
    hide FramePackets, Process, Grown, NextInLine, Run, FirstPackets, InOrderArrivals;
    var ops := InOrderArrivals(f, k - 1, at);
    var before := Run(g, ops, timeout).gate;
    var p := f.packets[k - 1];
    ArrivalsGrow(f, k, at);
    RunStep(g, ops, Arrive(p, at), timeout);
    ReceiveGate(before, p, at);
    FirstPacketsGrow(f, k);
    if k == 1 {
      RunNothing(g, timeout);
      GrowsFirst(g, f, p, at);
      assert {} + {p} == {p};
    } else {
      ArrivalsFill(g, f, k - 1, at, timeout);
      GrowsOn(g, before, f, FirstPackets(f, k - 1), p, at);
    }
  }

  lemma ReceiveGate(g: Gate, p: Packet, now: int)
    ensures Step(g, Arrive(p, now), 0).gate == Receive(g, p, now).gate == Process(g, p, now)
  {
    hide Process, Births;
  }

  lemma RunNothing(g: Gate, timeout: int)
    ensures Run(g, [], timeout) == Outcome(g, [])
  {
  }

  lemma ArrivalsGrow(f: Frame, k: nat, at: int)
    requires 0 < k <= |f.packets|
    ensures InOrderArrivals(f, k, at) == InOrderArrivals(f, k - 1, at) + [Arrive(f.packets[k - 1], at)]
    ensures InOrderArrivals(f, 0, at) == []
  {
  }

  lemma FirstPacketsGrow(f: Frame, k: nat)
    requires 0 < k <= |f.packets|
    ensures FirstPackets(f, k) == FirstPackets(f, k - 1) + {f.packets[k - 1]}
    ensures FirstPackets(f, 0) == {}
  {
    assert f.packets[..k] == f.packets[..k - 1] + [f.packets[k - 1]];
  }

  lemma SomePackets(f: Frame)
    requires FramePackets(f)
    ensures |f.packets| > 0
  {
  }

  /** All packets in order and a drain: the gate stands at its frame, whole. */
  lemma WholeThenDrained(g: Gate, f: Frame, at: int, timeout: int)
    requires FramePackets(f) && NextInLine(g, f) && timeout > 0 && at > 0
    ensures var ops := InOrderArrivals(f, |f.packets|, at);
      var before, all := Run(g, ops, timeout), Run(g, ops + [DrainAt(at)], timeout);
      && Schedule(ops + [DrainAt(at)], [f], at, timeout) && AllIn(f, Delivered(ops + [DrainAt(at)]))
      && before.gate.synced && before.gate.next == g.next
      && f.frameId in before.gate.frames && Complete(before.gate.frames[f.frameId])
      && FrameOf(before.gate.frames[f.frameId]) == f && before.gate.frames - {f.frameId} == g.frames
      && all.gate == Drain(before.gate, at, timeout).gate
      && Frames(all.events) == Frames(before.events) + Frames(Drain(before.gate, at, timeout).events)
  {
    hide FramePackets, Run, Partial, Complete, FrameOf, Drain, Frames;
    SomePackets(f);
    var n := |f.packets|;
    var arrivals := InOrderArrivals(f, n, at);
    var ops := arrivals + [DrainAt(at)];
    forall i | 0 <= i < n ensures f.packets[i] in Delivered(ops) && Among(f.packets[i], [f]) {
      assert ops[i] == Arrive(f.packets[i], at);
      assert [f][0] == f;
    }
    ArrivalsFill(g, f, n, at, timeout);
    var before := Run(g, arrivals, timeout);
    CompleteWhenAllIn(before.gate.frames[f.frameId], f, FirstPackets(f, n), at);
    RunStep(g, arrivals, DrainAt(at), timeout);
    FramesAppend(before.events, Drain(before.gate, at, timeout).events);
  }

  /** A buffered successor leaves with the frame when it is whole, and is given up when it is overdue. */
  lemma SuccessorFollows(g: Gate, f: Frame, at: int, timeout: int)
    requires g.synced && g.next == Some(f.frameId)
    requires f.frameId in g.frames && Complete(g.frames[f.frameId])
    requires Wrap32(f.frameId + 1) in g.frames && Expired(g.frames[Wrap32(f.frameId + 1)], at, timeout)
    ensures var r := Drain(g, at, timeout); |Frames(r.events)| >= 2 || !r.gate.synced
  {
    hide Complete, FrameOf, Frames;
    var id := Wrap32(f.frameId + 1);
    var after := Without(g, f.frameId).(completeFrames := g.completeFrames + 1);
    var second := g.frames[id];
    var rest := Advance(after, at, timeout);
    var first := Emit(FrameOf(g.frames[f.frameId]));
    assert after.next == Some(id) && after.frames[id] == second;
    assert Drain(g, at, timeout) == Outcome(rest.gate, [first] + rest.events);
    if Complete(second) {
      var e := Emit(FrameOf(second));
      var tail := Advance(Without(after, id).(completeFrames := after.completeFrames + 1), at, timeout).events;
      assert rest.events == [e] + tail;
      FramesAppend([first], [e] + tail);
      FramesAppend([e], tail);
      FramesOfShort(first);
      FramesOfShort(e);
    }
  }

  lemma BufferedSuccessor(g: Gate, f: Frame, at: int, timeout: int)
    requires FramePackets(f) && NextInLine(g, f) && timeout > 0 && at > 0
    requires Wrap32(f.frameId + 1) in g.frames && Expired(g.frames[Wrap32(f.frameId + 1)], at, timeout)
    ensures !Confluent(g, f, timeout)
  {
    hide FramePackets, Run, Drain, Frames, Complete, FrameOf, Expired, Schedule, Delivered, AllIn, InOrderArrivals;
    var arrivals := InOrderArrivals(f, |f.packets|, at);
    var ops := arrivals + [DrainAt(at)];
    WholeThenDrained(g, f, at, timeout);
    var before := Run(g, arrivals, timeout).gate;
    var id := Wrap32(f.frameId + 1);
    assert id in before.frames && before.frames[id] == (before.frames - {f.frameId})[id];
    SuccessorFollows(before, f, at, timeout);
    assert !Settled(Run(g, ops, timeout), f);
  }

  /** Past the last id everything is a later frame: a late copy announces more placeholders than the buffer holds. */
  lemma LateCopyOverflows(g: Gate, p: Packet, now: int)
    requires g.synced && g.next == Some(0) && |g.frames| <= MAX_FRAMES
    requires Usable(p) && p.metadata.value.frameId == 0xFFFF_FFFF && 0xFFFF_FFFF !in g.frames
    ensures !Process(g, p, now).synced
  {
    hide Process;
    KeepsSyncExactly(g, p, now);
    IdsSize(0, 65);
    var all := g.frames.Keys + Ids(0, 0x1_0000_0000);
    assert Ids(0, 65) <= all;
    SubsetSize(Ids(0, 65), all);
  }

  /** Only an emitted keyframe restores synchronisation. */
  lemma DrainRestores(g: Gate, at: int, timeout: int)
    requires !g.synced
    ensures var r := Drain(g, at, timeout); r.gate.synced ==> Frames(r.events) != []
  {
    hide FrameOf, Stale, Candidates;
    var r := Drain(g, at, timeout);
    if r.gate.synced {
      FramesAppend([r.events[0]], [r.events[1]]);
      FramesOfShort(r.events[0]);
    }
  }

  lemma StillScheduled(once: seq<Op>, f: Frame, p: Packet, timeout: int)
    requires Schedule(once, [f], 1, timeout) && AllIn(f, Delivered(once)) && p in f.packets && timeout > 0
    ensures var ops := once + [Arrive(p, 1)] + [DrainAt(1)];
      Schedule(ops, [f], 1, timeout) && AllIn(f, Delivered(ops)) && ops[|ops| - 1].DrainAt?
  {
    hide AllIn;
    var ops := once + [Arrive(p, 1)] + [DrainAt(1)];
    assert p in [f][0].packets;
    forall q | q in Delivered(once) ensures q in Delivered(ops) {
      var i :| 0 <= i < |once| && once[i].Arrive? && once[i].packet == q;
      assert ops[i] == once[i];
    }
    MoreIn(f, Delivered(once), Delivered(ops));
  }

  lemma MoreIn(f: Frame, got: set<Packet>, more: set<Packet>)
    requires AllIn(f, got) && got <= more
    ensures AllIn(f, more)
  {
  }

  lemma LastOut(g: Gate, f: Frame, timeout: int)
    requires g.synced && g.next == Some(0xFFFF_FFFF) && 0 !in g.frames && f.frameId == 0xFFFF_FFFF
    requires f.frameId in g.frames && Complete(g.frames[f.frameId]) && FrameOf(g.frames[f.frameId]) == f
    ensures var r := Drain(g, 1, timeout);
      && r.gate.synced && r.gate.next == Some(0) && r.gate.frames == g.frames - {f.frameId} && Frames(r.events) == [f]
  {
    hide Complete, FrameOf, Frames;
    var after := Without(g, f.frameId).(completeFrames := g.completeFrames + 1);
    assert Advance(after, 1, timeout) == Outcome(after, []);
    FramesOfShort(Emit(f));
  }

  /** After the last id a late copy and a drain leave the gate unsynchronised, or another frame has been emitted. */
  lemma LateCopyThenDrain(g: Gate, events: seq<Event>, p: Packet, timeout: int)
    requires g.synced && g.next == Some(0) && |g.frames| <= MAX_FRAMES
    requires Usable(p) && p.metadata.value.frameId == 0xFFFF_FFFF && 0xFFFF_FFFF !in g.frames
    ensures var broken := Receive(g, p, 1);
      var last := Drain(broken.gate, 1, timeout);
      last.gate.synced ==> |Frames(events + broken.events + last.events)| > |Frames(events)|
  {
    hide Process, Drain, Frames, Births;
    var broken := Receive(g, p, 1);
    LateCopyOverflows(g, p, 1);
    DrainRestores(broken.gate, 1, timeout);
    FramesAppend(events, broken.events);
    FramesAppend(events + broken.events, Drain(broken.gate, 1, timeout).events);
  }

  lemma TwoMoreSteps(g: Gate, ops: seq<Op>, p: Packet, timeout: int)
    ensures var before := Run(g, ops, timeout);
      var broken := Receive(before.gate, p, 1);
      var last := Drain(broken.gate, 1, timeout);
      Run(g, ops + [Arrive(p, 1)] + [DrainAt(1)], timeout) ==
        Outcome(last.gate, before.events + broken.events + last.events)
  {
    hide Run, Receive, Drain;
    RunStep(g, ops, Arrive(p, 1), timeout);
    RunStep(g, ops + [Arrive(p, 1)], DrainAt(1), timeout);
  }

  /** The last id: the frame leaves, then a late copy of one of its packets breaks synchronisation. */
  lemma LastIdBreaks(g: Gate, f: Frame, timeout: int)
    requires FramePackets(f) && NextInLine(g, f) && timeout > 0
    requires f.frameId == 0xFFFF_FFFF && 0 !in g.frames
    ensures !Confluent(g, f, timeout)
  {
    hide FramePackets, Run, Frames, Complete, FrameOf, InOrderArrivals, Receive, Drain, Schedule, Delivered, AllIn;
    SomePackets(f);
    var p := f.packets[0];
    var arrivals := InOrderArrivals(f, |f.packets|, 1);
    var once := arrivals + [DrainAt(1)];
    var ops := once + [Arrive(p, 1)] + [DrainAt(1)];
    WholeThenDrained(g, f, 1, timeout);
    StillScheduled(once, f, p, timeout);
    LastOut(Run(g, arrivals, timeout).gate, f, timeout);
    IndexOf(f, p);
    var drained := Run(g, once, timeout);
    LateCopyThenDrain(drained.gate, drained.events, p, timeout);
    TwoMoreSteps(g, once, p, timeout);
    assert !Settled(Run(g, ops, timeout), f);
  }

  /**
   * The exact condition for `AssemblyConfluent`: the successor must not be in the buffer already, and the id must not
   * be the last before ids start again from 0.
   */
  lemma ConfluentExactly(g: Gate, f: Frame, timeout: int)
    requires FramePackets(f) && NextInLine(g, f) && timeout > 0
    ensures Confluent(g, f, timeout) <==> f.frameId != 0xFFFF_FFFF && f.frameId + 1 !in g.frames
  {
    hide FramePackets, Run, Frames, Schedule, Delivered, AllIn, Wrap32;
    var successor := Wrap32(f.frameId + 1);
    if successor in g.frames {
      var overdue := g.frames[successor].firstSeen + timeout;
      BufferedSuccessor(g, f, if overdue > 0 then overdue else 1, timeout);
      WrapCases(f);
    } else if f.frameId == 0xFFFF_FFFF {
      WrapCases(f);
      LastIdBreaks(g, f, timeout);
    } else {
      WrapCases(f);
      forall ops: seq<Op>, start: int
        | && start > 0 && Schedule(ops, [f], start, timeout) && ops != [] && ops[|ops| - 1].DrainAt?
          && AllIn(f, Delivered(ops))
        ensures Settled(Run(g, ops, timeout), f)
      {
        AssemblyConfluent(g, ops, f, start, timeout);
      }
    }
  }

  lemma WrapCases(f: Frame)
    ensures Wrap32(f.frameId + 1) == if f.frameId == 0xFFFF_FFFF then 0 else f.frameId + 1
  {
  }

  // ---------------------------------------------------------------- both exceptions occur

  function Made(id: U32, index: U16, count: U16, keyframe: bool): Packet {
    Packet(Msg(false, []), Some(Metadata(1, id, index, count, keyframe)), 0, false)
  }

  /** A keyframe just below the last id leaves the gate waiting for the last one. */
  lemma LastIdHappens(timeout: int) returns (ops: seq<Op>, f: Frame)
    requires timeout > 0
    ensures PositiveTimes(ops) && FramePackets(f) && NextInLine(Run(START, ops, timeout).gate, f)
    ensures f.frameId == 0xFFFF_FFFF && !Confluent(Run(START, ops, timeout).gate, f, timeout)
  {
    hide Confluent, Run, Process, Drain, Births;
    var key := Made(0xFFFF_FFFE, 0, 1, true);
    ops := [Arrive(key, 1)] + [DrainAt(1)];
    f := Frame(1, 0xFFFF_FFFF, false, [Made(0xFFFF_FFFF, 0, 1, false)]);
    var g := Process(START, key, 1);
    KeyAlone(key, 0xFFFF_FFFE);
    RunNothing(START, timeout);
    assert [] + [Arrive(key, 1)] == [Arrive(key, 1)];
    RunStep(START, [], Arrive(key, 1), timeout);
    RunStep(START, [Arrive(key, 1)], DrainAt(1), timeout);
    LowestKeyframe(g, 0xFFFF_FFFE, 1, timeout);
    ConfluentExactly(Run(START, ops, timeout).gate, f, timeout);
  }

  lemma KeyAlone(key: Packet, id: U32)
    requires key == Made(id, 0, 1, true)
    ensures var g := Process(START, key, 1);
      && !g.synced && g.epoch == Some(1) && g.frames.Keys == {id}
      && Decodable(g.frames[id]) && g.frames[id].frameId == id
  {
    var g := Process(START, key, 1);
    assert g.frames.Keys == {id};
    assert g.frames[id].packets == [Some(key)];
  }

  /** The first packet of a frame directly behind what is buffered opens its assembly and nothing else. */
  lemma OpensNext(g: Gate, p: Packet)
    requires Usable(p) && g.epoch == Some(p.metadata.value.epoch) && g.next.Some? && |g.frames| < MAX_FRAMES
    requires p.metadata.value.frameId !in g.frames
    requires forall id: U32 | g.next.value <= id < p.metadata.value.frameId :: id in g.frames
    ensures var md := p.metadata.value;
      Process(g, p, 1) == g.(frames := g.frames[md.frameId := Place(Opening(g.frames, p, md, 1), p, md.index)])
  {
    hide Process, Place;
    UnionSize(g.frames.Keys, {p.metadata.value.frameId});
    assert |g.frames.Keys| == |g.frames|;
    StoresCleanly(g, p, 1);
  }

  /** The first of two packets of a keyframe, the only packet of a delta frame, then the first of two of another. */
  lemma ThreeStarted(key: Packet, delta: Packet, third: Packet) returns (g: Gate)
    requires key == Made(1, 0, 2, true) && delta == Made(2, 0, 1, false) && third == Made(3, 0, 2, false)
    ensures g == Process(Process(Process(START, key, 1), delta, 1), third, 1)
    ensures !g.synced && g.epoch == Some(1) && g.next == Some(1) && g.frames.Keys == {1, 2, 3}
    ensures g.frames[1] == Assembly(1, 1, 2, 0, true, false, 1, 0, [Some(key), None])
    ensures g.frames[2] == Assembly(1, 2, 1, 0, false, false, 1, 0, [Some(delta)])
    ensures g.frames[3] == Assembly(1, 3, 2, 0, false, false, 1, 0, [Some(third), None])
  {
    var g1 := Process(START, key, 1);
    assert g1.frames.Keys == {1} && g1.frames[1].packets == [Some(key), None];
    OpensNext(g1, delta);
    var g2 := Process(g1, delta, 1);
    assert g2.frames.Keys == {1, 2} && g2.frames[2].packets == [Some(delta)];
    OpensNext(g2, third);
    g := Process(g2, third, 1);
    assert g.frames.Keys == {1, 2, 3} && g.frames[3].packets == [Some(third), None];
  }

  /** The scan throws away the whole delta frame and keeps the two incomplete ones. */
  lemma ScanDropsDelta(g: Gate, timeout: int)
    requires timeout > 0 && !g.synced && g.frames.Keys == {1, 2, 3}
    requires forall id | id in g.frames :: g.frames[id].firstSeen == 1
    requires !Complete(g.frames[1]) && Complete(g.frames[2]) && !g.frames[2].keyframe && !Complete(g.frames[3])
    ensures var r := Drain(g, 1, timeout).gate;
      && !r.synced && r.epoch == g.epoch && r.next == g.next && r.frames.Keys == {1, 3}
      && r.frames[1] == g.frames[1] && r.frames[3] == g.frames[3]
  {
    hide Complete;
    assert Candidates(g.frames) == {};
    assert Stale(g.frames, 0x1_0000_0000, 1, timeout) == {2};
  }

  /** The keyframe's other packet. */
  lemma KeyCompletes(g: Gate, key: Packet, rest: Packet)
    requires rest == Made(1, 1, 2, true) && g.epoch == Some(1) && g.next == Some(1) && g.frames.Keys == {1, 3}
    requires g.frames[1] == Assembly(1, 1, 2, 0, true, false, 1, 0, [Some(key), None])
    ensures var r := Process(g, rest, 1);
      r == g.(frames := g.frames[1 := Assembly(1, 1, 2, 0, true, false, 1, 0, [Some(key), Some(rest)])])
  {
    assert g.frames.Keys + {1} == {1, 3};
    assert [Some(key), None][1 := Some(rest)] == [Some(key), Some(rest)];
    StoresCleanly(g, rest, 1);
  }

  /** The keyframe is emitted; the incomplete frame two ids on stays. */
  lemma ThirdStays(g: Gate, timeout: int)
    requires !g.synced && g.epoch == Some(1) && g.frames.Keys == {1, 3}
    requires Decodable(g.frames[1]) && g.frames[1].frameId == 1 && !Complete(g.frames[3])
    ensures var r := Drain(g, 1, timeout).gate;
      r.synced && r.epoch == Some(1) && r.next == Some(2) && r.frames.Keys == {3}
  {
    hide Complete, Drain;
    LowestKeyframe(g, 1, 1, timeout);
  }

  function SixSteps(key: Packet, rest: Packet, delta: Packet, third: Packet): seq<Op> {
    [Arrive(key, 1)] + [Arrive(delta, 1)] + [Arrive(third, 1)] + [DrainAt(1)] + [Arrive(rest, 1)] + [DrainAt(1)]
  }

  lemma SixStepsLead(key: Packet, rest: Packet, delta: Packet, third: Packet, timeout: int)
    ensures Run(START, SixSteps(key, rest, delta, third), timeout).gate
      == Drain(Process(Drain(Process(Process(Process(START, key, 1), delta, 1), third, 1), 1, timeout).gate, rest, 1),
               1, timeout).gate
  {
    hide Run, Process, Drain, Births;
    var a1 := [Arrive(key, 1)];
    var a2 := a1 + [Arrive(delta, 1)];
    var a3 := a2 + [Arrive(third, 1)];
    var a4 := a3 + [DrainAt(1)];
    var a5 := a4 + [Arrive(rest, 1)];
    RunNothing(START, timeout);
    assert [] + a1 == a1;
    RunStep(START, [], Arrive(key, 1), timeout);
    RunStep(START, a1, Arrive(delta, 1), timeout);
    RunStep(START, a2, Arrive(third, 1), timeout);
    RunStep(START, a3, DrainAt(1), timeout);
    RunStep(START, a4, Arrive(rest, 1), timeout);
    RunStep(START, a5, DrainAt(1), timeout);
  }

  /**
   * A buffered successor: while the keyframe is incomplete, the scan throws away the whole delta frame behind it but
   * keeps the incomplete one after that, and then the keyframe is completed.
   */
  lemma BufferedSuccessorHappens(timeout: int) returns (ops: seq<Op>, f: Frame)
    requires timeout > 0
    ensures PositiveTimes(ops) && FramePackets(f) && NextInLine(Run(START, ops, timeout).gate, f)
    ensures f.frameId + 1 in Run(START, ops, timeout).gate.frames
    ensures !Confluent(Run(START, ops, timeout).gate, f, timeout)
  {
    hide Confluent, FrameOf, Run, Process, Drain;
    var key, rest, delta, third := Made(1, 0, 2, true), Made(1, 1, 2, true), Made(2, 0, 1, false), Made(3, 0, 2, false);
    ops, f := SixSteps(key, rest, delta, third), Frame(1, 2, false, [delta]);
    var g3 := ThreeStarted(key, delta, third);
    assert g3.frames[1].packets[1].None? && g3.frames[3].packets[1].None?;
    ScanDropsDelta(g3, timeout);
    var g4 := Drain(g3, 1, timeout).gate;
    KeyCompletes(g4, key, rest);
    ThirdStays(Process(g4, rest, 1), timeout);
    SixStepsLead(key, rest, delta, third, timeout);
    ConfluentExactly(Run(START, ops, timeout).gate, f, timeout);
  }
}

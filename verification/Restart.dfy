/** A keyframe and the frames behind it from an unsynchronised gate: exactly when all of them leave. */
module Restart {
  import opened Words
  import opened FrameGate
  import opened GateInvariant
  import opened DecodeSafety
  import opened Confluence
  import opened Resynchronisation
  import opened NackBudget

  /** No packet arrives twice. */
  predicate NoRepeats(ops: seq<Op>) {
    forall i, j | 0 <= i < j < |ops| && ops[i].Arrive? && ops[j].Arrive? :: ops[i].packet != ops[j].packet
  }

  /** Of frame `id` there is nothing that could become whole. */
  predicate Dead(g: Gate, id: U32) {
    id in g.frames ==> g.frames[id].count == 0
  }

  predicate NoneOf(frames: seq<Frame>, id: U32) {
    forall i | 0 <= i < |frames| :: frames[i].frameId != id
  }

  lemma ShrunkDead(g: Gate, r: Gate, id: U32)
    requires Dead(g, id) && Shrunk(g, r)
    ensures Dead(r, id)
  {
  }

  lemma {:induction false} AdvanceDead(g: Gate, id: U32, at: int, timeout: int, pool: set<Packet>)
    requires Dead(g, id) && Sound(g, pool)
    ensures var r := Advance(g, at, timeout); Dead(r.gate, id) && NoneOf(Frames(r.events), id)
    decreases |g.frames|
  {
    hide SlotsOk, Expired, Frames;
    FramesOfShort(Lost);
    if g.next.Some? && g.next.value in g.frames {
      var k := g.next.value;
      var f := g.frames[k];
      if Complete(f) {
        var g' := Without(g, k).(completeFrames := g.completeFrames + 1);
        var e := Emit(FrameOf(f));
        AdvanceDead(g', id, at, timeout, pool);
        FramesAppend([e], Advance(g', at, timeout).events);
        FramesOfShort(e);
      } else if Expired(f, at, timeout) {
        LostNoFrame();
      }
    }
  }

  lemma LostNoFrame()
    ensures Frames([Lost]) == []
  {
    NoFrames([Lost]);
  }

  lemma ResyncDead(g: Gate, id: U32, at: int, timeout: int, pool: set<Packet>)
    requires Dead(g, id) && Sound(g, pool)
    ensures var r := Resync(g, at, timeout); Dead(r.gate, id) && NoneOf(Frames(r.events), id)
  {
    hide SlotsOk, Stale, Frames;
    ResyncShrinks(g, at, timeout);
    ShrunkDead(g, Resync(g, at, timeout).gate, id);
    FramesOfShort(Lost);
    if Candidates(g.frames) != {} {
      var f := g.frames[Least(Candidates(g.frames))];
      var e, ack := Emit(FrameOf(f)), KeyframeAck(f.epoch, f.frameId);
      FramesAppend([e], [ack]);
      FramesOfShort(e);
      NoFrames([ack]);
      assert [e] + [ack] == [e, ack];
    }
  }

  lemma ArriveDead(g: Gate, id: U32, p: Packet, now: int, pool: set<Packet>)
    requires Dead(g, id) && Sound(g, pool) && now > 0 && p.metadata.Some? && p.metadata.value.frameId != id
    ensures var r := Receive(g, p, now); Dead(r.gate, id) && Frames(r.events) == []
  {
    hide Process, Sound, Opens;
    ProcessAccounted(g, p, now, pool);
    NoFrames(Receive(g, p, now).events);
    if id in Process(g, p, now).frames {
      assert Accounted(g, Process(g, p, now), Births(g, p, now), id, now);
    }
  }

  lemma PollDead(g: Gate, id: U32, at: int, timeout: int)
    requires Dead(g, id)
    ensures Dead(Poll(g, at, timeout).gate, id)
  {
    hide Poll;
    PollMarks(g, at, timeout, id);
  }

  lemma DeadStep(g: Gate, id: U32, op: Op, timeout: int, pool: set<Packet>)
    requires Dead(g, id) && Sound(g, pool)
    requires op.Arrive? ==> op.at > 0 && op.packet.metadata.Some? && op.packet.metadata.value.frameId != id
    ensures var r := Step(g, op, timeout); Dead(r.gate, id) && NoneOf(Frames(r.events), id)
  {
    hide Sound, Advance, Resync, Receive, Poll, Dead, Frames;
    match op
    case Arrive(p, at) => ArriveDead(g, id, p, at, pool);
    case DrainAt(at) =>
      AdvanceDead(g, id, at, timeout, pool);
      ResyncDead(g, id, at, timeout, pool);
    case PollAt(at) =>
      PollDead(g, id, at, timeout);
      PollMarks(g, at, timeout, id);
    case InvalidateSync =>
      NoFrames(Invalidate(g).events);
      InvalidateDead(g, id);
  }

  lemma InvalidateDead(g: Gate, id: U32)
    ensures Dead(Invalidate(g).gate, id)
  {
  }

  /** The first drain that finds a later frame whole too early. */
  lemma {:induction false} FirstImpatient(ops: seq<Op>, fs: seq<Frame>) returns (d: nat)
    requires !Patient(ops, fs)
    ensures d < |ops| && ops[d].DrainAt? && Patient(ops[..d], fs) && !NotAhead(fs, Delivered(ops[..d]))
  {
    hide NotAhead, Delivered;
    var n := |ops| - 1;
    PatientNext(ops, fs);
    if Patient(ops[..n], fs) {
      d := n;
    } else {
      d := FirstImpatient(ops[..n], fs);
      assert ops[..n][..d] == ops[..d];
    }
  }

  /** Some frame can no longer leave, or another one has left first. */
  predicate Missed(r: Outcome, fs: seq<Frame>, j: nat)
    requires j < |fs|
  {
    || (Frames(r.events) != [] && Frames(r.events)[0].frameId != fs[0].frameId)
    || (Dead(r.gate, fs[j].frameId) && NoneOf(Frames(r.events), fs[j].frameId))
  }

  lemma MissedNotAll(r: Outcome, fs: seq<Frame>, j: nat)
    requires j < |fs| && Missed(r, fs, j)
    ensures Frames(r.events) != fs
  {
    hide Frames;
  }

  lemma MissedStep(before: Outcome, fs: seq<Frame>, j: nat, op: Op, timeout: int, pool: set<Packet>)
    requires j < |fs| && Missed(before, fs, j) && Sound(before.gate, pool)
    requires op.Arrive? ==>
      op.at > 0 && op.packet.metadata.Some? && op.packet.metadata.value.frameId != fs[j].frameId
    ensures var last := Step(before.gate, op, timeout);
      Missed(Outcome(last.gate, before.events + last.events), fs, j)
  {
    hide Sound, Step, Dead, Frames;
    var last := Step(before.gate, op, timeout);
    FramesAppend(before.events, last.events);
    if Dead(before.gate, fs[j].frameId) {
      DeadStep(before.gate, fs[j].frameId, op, timeout, pool);
    }
  }

  lemma OnceOut(g: Gate, events: seq<Event>, fs: seq<Frame>, got: set<Packet>, start: int)
    requires Succession(fs) && Regaining(g, events, fs, got, start) && !AllIn(fs[0], got)
    ensures Frames(events) == [] && Collecting(g, fs, got, start)
  {
    hide FramePackets, AllIn, Collecting, InPlace;
    if Frames(events) != [] {
      FirstIn(g, fs, got, start, |Frames(events)|);
    }
  }

  lemma FirstIn(g: Gate, fs: seq<Frame>, got: set<Packet>, start: int, m: nat)
    requires Succession(fs) && InPlace(g, fs, got, start, m) && m > 0
    ensures AllIn(fs[0], got)
  {
    hide FramePackets, AllIn;
    assert Gone(g.frames, fs[0], got, start);
  }

  /** Another frame is there whole before the keyframe is: it is buffered, and the keyframe cannot be resumed at. */
  lemma WholeTooEarly(g: Gate, fs: seq<Frame>, got: set<Packet>, start: int, j: nat)
    requires Succession(fs) && Collecting(g, fs, got, start) && j < |fs| && AllIn(fs[j], got) && !AllIn(fs[0], got)
    ensures !g.synced && fs[j].frameId in g.frames && Complete(g.frames[fs[j].frameId])
    ensures fs[0].frameId !in g.frames || !Complete(g.frames[fs[0].frameId])
  {
    hide FramePackets, Partial, Touched, AllIn, Complete, Spacious;
    FrameOfSuccession(fs, j);
    AllTouched(fs[j], got);
    assert Open(g.frames, fs[j], got, start) && Open(g.frames, fs[0], got, start);
    CompleteWhenAllIn(g.frames[fs[j].frameId], fs[j], got, start);
    if fs[0].frameId in g.frames {
      CompleteWhenAllIn(g.frames[fs[0].frameId], fs[0], got, start);
    }
  }

  /** The scan throws the later frame away, or resumes at some other one. */
  lemma ScanMisses(g: Gate, first: U32, later: U32, at: int, timeout: int, pool: set<Packet>)
    requires Sound(g, pool) && !g.synced && later in g.frames && Complete(g.frames[later])
    requires first !in g.frames || !Complete(g.frames[first])
    ensures var r := Drain(g, at, timeout);
      if r.events == [] then Dead(r.gate, later) else Frames(r.events) != [] && Frames(r.events)[0].frameId != first
  {
    hide SlotsOk, Complete, Frames;
    if Candidates(g.frames) == {} {
      assert later !in Candidates(g.frames);
      assert later in Stale(g.frames, 0x1_0000_0000, at, timeout);
    } else {
      var f := g.frames[Least(Candidates(g.frames))];
      var e, ack := Emit(FrameOf(f)), KeyframeAck(f.epoch, f.frameId);
      FramesAppend([e], [ack]);
      FramesOfShort(e);
      NoFrames([ack]);
      assert [e] + [ack] == [e, ack];
    }
  }

  lemma MissedByDrain(before: Outcome, fs: seq<Frame>, got: set<Packet>, start: int, at: int, timeout: int,
                      pool: set<Packet>) returns (j: nat)
    requires Succession(fs) && Sound(before.gate, pool)
    requires Regaining(before.gate, before.events, fs, got, start) && !NotAhead(fs, got)
    ensures 0 < j < |fs| && AllIn(fs[j], got)
    ensures var last := Drain(before.gate, at, timeout);
      Missed(Outcome(last.gate, before.events + last.events), fs, j)
  {
    hide Succession, Sound, Regaining, Collecting, AllIn, Complete, Drain, Dead, Frames;
    assert fs != [] by { NotEmpty(fs); }
    j :| 0 < j < |fs| && AllIn(fs[j], got);
    OnceOut(before.gate, before.events, fs, got, start);
    WholeTooEarly(before.gate, fs, got, start, j);
    ScanMisses(before.gate, fs[0].frameId, fs[j].frameId, at, timeout, pool);
    var last := Drain(before.gate, at, timeout);
    FramesAppend(before.events, last.events);
    assert [] + Frames(last.events) == Frames(last.events);
    FramesOfShort(Lost);
  }

  lemma NotEmpty(fs: seq<Frame>)
    requires Succession(fs)
    ensures fs != []
  {
  }

  lemma {:induction false} SoundRun(g: Gate, ops: seq<Op>, timeout: int, pool: set<Packet>)
    requires Sound(g, pool) && PositiveTimes(ops) && Arrivals(ops, pool)
    ensures Sound(Run(g, ops, timeout).gate, pool)
  {
    hide Sound, Step;
    if ops != [] {
      var n := |ops| - 1;
      SoundRun(g, ops[..n], timeout, pool);
      StepSound(Run(g, ops[..n], timeout).gate, ops[n], timeout, pool);
    }
  }

  /** Nothing of a frame that has arrived completely comes in again. */
  lemma OthersOnly(ops: seq<Op>, fs: seq<Frame>, start: int, timeout: int, d: nat, m: nat, j: nat)
    requires Succession(fs) && Schedule(ops, fs, start, timeout) && NoRepeats(ops) && j < |fs|
    requires d <= m < |ops| && ops[m].Arrive? && AllIn(fs[j], Delivered(ops[..d]))
    ensures ops[m].packet.metadata.Some? && ops[m].packet.metadata.value.frameId != fs[j].frameId
  {
    hide FramePackets, AllIn;
    var p := ops[m].packet;
    var k :| 0 <= k < |fs| && p in fs[k].packets;
    LabelOf(fs, k, p);
    if k == j {
      DeliveredBefore(fs[j], p, ops, d);
    }
  }

  lemma DeliveredBefore(f: Frame, p: Packet, ops: seq<Op>, d: nat)
    requires p in f.packets && d <= |ops| && AllIn(f, Delivered(ops[..d]))
    ensures exists i :: 0 <= i < d && ops[i].Arrive? && ops[i].packet == p
  {
    assert p in Delivered(ops[..d]);
    var i :| 0 <= i < d && ops[..d][i].Arrive? && ops[..d][i].packet == p;
    assert ops[i] == ops[..d][i];
  }

  lemma {:induction false} MissedRun(g: Gate, ops: seq<Op>, fs: seq<Frame>, start: int, timeout: int, pool: set<Packet>,
                                     d: nat, m: nat, j: nat)
    requires Succession(fs) && start > 0 && Schedule(ops, fs, start, timeout) && NoRepeats(ops)
    requires Sound(g, pool) && Arrivals(ops, pool)
    requires d <= m <= |ops| && j < |fs| && AllIn(fs[j], Delivered(ops[..d]))
    requires Missed(Run(g, ops[..d], timeout), fs, j)
    ensures Missed(Run(g, ops[..m], timeout), fs, j)
    decreases m
  {
    hide Succession, Sound, AllIn, Delivered, NoRepeats, Missed, Run, Step;
    if d < m {
      MissedRun(g, ops, fs, start, timeout, pool, d, m - 1, j);
      SoundPrefix(g, ops, fs, start, timeout, pool, m - 1);
      if ops[m - 1].Arrive? {
        OthersOnly(ops, fs, start, timeout, d, m - 1, j);
      }
      MissedStep(Run(g, ops[..m - 1], timeout), fs, j, ops[m - 1], timeout, pool);
      RunPrefix(g, ops, m - 1, timeout);
    }
  }

  lemma SoundPrefix(g: Gate, ops: seq<Op>, fs: seq<Frame>, start: int, timeout: int, pool: set<Packet>, m: nat)
    requires start > 0 && Schedule(ops, fs, start, timeout) && Sound(g, pool) && Arrivals(ops, pool) && m <= |ops|
    ensures Sound(Run(g, ops[..m], timeout).gate, pool)
  {
    hide Sound, Run;
    SoundRun(g, ops[..m], timeout, pool);
  }

  /** An impatient drain costs a frame. */
  lemma ImpatientMisses(g: Gate, ops: seq<Op>, fs: seq<Frame>, start: int, timeout: int, pool: set<Packet>)
    requires Succession(fs) && fs[0].keyframe && Ready(g, fs) && start > 0 && Sound(g, pool) && Arrivals(ops, pool)
    requires Schedule(ops, fs, start, timeout) && StartsInOrder(ops, fs) && NoRepeats(ops) && !Patient(ops, fs)
    ensures Frames(Run(g, ops, timeout).events) != fs
  {
    hide FramePackets, Ready, Sound, AllIn, Delivered, NoRepeats, Missed, Run, StartsInOrder, Patient, NotAhead;
    hide Regaining, Drain, Frames;
    var d := FirstImpatient(ops, fs);
    OrderPrefix(ops, fs, d);
    ScheduleRegains(g, ops[..d], fs, start, timeout);
    SoundPrefix(g, ops, fs, start, timeout, pool, d);
    var before := Run(g, ops[..d], timeout);
    var j := MissedByDrain(before, fs, Delivered(ops[..d]), start, ops[d].at, timeout, pool);
    RunPrefix(g, ops, d, timeout);
    DeliveredLast(ops[..d + 1]);
    assert ops[..d + 1][..d] == ops[..d];
    assert Delivered(ops[..d + 1]) == Delivered(ops[..d]);
    MissedRun(g, ops, fs, start, timeout, pool, d + 1, |ops|, j);
    assert ops[..|ops|] == ops;
    MissedNotAll(Run(g, ops, timeout), fs, j);
  }

  /**
   * The start-up of a stream: packets of a keyframe and the frames behind it, each packet once and in time, the frames
   * starting in order, and two drains at the end. Exactly these frames leave if and only if no drain finds a later
   * frame whole before the keyframe is; and then nothing is lost and the gate waits for their successor.
   */
  lemma RestartExactly(g: Gate, ops: seq<Op>, fs: seq<Frame>, start: int, timeout: int, pool: set<Packet>)
    requires Succession(fs) && fs[0].keyframe && Ready(g, fs) && start > 0 && Sound(g, pool) && Arrivals(ops, pool)
    requires Schedule(ops, fs, start, timeout) && StartsInOrder(ops, fs) && NoRepeats(ops)
    requires |ops| >= 2 && ops[|ops| - 1].DrainAt? && ops[|ops| - 2].DrainAt?
    requires forall j | 0 <= j < |fs| :: AllIn(fs[j], Delivered(ops))
    ensures var r := Run(g, ops, timeout);
      && (Frames(r.events) == fs <==> Patient(ops, fs))
      && (Patient(ops, fs) ==>
            NothingLost(r.events) && r.gate.synced && r.gate.next == Some(fs[0].frameId + |fs|))
  {
    hide FramePackets, Ready, Sound, AllIn, Delivered, NoRepeats, Run, StartsInOrder, Patient, Frames, NothingLost;
    hide InPlace, Schedule;
    if Patient(ops, fs) {
      AllFollow(g, ops, fs, start, timeout);
      Stands(Run(g, ops, timeout).gate, fs, Delivered(ops), start, |fs|);
    } else {
      ImpatientMisses(g, ops, fs, start, timeout, pool);
    }
  }
}

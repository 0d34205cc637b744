/**
 * The receive-side frame gate as a state machine: packets are gathered by frame, only whole frames leave, and after
 * any gap nothing leaves before a keyframe.
 */
module FrameGate {
  import opened Words
  import opened Rtp
  import opened StampedPacket
  import Nack

  const MAX_FRAMES := 64
  const NACK_DELAY_US := 120_000
  const NACK_RETRY_US := 50_000

  /** A received RTP message together with the fields the gate reads from it. */
  datatype Packet = Packet(msg: Msg, metadata: Option<Metadata>, sequence: U16, marker: bool)

  function Parse(m: Msg): Packet
    requires IsRtp(m)
  {
    Packet(m, ReadMetadata(m), SequenceNumber(m.bytes), Marker(m.bytes))
  }

  /** A frame under assembly. A placeholder for a frame not yet seen has `count` 0. */
  datatype Assembly = Assembly(epoch: U16, frameId: U32, count: U16, firstSequence: U16, keyframe: bool,
                               markerSeen: bool, firstSeen: int, lastNack: int, packets: seq<Option<Packet>>)

  const FRESH := Assembly(0, 0, 0, 0, false, false, 0, 0, [])

  predicate Complete(f: Assembly) {
    f.count != 0 && |f.packets| == f.count && forall i | 0 <= i < |f.packets| :: f.packets[i].Some?
  }

  datatype Gate = Gate(epoch: Option<U16>, next: Option<U32>, frames: map<U32, Assembly>, synced: bool,
                       completeFrames: nat, droppedFrames: nat, nackPackets: nat)

  const START := Gate(None, None, map[], false, 0, 0, 0)

  /** A frame handed on to the depacketizer. */
  datatype Frame = Frame(epoch: U16, frameId: U32, keyframe: bool, packets: seq<Packet>)

  /** What can be seen of a run. `Opened` marks the birth of an assembly, `Lost` the loss of synchronisation. */
  datatype Event =
    | Emit(frame: Frame)
    | Lost
    | Opened(frameId: U32, at: int)
    | NackSent(frameId: U32, at: int, groups: seq<Nack.Group>)
    | KeyframeAck(epoch: U16, frameId: U32)

  datatype Outcome = Outcome(gate: Gate, events: seq<Event>)

  function Lose(g: Gate): Gate { g.(synced := false) }

  function LostBetween(g: Gate, g': Gate): seq<Event> {
    if g.synced && !g'.synced then [Lost] else []
  }

  // ---------------------------------------------------------------- std::map order

  predicate IsLeast(k: U32, s: set<U32>) {
    k in s && forall j | j in s :: k <= j
  }

  lemma {:induction false} FindLeast(s: set<U32>) returns (k: U32)
    requires s != {}
    ensures IsLeast(k, s)
  {
    var x :| x in s;
    k := x;
    if s != {x} {
      var m := FindLeast(s - {x});
      assert forall j | j in s :: j == x || j in s - {x};
      k := if m < x then m else x;
    }
  }

  lemma HasLeast(s: set<U32>)
    requires s != {}
    ensures exists k :: k in s && IsLeast(k, s)
  {
    var k := FindLeast(s);
  }

  /** `begin()` of the ordered map. */
  function Least(s: set<U32>): (k: U32)
    requires s != {}
    ensures IsLeast(k, s)
  {
    HasLeast(s);
    var k :| k in s && IsLeast(k, s);
    k
  }

  /** The keys in the order the map iterates them. */
  function InOrder(s: set<U32>): (r: seq<U32>)
    ensures |r| == |s|
    ensures forall k :: k in r <==> k in s
    ensures forall i, j | 0 <= i < j < |r| :: r[i] < r[j]
    decreases |s|
  {
    if s == {} then []
    else
      var k := Least(s);
      var rest := InOrder(s - {k});
      assert forall x :: x in [k] + rest <==> x == k || x in rest;
      [k] + rest
  }

  // ---------------------------------------------------------------- process_receiver_packet

  function Placeholder(epoch: U16, id: U32, now: int): Assembly {
    FRESH.(epoch := epoch, frameId := id, firstSeen := now)
  }

  function Announced(frames: map<U32, Assembly>, id: U32, epoch: U16, now: int): map<U32, Assembly> {
    if id in frames then frames else frames[id := Placeholder(epoch, id, now)]
  }

  /** The gap loop: an entry for every id from `from` up to `to`, while there is room. */
  function FillGap(frames: map<U32, Assembly>, from: int, to: U32, epoch: U16, now: int): map<U32, Assembly>
    requires 0 <= from
    decreases (to as int) - from
  {
    if from < to && |frames| < MAX_FRAMES then
      FillGap(Announced(frames, from, epoch, now), from + 1, to, epoch, now)
    else frames
  }

  /** Turns the gap loop takes. */
  function GapTurns(frames: map<U32, Assembly>, from: int, to: U32, epoch: U16, now: int): nat
    requires 0 <= from
    decreases (to as int) - from
  {
    if from < to && |frames| < MAX_FRAMES then
      1 + GapTurns(Announced(frames, from, epoch, now), from + 1, to, epoch, now)
    else 0
  }

  predicate Usable(p: Packet) {
    p.metadata.Some? && p.metadata.value.count != 0 && p.metadata.value.index < p.metadata.value.count
  }

  /** A packet of another epoch restarts the gate at its own frame. */
  function EnterEpoch(g: Gate, md: Metadata): Gate {
    var g1 := if g.epoch == Some(md.epoch) then g
              else g.(frames := map[], epoch := Some(md.epoch), next := Some(md.frameId), synced := false);
    if g1.next.None? then g1.(next := Some(md.frameId)) else g1
  }

  function Announce(g: Gate, md: Metadata, now: int): Gate
    requires g.next.Some?
  {
    if md.frameId > g.next.value
    then g.(frames := FillGap(g.frames, g.next.value, md.frameId, md.epoch, now))
    else g
  }

  /** The assembly of the packet's frame, opened if this is its first packet. */
  function Opening(frames: map<U32, Assembly>, p: Packet, md: Metadata, now: int): Assembly {
    var f := if md.frameId in frames then frames[md.frameId] else FRESH;
    if f.firstSeen == 0 then
      f.(epoch := md.epoch, frameId := md.frameId, count := md.count, keyframe := md.keyframe, firstSeen := now,
         packets := seq(md.count, _ => None), firstSequence := Wrap16(p.sequence - md.index))
    else f
  }

  predicate Matches(f: Assembly, md: Metadata) {
    f.count == md.count && f.epoch == md.epoch && f.keyframe == md.keyframe
  }

  /** A slot is filled once; a repeated packet only counts for the marker bit. */
  function Place(f: Assembly, p: Packet, index: nat): Assembly {
    f.(packets := if index < |f.packets| && f.packets[index].None? then f.packets[index := Some(p)] else f.packets,
       markerSeen := f.markerSeen || p.marker)
  }

  function Evict(g: Gate): Gate
    decreases |g.frames|
  {
    if |g.frames| > MAX_FRAMES then Evict(g.(frames := g.frames - {Least(g.frames.Keys)}, synced := false)) else g
  }

  function Store(g: Gate, p: Packet, md: Metadata, now: int): Gate {
    var f := Opening(g.frames, p, md, now);
    if !Matches(f, md) then g.(frames := g.frames - {md.frameId}, synced := false)
    else Evict(g.(frames := g.frames[md.frameId := Place(f, p, md.index)]))
  }

  function Process(g: Gate, p: Packet, now: int): Gate {
    if !Usable(p) then Lose(g)
    else
      var md := p.metadata.value;
      Store(Announce(EnterEpoch(g, md), md, now), p, md, now)
  }

  /** The packet starts a new assembly. */
  predicate Opens(g: Gate, p: Packet, now: int) {
    Usable(p) &&
    var md := p.metadata.value;
    md.frameId !in Announce(EnterEpoch(g, md), md, now).frames
  }

  function Births(g: Gate, p: Packet, now: int): seq<Event> {
    if Opens(g, p, now) then [Opened(p.metadata.value.frameId, now)] else []
  }

  function Receive(g: Gate, p: Packet, now: int): Outcome {
    var g' := Process(g, p, now);
    Outcome(g', Births(g, p, now) + LostBetween(g, g'))
  }

  // ---------------------------------------------------------------- drain_complete_frames

  predicate Decodable(f: Assembly) { Complete(f) && f.keyframe }

  predicate Expired(f: Assembly, at: int, timeout: int) { at - f.firstSeen >= timeout }

  /** Only whole frames are asked for their packets. */
  function FrameOf(f: Assembly): Frame {
    Frame(f.epoch, f.frameId, f.keyframe,
          seq(|f.packets|, i requires 0 <= i < |f.packets| =>
            if f.packets[i].Some? then f.packets[i].value else Packet(Msg(false, []), None, 0, false)))
  }

  function Candidates(frames: map<U32, Assembly>): set<U32> {
    set id | id in frames && Decodable(frames[id])
  }

  /** Whole without being a keyframe, or overdue. */
  predicate Useless(f: Assembly, at: int, timeout: int) {
    !Decodable(f) && (Complete(f) || Expired(f, at, timeout))
  }

  /** Frames the scan for a keyframe throws away when it gets as far as `bound`. */
  function Stale(frames: map<U32, Assembly>, bound: int, at: int, timeout: int): set<U32> {
    set id | id in frames && id < bound && Useless(frames[id], at, timeout)
  }

  /** Unsynchronised: resume at the lowest whole keyframe, or clear out what can no longer be used. */
  function Resync(g: Gate, at: int, timeout: int): Outcome {
    var keys := Candidates(g.frames);
    if keys == {} then
      var stale := Stale(g.frames, 0x1_0000_0000, at, timeout);
      Outcome(g.(frames := g.frames - stale, droppedFrames := g.droppedFrames + |stale|), [])
    else
      var k := Least(keys);
      var f := g.frames[k];
      Outcome(
        g.(frames := map id | id in g.frames && id > k :: g.frames[id],
           droppedFrames := g.droppedFrames + |Stale(g.frames, k, at, timeout)|,
           completeFrames := g.completeFrames + 1, synced := true, next := Some(Wrap32(f.frameId + 1))),
        [Emit(FrameOf(f)), KeyframeAck(f.epoch, f.frameId)])
  }

  function Without(g: Gate, id: U32): Gate {
    g.(frames := g.frames - {id}, next := Some(Wrap32(id + 1)))
  }

  /** Synchronised: frames leave in order until one is unfinished; giving up on it loses synchronisation. */
  function Advance(g: Gate, at: int, timeout: int): Outcome
    decreases |g.frames|
  {
    if g.next.None? || g.next.value !in g.frames then Outcome(g, [])
    else
      var id := g.next.value;
      var f := g.frames[id];
      if Complete(f) then
        var rest := Advance(Without(g, id).(completeFrames := g.completeFrames + 1), at, timeout);
        Outcome(rest.gate, [Emit(FrameOf(f))] + rest.events)
      else if Expired(f, at, timeout) then
        Outcome(Without(g, id).(droppedFrames := g.droppedFrames + 1, synced := false), [Lost])
      else Outcome(g, [])
  }

  function Drain(g: Gate, at: int, timeout: int): Outcome {
    if g.synced then Advance(g, at, timeout) else Resync(g, at, timeout)
  }

  // ---------------------------------------------------------------- receiver_poll

  predicate Due(f: Assembly, at: int, timeout: int) {
    && f.count != 0 && !Complete(f)
    && (f.markerSeen || at - f.firstSeen >= NACK_DELAY_US)
    && (f.lastNack == 0 || at - f.lastNack >= NACK_RETRY_US)
    && at - f.firstSeen < timeout
  }

  function Have(f: Assembly): (r: seq<bool>)
    ensures |r| == |f.packets|
  {
    seq(|f.packets|, i requires 0 <= i < |f.packets| => f.packets[i].Some?)
  }

  function NackGroups(f: Assembly): seq<Nack.Group> {
    Nack.Pack(Nack.Missing(f.firstSequence, Have(f)))
  }

  /** The messages of one poll, in map order. */
  function Nacks(frames: map<U32, Assembly>, order: seq<U32>, at: int, timeout: int): seq<Event> {
    if order == [] then []
    else
      var id := order[|order| - 1];
      Nacks(frames, order[..|order| - 1], at, timeout)
      + if id in frames && Due(frames[id], at, timeout) then [NackSent(id, at, NackGroups(frames[id]))] else []
  }

  function Poll(g: Gate, at: int, timeout: int): Outcome {
    var events := Nacks(g.frames, InOrder(g.frames.Keys), at, timeout);
    Outcome(
      g.(frames := map id | id in g.frames ::
           if Due(g.frames[id], at, timeout) then g.frames[id].(lastNack := at) else g.frames[id],
         nackPackets := g.nackPackets + |events|),
      events)
  }

  function Invalidate(g: Gate): Outcome {
    var g' := g.(frames := map[], next := None, synced := false);
    Outcome(g', LostBetween(g, g'))
  }

  // ---------------------------------------------------------------- runs

  /** The locked steps of the handler; a call of `receiver_incoming` is packets, a drain and a poll. */
  datatype Op =
    | Arrive(packet: Packet, at: int)
    | DrainAt(at: int)
    | PollAt(at: int)
    | InvalidateSync

  function Step(g: Gate, op: Op, timeout: int): Outcome {
    match op
    case Arrive(p, at) => Receive(g, p, at)
    case DrainAt(at) => Drain(g, at, timeout)
    case PollAt(at) => Poll(g, at, timeout)
    case InvalidateSync => Invalidate(g)
  }

  function Run(g: Gate, ops: seq<Op>, timeout: int): Outcome {
    if ops == [] then Outcome(g, [])
    else
      var before := Run(g, ops[..|ops| - 1], timeout);
      var last := Step(before.gate, ops[|ops| - 1], timeout);
      Outcome(last.gate, before.events + last.events)
  }

  lemma RunStep(g: Gate, ops: seq<Op>, op: Op, timeout: int)
    ensures var before := Run(g, ops, timeout);
      var last := Step(before.gate, op, timeout);
      Run(g, ops + [op], timeout) == Outcome(last.gate, before.events + last.events)
  {
    assert (ops + [op])[..|ops|] == ops;
  }

  /** What a run adds to a shorter one. */
  lemma RunPrefix(g: Gate, ops: seq<Op>, n: nat, timeout: int)
    requires n < |ops|
    ensures ops[..n + 1] == ops[..n] + [ops[n]]
    ensures var before := Run(g, ops[..n], timeout);
      var last := Step(before.gate, ops[n], timeout);
      Run(g, ops[..n + 1], timeout) == Outcome(last.gate, before.events + last.events)
  {
    assert ops[..n + 1][..n] == ops[..n];
    assert ops[..n + 1] == ops[..n] + [ops[n]];
  }

  /** Clock readings are positive, so 0 can stand for "never". */
  predicate PositiveTimes(ops: seq<Op>) {
    forall i | 0 <= i < |ops| && ops[i].Arrive? :: ops[i].at > 0
  }

  /** Every packet that arrives is one of `pool`. */
  predicate Arrivals(ops: seq<Op>, pool: set<Packet>) {
    forall i | 0 <= i < |ops| && ops[i].Arrive? :: ops[i].packet in pool
  }
}

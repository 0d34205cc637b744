/** How an unsynchronised gate gets going again: at a keyframe, with the frames that follow it. */
module Resynchronisation {
  import opened Words
  import opened StampedPacket
  import opened FrameGate
  import opened GateInvariant
  import opened DecodeSafety
  import opened GateLimits
  import opened Confluence

  /** Nothing whole to resume at outside the frames `fs`. */
  predicate NoOther(frames: map<U32, Assembly>, fs: seq<Frame>)
    requires fs != []
  {
    forall id | id in frames && !(fs[0].frameId <= id < fs[0].frameId + |fs|) :: !Decodable(frames[id])
  }

  /** The ids the frames and the gap before them take. */
  function Claim(g: Gate, fs: seq<Frame>): set<U32>
    requires fs != []
  {
    Ids(GapStart(g, fs[0].frameId), fs[0].frameId + |fs|)
  }

  predicate Spacious(g: Gate, fs: seq<Frame>)
    requires fs != []
  {
    |g.frames.Keys + Claim(g, fs)| <= MAX_FRAMES
  }

  /**
   * No whole keyframe is buffered. A gate in the frames' epoch has seen neither them nor their successor and has room;
   * a gate in another epoch, or a fresh one, meets that trivially.
   */
  predicate Ready(g: Gate, fs: seq<Frame>)
    requires fs != []
  {
    && !g.synced && |fs| <= MAX_FRAMES && (forall id | id in g.frames :: !Decodable(g.frames[id]))
    && (g.epoch == Some(fs[0].epoch) ==>
          && Spacious(g, fs)
          && forall id | id in g.frames :: !(fs[0].frameId <= id <= fs[0].frameId + |fs|))
  }

  /** Unsynchronised, in the frames' epoch, with room; their assemblies hold what has been delivered. */
  predicate Gathering(g: Gate, fs: seq<Frame>, got: set<Packet>, start: int)
    requires fs != [] && fs[0].frameId + |fs| < 0x1_0000_0000
  {
    && !g.synced && g.epoch == Some(fs[0].epoch) && g.next.Some? && Spacious(g, fs)
    && fs[0].frameId + |fs| !in g.frames && NoOther(g.frames, fs)
    && forall j | 0 <= j < |fs| :: Open(g.frames, fs[j], got, start)
  }

  /** The first frame is there whole, or else none of the others is. */
  predicate NotAhead(fs: seq<Frame>, got: set<Packet>) {
    fs != [] && (AllIn(fs[0], got) || forall j | 0 < j < |fs| :: !AllIn(fs[j], got))
  }

  /** No drain finds a later frame whole before the first one is. */
  predicate Patient(ops: seq<Op>, fs: seq<Frame>) {
    forall d | 0 <= d < |ops| && ops[d].DrainAt? :: NotAhead(fs, Delivered(ops[..d]))
  }

  /** The scan resumes at the lowest whole keyframe and keeps what lies above it. */
  lemma LowestKeyframe(g: Gate, id: U32, at: int, timeout: int)
    requires !g.synced && id in g.frames && Decodable(g.frames[id]) && g.frames[id].frameId == id
    requires forall other | other in g.frames && other < id :: !Decodable(g.frames[other])
    ensures var r := Drain(g, at, timeout);
      && r.gate.synced && r.gate.next == Some(Wrap32(id + 1)) && r.gate.epoch == g.epoch
      && r.gate.frames == (map other | other in g.frames && other > id :: g.frames[other])
      && r.events == [Emit(FrameOf(g.frames[id])), KeyframeAck(g.frames[id].epoch, id)]
  {
    hide Decodable, FrameOf, Stale;
    assert id in Candidates(g.frames);
    assert Least(Candidates(g.frames)) == id;
  }

  // ---------------------------------------------------------------- arrivals

  lemma IdsWithin(from: U32, end: int, from': U32, end': int)
    requires from' <= from && end <= end'
    ensures Ids(from, end) <= Ids(from', end')
  {
  }

  lemma WithinClaim(g: Gate, fs: seq<Frame>, k: nat)
    requires Succession(fs) && k < |fs|
    ensures Reach(g, fs[k].frameId) <= g.frames.Keys + Claim(g, fs)
    ensures Span(fs) <= Claim(g, fs)
  {
    hide FramePackets, Ids;
    IdsWithin(GapStart(g, fs[k].frameId), fs[k].frameId + 1, GapStart(g, fs[0].frameId), fs[0].frameId + |fs|);
    IdsWithin(fs[0].frameId, fs[0].frameId + |fs|, GapStart(g, fs[0].frameId), fs[0].frameId + |fs|);
  }

  lemma SpaciousRoom(g: Gate, fs: seq<Frame>, k: nat)
    requires Succession(fs) && k < |fs| && Spacious(g, fs)
    ensures Room(g, fs[k].frameId) && |g.frames.Keys + Span(fs)| <= MAX_FRAMES
  {
    hide FramePackets, Reach, Claim, Span;
    WithinClaim(g, fs, k);
    SubsetSize(Reach(g, fs[k].frameId), g.frames.Keys + Claim(g, fs));
    SubsetSize(g.frames.Keys + Span(fs), g.frames.Keys + Claim(g, fs));
  }

  /** The gate may gain ids it has claimed, or lose some. */
  lemma StillSpacious(g: Gate, r: Gate, fs: seq<Frame>)
    requires fs != [] && Spacious(g, fs) && r.next == g.next && r.frames.Keys <= g.frames.Keys + Claim(g, fs)
    ensures Spacious(r, fs)
  {
    hide Ids;
    SubsetSize(r.frames.Keys + Claim(r, fs), g.frames.Keys + Claim(g, fs));
  }

  lemma StartedBuffered(g: Gate, fs: seq<Frame>, got: set<Packet>, start: int, k: nat, p: Packet)
    requires Succession(fs) && k < |fs| && p in fs[k].packets && InTurn(p, fs, got)
    requires forall j | 0 <= j < |fs| :: Open(g.frames, fs[j], got, start)
    ensures forall id: U32 | fs[0].frameId <= id < fs[k].frameId :: id in g.frames
  {
    hide FramePackets, Partial, Touched;
    forall id: U32 | fs[0].frameId <= id < fs[k].frameId ensures id in g.frames {
      var j := id - fs[0].frameId;
      assert Touched(fs[j], got);
      assert Open(g.frames, fs[j], got, start);
    }
  }

  /** Frames before the packet's have started, so the gap loop only adds ids below the first frame. */
  lemma AnnouncedBelow(g: Gate, fs: seq<Frame>, got: set<Packet>, start: int, k: nat, p: Packet, md: Metadata, now: int)
    requires Succession(fs) && Gathering(g, fs, got, start) && k < |fs| && p in fs[k].packets && InTurn(p, fs, got)
    requires md.frameId == fs[k].frameId && md.epoch == fs[0].epoch
    ensures var r := Announce(g, md, now);
      && r == g.(frames := r.frames) && r.frames.Keys == Bridged(g, md.frameId)
      && (forall id | id in r.frames && id >= fs[0].frameId :: id in g.frames)
      && (forall id | id in g.frames :: id in r.frames && r.frames[id] == g.frames[id])
      && NoOther(r.frames, fs)
  {
    hide FramePackets, Open, Announce, Room, Spacious, Ids, InTurn;
    AnnounceShape(g, md, now);
    SpaciousRoom(g, fs, k);
    RoomBridges(g, md, now);
    StartedBuffered(g, fs, got, start, k, p);
    BelowEnd(GapStart(g, md.frameId), md.frameId);
  }

  lemma BelowEnd(from: U32, end: int)
    ensures forall id | id in Ids(from, end) :: from <= id < end
  {
  }

  /** With room and a matching assembly the packet is placed and nothing thrown out. */
  lemma PlacesInRoom(g: Gate, p: Packet, now: int)
    requires Usable(p) && g.epoch == Some(p.metadata.value.epoch) && g.next.Some? && Room(g, p.metadata.value.frameId)
    requires var md := p.metadata.value; Matches(Opening(Announce(g, md, now).frames, p, md, now), md)
    ensures var md := p.metadata.value;
      var filled := Announce(g, md, now).frames;
      && Process(g, p, now) == g.(frames := filled[md.frameId := Place(Opening(filled, p, md, now), p, md.index)])
      && filled.Keys + {md.frameId} == Reach(g, md.frameId)
  {
    hide Place, Opening, Matches, Announce, Reach, Bridged;
    var md := p.metadata.value;
    AnnounceFields(g, md, now);
    RoomBridges(g, md, now);
    BridgedRoom(g, md.frameId);
    var filled := Announce(g, md, now);
    var r := filled.(frames := filled.frames[md.frameId := Place(Opening(filled.frames, p, md, now), p, md.index)]);
    assert r.frames.Keys == filled.frames.Keys + {md.frameId};
    assert |r.frames| == |r.frames.Keys|;
    EvictKeepsOrLoses(r);
  }

  /** The assembly the packet goes to holds what has been delivered of its frame. */
  lemma OpenedHolds(g: Gate, filled: map<U32, Assembly>, f: Frame, got: set<Packet>, start: int, p: Packet, now: int)
    requires FramePackets(f) && p in f.packets && 0 < start <= now && Open(g.frames, f, got, start)
    requires f.frameId in filled <==> f.frameId in g.frames
    requires f.frameId in g.frames ==> filled[f.frameId] == g.frames[f.frameId]
    ensures p.metadata.Some? && p.metadata.value.frameId == f.frameId && p.metadata.value.epoch == f.epoch
    ensures Partial(Opening(filled, p, p.metadata.value, now), f, got, start)
  {
    hide FramePackets, Opening, Partial, Touched;
    IndexOf(f, p);
    if Touched(f, got) {
      OpeningExisting(filled, f, got, start, p, now);
    } else {
      OpenedPartial(filled, f, got, start, p, now);
    }
  }

  /** One packet goes into the assembly of its frame, and nothing else moves but the announced ids below. */
  lemma ArriveOpens(g: Gate, fs: seq<Frame>, got: set<Packet>, start: int, k: nat, p: Packet, now: int)
    requires Succession(fs) && Gathering(g, fs, got, start) && 0 < start <= now
    requires k < |fs| && p in fs[k].packets && InTurn(p, fs, got)
    ensures p.metadata.Some? && p.metadata.value.frameId == fs[k].frameId && p.metadata.value.epoch == fs[0].epoch
    ensures var f, r := fs[k], Process(g, p, now);
      var filled := Announce(g, p.metadata.value, now).frames;
      && f.frameId in r.frames && r == g.(frames := filled[f.frameId := r.frames[f.frameId]])
      && Partial(r.frames[f.frameId], f, got + {p}, start)
      && r.frames.Keys == Reach(g, f.frameId)
  {
    hide FramePackets, Place, Opening, Partial, Open, Announce, Process, Reach, Bridged, NoOther, Spacious, InTurn;
    var f := fs[k];
    LabelOf(fs, k, p);
    var md := p.metadata.value;
    var filled := Announce(g, md, now).frames;
    AnnouncedBelow(g, fs, got, start, k, p, md, now);
    OpenedHolds(g, filled, f, got, start, p, now);
    var a := Opening(filled, p, md, now);
    PartialMatches(a, f, got, start, p);
    PlacePartial(a, f, got, start, p);
    SpaciousRoom(g, fs, k);
    PlacesInRoom(g, p, now);
  }

  lemma LabelOf(fs: seq<Frame>, k: nat, p: Packet)
    requires Succession(fs) && k < |fs| && p in fs[k].packets
    ensures p.metadata.Some? && p.metadata.value.frameId == fs[k].frameId && p.metadata.value.epoch == fs[0].epoch
  {
  }

  lemma ArriveGathers(g: Gate, fs: seq<Frame>, got: set<Packet>, start: int, k: nat, p: Packet, now: int)
    requires Succession(fs) && Gathering(g, fs, got, start) && 0 < start <= now
    requires k < |fs| && p in fs[k].packets && InTurn(p, fs, got)
    ensures Gathering(Process(g, p, now), fs, got + {p}, start)
  {
    hide FramePackets, Partial, Announce, Process, Reach, Open, InTurn, Spacious, NoOther;
    var f, r := fs[k], Process(g, p, now);
    ArriveOpens(g, fs, got, start, k, p, now);
    var filled := Announce(g, p.metadata.value, now).frames;
    AnnouncedBelow(g, fs, got, start, k, p, p.metadata.value, now);
    WithinClaim(g, fs, k);
    StillSpacious(g, r, fs);
    OpensAll(g, r, filled, fs, got, start, k, p);
    OwnReplaced(filled, fs, k, r.frames[f.frameId]);
    assert fs[0].frameId + |fs| !in filled;
  }

  lemma OwnReplaced(frames: map<U32, Assembly>, fs: seq<Frame>, k: nat, a: Assembly)
    requires Succession(fs) && k < |fs| && NoOther(frames, fs)
    ensures NoOther(frames[fs[k].frameId := a], fs)
  {
    hide FramePackets, Decodable;
  }

  lemma OpensAll(g: Gate, r: Gate, filled: map<U32, Assembly>, fs: seq<Frame>, got: set<Packet>, start: int, k: nat,
                 p: Packet)
    requires Succession(fs) && k < |fs| && p in fs[k].packets && fs[k].frameId in r.frames
    requires forall j | 0 <= j < |fs| :: Open(g.frames, fs[j], got, start)
    requires forall id | id in filled && id >= fs[0].frameId :: id in g.frames
    requires forall id | id in g.frames :: id in filled && filled[id] == g.frames[id]
    requires r.frames == filled[fs[k].frameId := r.frames[fs[k].frameId]]
    requires Partial(r.frames[fs[k].frameId], fs[k], got + {p}, start)
    ensures forall j | 0 <= j < |fs| :: Open(r.frames, fs[j], got + {p}, start)
  {
    hide FramePackets, Partial, Touched, AllIn, Open, Gone;
    forall j | 0 <= j < |fs| ensures Open(r.frames, fs[j], got + {p}, start) {
      if j == k {
        OwnFrame(r.frames, fs[k], got, got, p, start);
      } else {
        OtherFrame(fs, j, k, p);
        OtherUnmoved(g.frames, r.frames, fs[j], got, p, start);
      }
    }
  }

  /** The first packet brings the gate into the frames' epoch. */
  lemma Enters(g: Gate, fs: seq<Frame>, got: set<Packet>, start: int, md: Metadata)
    requires Succession(fs) && Ready(g, fs) && md.epoch == fs[0].epoch && md.frameId == fs[0].frameId
    requires forall j | 0 <= j < |fs| :: !Touched(fs[j], got)
    ensures Gathering(EnterEpoch(g, md), fs, got, start)
  {
    hide FramePackets, Partial, Touched, Spacious, Open;
    var r := EnterEpoch(g, md);
    if g.epoch != Some(fs[0].epoch) {
      EmptySpacious(r, fs);
    } else {
      SameClaim(g, r, fs);
    }
    forall j | 0 <= j < |fs| ensures Open(r.frames, fs[j], got, start) {
      UntouchedOpen(r.frames, fs[j], got, start);
    }
  }

  lemma EmptySpacious(g: Gate, fs: seq<Frame>)
    requires fs != [] && fs[0].frameId + |fs| < 0x1_0000_0000 && |fs| <= MAX_FRAMES
    requires g.frames == map[] && g.next == Some(fs[0].frameId)
    ensures Spacious(g, fs)
  {
    hide Ids;
    IdsSize(fs[0].frameId, fs[0].frameId + |fs|);
    assert g.frames.Keys + Claim(g, fs) == Claim(g, fs);
  }

  /** A gate without a next id starts at the first frame. */
  lemma SameClaim(g: Gate, r: Gate, fs: seq<Frame>)
    requires fs != [] && r.frames == g.frames
    requires r.next == g.next || (g.next.None? && r.next == Some(fs[0].frameId))
    ensures Spacious(r, fs) <==> Spacious(g, fs)
  {
    hide Ids;
  }

  lemma UntouchedOpen(frames: map<U32, Assembly>, f: Frame, got: set<Packet>, start: int)
    requires !Touched(f, got) && f.frameId !in frames
    ensures Open(frames, f, got, start)
  {
  }

  lemma ArriveReady(g: Gate, fs: seq<Frame>, got: set<Packet>, start: int, p: Packet, now: int)
    requires Succession(fs) && Ready(g, fs) && 0 < start <= now && p in fs[0].packets && InTurn(p, fs, got)
    requires forall j | 0 <= j < |fs| :: !Touched(fs[j], got)
    ensures Gathering(Process(g, p, now), fs, got + {p}, start)
  {
    hide FramePackets, Store, Touched, Spacious, Announce, Ready, Gathering, InTurn;
    IndexOf(fs[0], p);
    var entered := EnterEpoch(g, p.metadata.value);
    assert EnterEpoch(entered, p.metadata.value) == entered;
    assert Process(g, p, now) == Process(entered, p, now);
    Enters(g, fs, got, start, p.metadata.value);
    ArriveGathers(entered, fs, got, start, 0, p, now);
  }

  lemma UnsyncedArrival(g: Gate, p: Packet, now: int)
    requires !g.synced
    ensures Frames(Receive(g, p, now).events) == [] && NothingLost(Receive(g, p, now).events)
  {
    hide Process, Opens;
    NoFrames(Receive(g, p, now).events);
  }

  // ---------------------------------------------------------------- drains and polls

  /** Nothing to resume at: the scan only throws frames away, none of them the one on its way. */
  lemma ScanOnlyDrops(g: Gate, at: int, timeout: int)
    requires !g.synced && forall id | id in g.frames :: !Decodable(g.frames[id])
    ensures var r := Drain(g, at, timeout);
      && r.events == [] && r.gate == g.(frames := r.gate.frames, droppedFrames := r.gate.droppedFrames)
      && r.gate.frames.Keys <= g.frames.Keys
      && (forall id | id in r.gate.frames :: r.gate.frames[id] == g.frames[id])
      && (forall id | id in g.frames && !Complete(g.frames[id]) && !Expired(g.frames[id], at, timeout) ::
            id in r.gate.frames)
  {
    hide Decodable, Complete, Expired;
    assert Candidates(g.frames) == {};
  }

  lemma ReadyDrain(g: Gate, fs: seq<Frame>, at: int, timeout: int)
    requires Succession(fs) && Ready(g, fs)
    ensures var r := Drain(g, at, timeout); Ready(r.gate, fs) && r.events == []
  {
    hide FramePackets, Decodable, Drain, Spacious;
    ScanOnlyDrops(g, at, timeout);
    if g.epoch == Some(fs[0].epoch) {
      StillSpacious(g, Drain(g, at, timeout).gate, fs);
    }
  }

  /** While the first frame is incomplete and so are the others, nothing can be resumed at. */
  lemma NothingWhole(g: Gate, fs: seq<Frame>, got: set<Packet>, start: int)
    requires Succession(fs) && Gathering(g, fs, got, start) && forall j | 0 <= j < |fs| :: !AllIn(fs[j], got)
    ensures forall id | id in g.frames :: !Decodable(g.frames[id])
    ensures forall j | 0 <= j < |fs| && fs[j].frameId in g.frames :: !Complete(g.frames[fs[j].frameId])
  {
    hide FramePackets, Partial, Touched, Complete, AllIn, Spacious;
    forall j | 0 <= j < |fs| && fs[j].frameId in g.frames ensures !Complete(g.frames[fs[j].frameId]) {
      assert Open(g.frames, fs[j], got, start);
      CompleteWhenAllIn(g.frames[fs[j].frameId], fs[j], got, start);
    }
    forall id | id in g.frames ensures !Decodable(g.frames[id]) {
      if fs[0].frameId <= id < fs[0].frameId + |fs| {
        assert id == fs[id - fs[0].frameId].frameId;
      }
    }
  }

  lemma PartDrain(g: Gate, fs: seq<Frame>, got: set<Packet>, start: int, at: int, timeout: int)
    requires Succession(fs) && Gathering(g, fs, got, start) && at < start + timeout
    requires forall j | 0 <= j < |fs| :: !AllIn(fs[j], got)
    ensures var r := Drain(g, at, timeout); Gathering(r.gate, fs, got, start) && r.events == []
  {
    hide FramePackets, Partial, Touched, Complete, AllIn, Spacious, Drain, Decodable, Expired;
    NothingWhole(g, fs, got, start);
    ScanOnlyDrops(g, at, timeout);
    var r := Drain(g, at, timeout).gate;
    StillSpacious(g, r, fs);
    forall j | 0 <= j < |fs| ensures Open(r.frames, fs[j], got, start) {
      assert Open(g.frames, fs[j], got, start);
      if Touched(fs[j], got) {
        NotYetExpired(g.frames[fs[j].frameId], fs[j], got, start, at, timeout);
      }
    }
  }

  lemma NotYetExpired(a: Assembly, f: Frame, got: set<Packet>, start: int, at: int, timeout: int)
    requires Partial(a, f, got, start) && at < start + timeout
    ensures !Expired(a, at, timeout)
  {
  }

  /** The whole keyframe is where the gate resumes; the frames behind it stay. */
  lemma WholeDrain(g: Gate, fs: seq<Frame>, got: set<Packet>, start: int, at: int, timeout: int)
    requires Succession(fs) && fs[0].keyframe && Gathering(g, fs, got, start) && AllIn(fs[0], got)
    ensures var r := Drain(g, at, timeout);
      && r.events == [Emit(fs[0]), KeyframeAck(fs[0].epoch, fs[0].frameId)] && InPlace(r.gate, fs, got, start, 1)
  {
    hide FramePackets, Partial, Touched, Drain, AllIn, Complete, FrameOf, Spacious, NoOther, InPlace;
    var f := fs[0];
    assert Open(g.frames, f, got, start);
    AllTouched(f, got);
    var a := g.frames[f.frameId];
    PartialLabels(a, f, got, start);
    CompleteWhenAllIn(a, f, got, start);
    NothingBelow(g, fs);
    LowestKeyframe(g, f.frameId, at, timeout);
    NoWrap(f.frameId);
    SpaciousRoom(g, fs, 0);
    JustOut(g, Drain(g, at, timeout).gate, fs, got, start);
  }

  lemma NothingBelow(g: Gate, fs: seq<Frame>)
    requires fs != [] && NoOther(g.frames, fs)
    ensures forall id | id in g.frames && id < fs[0].frameId :: !Decodable(g.frames[id])
  {
  }

  lemma JustOut(g: Gate, r: Gate, fs: seq<Frame>, got: set<Packet>, start: int)
    requires Succession(fs) && AllIn(fs[0], got) && |g.frames.Keys + Span(fs)| <= MAX_FRAMES
    requires fs[0].frameId + |fs| !in g.frames && forall j | 0 <= j < |fs| :: Open(g.frames, fs[j], got, start)
    requires r.synced && r.epoch == Some(fs[0].epoch) && r.next == Some(fs[0].frameId + 1)
    requires r.frames == map other | other in g.frames && other > fs[0].frameId :: g.frames[other]
    ensures InPlace(r, fs, got, start, 1)
  {
    hide FramePackets, AllIn, Span, Gone, Open;
    SubsetSize(r.frames.Keys + Span(fs), g.frames.Keys + Span(fs));
    GoneWithout(r.frames, fs[0], got, start);
    forall j | 1 <= j < |fs| ensures Open(r.frames, fs[j], got, start) {
      SameOpen(g.frames, r.frames, fs[j], got, start);
    }
  }

  lemma SameOpen(frames: map<U32, Assembly>, frames': map<U32, Assembly>, f: Frame, got: set<Packet>, start: int)
    requires f.frameId in frames <==> f.frameId in frames'
    requires f.frameId in frames ==> frames[f.frameId] == frames'[f.frameId]
    requires Open(frames, f, got, start)
    ensures Open(frames', f, got, start)
  {
  }

  lemma PartialLabels(a: Assembly, f: Frame, got: set<Packet>, start: int)
    requires Partial(a, f, got, start)
    ensures a.epoch == f.epoch && a.frameId == f.frameId && a.keyframe == f.keyframe
  {
  }

  lemma MarkedDecodable(a: Assembly, at: int)
    ensures Decodable(a.(lastNack := at)) <==> Decodable(a)
  {
  }

  /** A poll changes neither what is buffered nor what can be decoded. */
  lemma PollKeeps(g: Gate, fs: seq<Frame>, got: set<Packet>, start: int, at: int, timeout: int)
    requires Succession(fs)
    ensures var r := Poll(g, at, timeout).gate;
      && (Ready(g, fs) ==> Ready(r, fs)) && (Gathering(g, fs, got, start) ==> Gathering(r, fs, got, start))
  {
    hide FramePackets, Poll, Decodable, Spacious, Open;
    var r := Poll(g, at, timeout).gate;
    PollMarks(g, at, timeout, fs[0].frameId);
    if Spacious(g, fs) {
      StillSpacious(g, r, fs);
    }
    forall id | id in g.frames ensures Decodable(r.frames[id]) <==> Decodable(g.frames[id]) {
      PollMarks(g, at, timeout, id);
      MarkedDecodable(g.frames[id], at);
    }
    forall j | 0 <= j < |fs| ensures Open(g.frames, fs[j], got, start) ==> Open(r.frames, fs[j], got, start) {
      PollMarks(g, at, timeout, fs[j].frameId);
      MarkedFrame(g.frames, r.frames, fs[j], got, start, at);
    }
  }

  // ---------------------------------------------------------------- whole schedules

  predicate Untouched(fs: seq<Frame>, got: set<Packet>) {
    forall j | 0 <= j < |fs| :: !Touched(fs[j], got)
  }

  /** Before the keyframe is out. */
  predicate Collecting(g: Gate, fs: seq<Frame>, got: set<Packet>, start: int)
    requires fs != [] && fs[0].frameId + |fs| < 0x1_0000_0000
  {
    if Untouched(fs, got) then Ready(g, fs) else Touched(fs[0], got) && Gathering(g, fs, got, start)
  }

  /** Where the gate stands: the keyframe unseen or on its way, or out. */
  ghost predicate Regaining(g: Gate, events: seq<Event>, fs: seq<Frame>, got: set<Packet>, start: int)
    requires fs != [] && fs[0].frameId + |fs| < 0x1_0000_0000
  {
    if Frames(events) == [] then NothingLost(events) && Collecting(g, fs, got, start)
    else Phase(g, events, fs, got, start)
  }

  lemma CollectArrive(g: Gate, fs: seq<Frame>, got: set<Packet>, start: int, k: nat, p: Packet, now: int)
    requires Succession(fs) && Collecting(g, fs, got, start) && 0 < start <= now
    requires k < |fs| && p in fs[k].packets && InTurn(p, fs, got)
    ensures Collecting(Process(g, p, now), fs, got + {p}, start)
    ensures Frames(Receive(g, p, now).events) == [] && NothingLost(Receive(g, p, now).events)
  {
    hide FramePackets, Process, Touched, Frames, NothingLost, Ready, Gathering;
    Collects(g, fs, got, start);
    UnsyncedArrival(g, p, now);
    TouchedBy(fs[k], got, p);
    if Untouched(fs, got) {
      assert k == 0;
      ArriveReady(g, fs, got, start, p, now);
    } else {
      ArriveGathers(g, fs, got, start, k, p, now);
      StillTouched(fs[0], got, p);
    }
  }

  lemma StillTouched(f: Frame, got: set<Packet>, p: Packet)
    requires Touched(f, got)
    ensures Touched(f, got + {p})
  {
    var i :| 0 <= i < |f.packets| && f.packets[i] in got;
    assert f.packets[i] in got + {p};
  }

  lemma Collects(g: Gate, fs: seq<Frame>, got: set<Packet>, start: int)
    requires Succession(fs) && Collecting(g, fs, got, start)
    ensures !g.synced
  {
  }

  lemma CollectDrain(g: Gate, events: seq<Event>, fs: seq<Frame>, got: set<Packet>, start: int, at: int, timeout: int)
    requires Succession(fs) && fs[0].keyframe && Collecting(g, fs, got, start) && at < start + timeout
    requires Frames(events) == [] && NothingLost(events) && NotAhead(fs, got)
    ensures var r := Drain(g, at, timeout);
      && Regaining(r.gate, events + r.events, fs, got, start)
      && (AllIn(fs[0], got) ==> Frames(events + r.events) != [])
  {
    hide FramePackets, Drain, Frames, NothingLost, Ready, Gathering, AllIn, InPlace, Touched;
    assert events + [] == events;
    if Untouched(fs, got) {
      UntouchedIncomplete(fs[0], got);
      ReadyDrain(g, fs, at, timeout);
    } else if AllIn(fs[0], got) {
      var f := fs[0];
      WholeDrain(g, fs, got, start, at, timeout);
      EmitEvent(events, f);
      AckEvent(events + [Emit(f)], f);
      var ack := KeyframeAck(f.epoch, f.frameId);
      assert events + [Emit(f), ack] == events + [Emit(f)] + [ack];
    } else {
      PartDrain(g, fs, got, start, at, timeout);
    }
  }

  lemma AckEvent(events: seq<Event>, f: Frame)
    ensures Frames(events + [KeyframeAck(f.epoch, f.frameId)]) == Frames(events)
    ensures NothingLost(events + [KeyframeAck(f.epoch, f.frameId)]) <==> NothingLost(events)
  {
    assert (events + [KeyframeAck(f.epoch, f.frameId)])[..|events|] == events;
    LostAppend(events, [KeyframeAck(f.epoch, f.frameId)]);
  }

  lemma RegainStep(g: Gate, events: seq<Event>, fs: seq<Frame>, got: set<Packet>, op: Op, start: int, timeout: int)
    requires Succession(fs) && fs[0].keyframe && start > 0
    requires Regaining(g, events, fs, got, start) && InWindow(op, fs, start, timeout)
    requires (op.Arrive? ==> InTurn(op.packet, fs, got)) && (op.DrainAt? ==> NotAhead(fs, got))
    ensures var r := Step(g, op, timeout); Regaining(r.gate, events + r.events, fs, WithOp(got, op), start)
    ensures op.DrainAt? && AllIn(fs[0], got) ==> Frames(events + Step(g, op, timeout).events) != []
  {
    hide FramePackets, Process, Drain, Poll, Births, Frames, NothingLost, Collecting, AllIn, InPlace, Touched;
    hide Succession, InTurn, NotAhead;
    var r := Step(g, op, timeout);
    FramesAppend(events, r.events);
    LostAppend(events, r.events);
    if Frames(events) != [] {
      PhaseStep(g, events, fs, got, op, start, timeout);
    } else {
      assert [] + Frames(r.events) == Frames(r.events);
      match op
      case Arrive(p, at) =>
        var k :| 0 <= k < |fs| && p in fs[k].packets;
        CollectArrive(g, fs, got, start, k, p, at);
      case DrainAt(at) =>
        CollectDrain(g, events, fs, got, start, at, timeout);
        assert got + {} == got;
      case PollAt(at) =>
        CollectPoll(g, fs, got, start, at, timeout);
        PollMarks(g, at, timeout, 0);
        assert got + {} == got;
    }
  }

  lemma CollectPoll(g: Gate, fs: seq<Frame>, got: set<Packet>, start: int, at: int, timeout: int)
    requires Succession(fs) && Collecting(g, fs, got, start)
    ensures Collecting(Poll(g, at, timeout).gate, fs, got, start)
  {
    hide FramePackets, Poll, Ready, Gathering, Touched;
    PollKeeps(g, fs, got, start, at, timeout);
  }

  lemma PatientNext(ops: seq<Op>, fs: seq<Frame>)
    requires ops != []
    ensures var n := |ops| - 1;
      Patient(ops, fs) <==> Patient(ops[..n], fs) && (ops[n].DrainAt? ==> NotAhead(fs, Delivered(ops[..n])))
  {
    hide NotAhead, Delivered;
    var n := |ops| - 1;
    forall i | 0 <= i < n ensures ops[..n][..i] == ops[..i] && ops[..n][i] == ops[i] {
    }
    if Patient(ops, fs) {
      forall d | 0 <= d < n && ops[..n][d].DrainAt? ensures NotAhead(fs, Delivered(ops[..n][..d])) {
        assert NotAhead(fs, Delivered(ops[..d]));
      }
    }
  }

  lemma {:induction false} ScheduleRegains(g: Gate, ops: seq<Op>, fs: seq<Frame>, start: int, timeout: int)
    requires Succession(fs) && fs[0].keyframe && Ready(g, fs) && start > 0
    requires Schedule(ops, fs, start, timeout) && StartsInOrder(ops, fs) && Patient(ops, fs)
    ensures var r := Run(g, ops, timeout); Regaining(r.gate, r.events, fs, Delivered(ops), start)
  {
    hide Succession, Step, Regaining, Ready, Delivered, StartsInOrder, Patient, InTurn, NotAhead;
    if ops == [] {
      NothingYet(fs);
      StartsReady(g, fs, start);
    } else {
      var n := |ops| - 1;
      InOrderNext(ops, fs);
      PatientNext(ops, fs);
      ScheduleRegains(g, ops[..n], fs, start, timeout);
      DeliveredLast(ops);
      var before := Run(g, ops[..n], timeout);
      assert InWindow(ops[n], fs, start, timeout);
      RegainStep(before.gate, before.events, fs, Delivered(ops[..n]), ops[n], start, timeout);
    }
  }

  lemma StartsReady(g: Gate, fs: seq<Frame>, start: int)
    requires Succession(fs) && Ready(g, fs)
    ensures Regaining(g, [], fs, {}, start)
  {
    hide Ready;
    forall j | 0 <= j < |fs| ensures !Touched(fs[j], {}) {
      UntouchedByNothing(fs[j]);
    }
  }

  lemma OrderPrefix(ops: seq<Op>, fs: seq<Frame>, d: nat)
    requires StartsInOrder(ops, fs) && d <= |ops|
    ensures StartsInOrder(ops[..d], fs)
  {
    hide InTurn, Delivered;
    forall i | 0 <= i < d && ops[..d][i].Arrive? ensures InTurn(ops[..d][i].packet, fs, Delivered(ops[..d][..i])) {
      assert ops[..d][..i] == ops[..i];
    }
  }

  lemma PatientPrefix(ops: seq<Op>, fs: seq<Frame>, d: nat)
    requires Patient(ops, fs) && d <= |ops|
    ensures Patient(ops[..d], fs)
  {
    hide NotAhead, Delivered;
    forall i | 0 <= i < d && ops[..d][i].DrainAt? ensures NotAhead(fs, Delivered(ops[..d][..i])) {
      assert ops[..d][..i] == ops[..i];
    }
  }

  /** A drain after the last packet of the keyframe: it is out. */
  lemma KeyframeLeaves(g: Gate, ops: seq<Op>, fs: seq<Frame>, start: int, timeout: int)
    requires Succession(fs) && fs[0].keyframe && Ready(g, fs) && start > 0
    requires Schedule(ops, fs, start, timeout) && StartsInOrder(ops, fs) && Patient(ops, fs)
    requires ops != [] && ops[|ops| - 1].DrainAt? && AllIn(fs[0], Delivered(ops))
    ensures var r := Run(g, ops, timeout); Frames(r.events) != [] && Phase(r.gate, r.events, fs, Delivered(ops), start)
  {
    hide Succession, Step, Regaining, Ready, Delivered, StartsInOrder, Patient, InTurn, NotAhead, Run, Frames, AllIn;
    var n := |ops| - 1;
    OrderPrefix(ops, fs, n);
    PatientPrefix(ops, fs, n);
    PatientNext(ops, fs);
    ScheduleRegains(g, ops[..n], fs, start, timeout);
    DeliveredLast(ops);
    assert Delivered(ops) == Delivered(ops[..n]);
    var before := Run(g, ops[..n], timeout);
    assert InWindow(ops[n], fs, start, timeout);
    RegainStep(before.gate, before.events, fs, Delivered(ops[..n]), ops[n], start, timeout);
    assert ops[..n] + [ops[n]] == ops;
    RunStep(g, ops[..n], ops[n], timeout);
    PhaseOnceOut(Run(g, ops, timeout), fs, Delivered(ops), start);
  }

  lemma PhaseOnceOut(r: Outcome, fs: seq<Frame>, got: set<Packet>, start: int)
    requires Succession(fs)
    requires Regaining(r.gate, r.events, fs, got, start) && Frames(r.events) != []
    ensures Phase(r.gate, r.events, fs, got, start)
  {
  }

  /**
   * An unsynchronised gate with no whole keyframe: whatever the order, repetition and batching of a keyframe's packets,
   * once all of them have arrived in time and the gate has been drained, exactly that keyframe has left and the gate is
   * synchronised and waits for its successor.
   */
  lemma ResyncConfluent(g: Gate, ops: seq<Op>, f: Frame, start: int, timeout: int)
    requires FramePackets(f) && f.keyframe && f.frameId + 1 < 0x1_0000_0000 && Ready(g, [f]) && start > 0
    requires Schedule(ops, [f], start, timeout) && ops != [] && ops[|ops| - 1].DrainAt?
    requires AllIn(f, Delivered(ops))
    ensures var r := Run(g, ops, timeout);
      && Frames(r.events) == [f] && NothingLost(r.events)
      && r.gate.synced && r.gate.epoch == Some(f.epoch) && r.gate.next == Some(f.frameId + 1)
  {
    hide FramePackets, Ready, Schedule, Delivered, AllIn, Run, Frames, NothingLost, StartsInOrder, Patient, InPlace;
    SingleFrame(ops, f);
    KeyframeLeaves(g, ops, [f], start, timeout);
    var r := Run(g, ops, timeout);
    assert |Frames(r.events)| == 1;
    Stands(r.gate, [f], Delivered(ops), start, 1);
  }

  lemma SingleFrame(ops: seq<Op>, f: Frame)
    ensures StartsInOrder(ops, [f]) && Patient(ops, [f])
  {
  }

  /** All frames leave, the keyframe with the drain before the last at the latest and the others with the last one. */
  lemma AllFollow(g: Gate, ops: seq<Op>, fs: seq<Frame>, start: int, timeout: int)
    requires Succession(fs) && fs[0].keyframe && Ready(g, fs) && start > 0
    requires Schedule(ops, fs, start, timeout) && StartsInOrder(ops, fs) && Patient(ops, fs)
    requires |ops| >= 2 && ops[|ops| - 1].DrainAt? && ops[|ops| - 2].DrainAt?
    requires forall j | 0 <= j < |fs| :: AllIn(fs[j], Delivered(ops))
    ensures var r := Run(g, ops, timeout);
      && Frames(r.events) == fs && NothingLost(r.events) && InPlace(r.gate, fs, Delivered(ops), start, |fs|)
  {
    hide FramePackets, Ready, Delivered, AllIn, Run, Frames, NothingLost, StartsInOrder, Patient, InPlace, Advance;
    var n := |ops| - 1;
    var got := Delivered(ops);
    OrderPrefix(ops, fs, n);
    PatientPrefix(ops, fs, n);
    DeliveredLast(ops);
    assert Delivered(ops[..n]) == got;
    KeyframeLeaves(g, ops[..n], fs, start, timeout);
    var before := Run(g, ops[..n], timeout);
    Stands(before.gate, fs, got, start, |Frames(before.events)|);
    AdvancePhase(before.gate, before.events, fs, got, start, ops[n].at, timeout);
    assert ops[..n] + [ops[n]] == ops;
    RunStep(g, ops[..n], ops[n], timeout);
    var frames := Frames(Run(g, ops, timeout).events);
    assert |frames| == |fs|;
    assert frames == fs;
  }
}

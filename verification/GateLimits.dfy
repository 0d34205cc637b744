/** Which packets a synchronised gate takes in without losing synchronisation. */
module GateLimits {
  import opened Words
  import opened StampedPacket
  import opened FrameGate
  import opened GateInvariant
  import opened DecodeSafety

  /** Where the ids that a packet of frame `id` brings into the buffer begin. */
  function GapStart(g: Gate, id: U32): U32 {
    if g.next.Some? && g.next.value < id then g.next.value else id
  }

  /** The ids buffered once frame `id` and the gap before it are in. */
  function Reach(g: Gate, id: U32): set<U32> {
    g.frames.Keys + Ids(GapStart(g, id), id + 1)
  }

  predicate Room(g: Gate, id: U32) {
    |Reach(g, id)| <= MAX_FRAMES
  }

  /** The packet fits its frame if that is under assembly; else there is room for the frame and the gap before it. */
  predicate Accepts(g: Gate, p: Packet) {
    && Usable(p) && g.epoch == Some(p.metadata.value.epoch)
    && var md := p.metadata.value;
       if md.frameId in g.frames then Matches(g.frames[md.frameId], md) else Room(g, md.frameId)
  }

  lemma EvictKeepsOrLoses(g: Gate)
    ensures Evict(g).synced ==> Evict(g) == g
    ensures if |g.frames| > MAX_FRAMES then !Evict(g).synced else Evict(g) == g
    decreases |g.frames|
  {
    if |g.frames| > MAX_FRAMES {
      EvictOnlyLoses(g.(frames := g.frames - {Least(g.frames.Keys)}, synced := false));
    }
  }

  lemma SubsetFull<T>(a: set<T>, b: set<T>)
    requires a <= b && |a| >= |b|
    ensures a == b
  {
    assert b == a + (b - a);
  }

  /** The ids buffered once the gap loop has run to the end. */
  function Bridged(g: Gate, id: U32): set<U32> {
    g.frames.Keys + Ids(GapStart(g, id), id)
  }

  lemma BridgedRoom(g: Gate, id: U32)
    ensures Reach(g, id) == Bridged(g, id) + {id}
  {
    hide Ids;
    IdsNext(GapStart(g, id), id);
  }

  /** The gap loop either bridges the whole gap or fills the buffer; frames already there stay. */
  lemma AnnounceShape(g: Gate, md: Metadata, now: int)
    requires g.next.Some?
    ensures var r := Announce(g, md, now);
      && r == g.(frames := r.frames) && g.frames.Keys <= r.frames.Keys <= Bridged(g, md.frameId)
      && (forall id | id in r.frames ::
            r.frames[id] == if id in g.frames then g.frames[id] else Placeholder(md.epoch, id, now))
      && (r.frames.Keys == Bridged(g, md.frameId) || |r.frames| >= MAX_FRAMES)
      && (|g.frames| <= MAX_FRAMES ==> |r.frames| <= MAX_FRAMES)
  {
    hide FillGap, GapTurns;
    if md.frameId > g.next.value {
      FillGapShape(g.frames, g.next.value, md.frameId, md.epoch, now);
    }
  }

  /** With room the whole gap is bridged. */
  lemma RoomBridges(g: Gate, md: Metadata, now: int)
    requires g.next.Some? && Room(g, md.frameId)
    ensures Announce(g, md, now).frames.Keys == Bridged(g, md.frameId)
  {
    hide Announce, Ids;
    AnnounceShape(g, md, now);
    BridgedRoom(g, md.frameId);
    var keys, all := Announce(g, md, now).frames.Keys, Bridged(g, md.frameId);
    SubsetSize(all, all + {md.frameId});
    assert |Announce(g, md, now).frames| == |keys|;
    if |keys| >= MAX_FRAMES {
      SubsetFull(keys, all);
    }
  }

  lemma FoundFirst(frames: map<U32, Assembly>, p: Packet, md: Metadata, now: int)
    requires md.frameId in frames && frames[md.frameId].firstSeen > 0
    ensures Opening(frames, p, md, now) == frames[md.frameId]
  {
  }

  lemma OpenedMatches(frames: map<U32, Assembly>, p: Packet, md: Metadata, now: int)
    requires md.frameId !in frames
    ensures Matches(Opening(frames, p, md, now), md)
  {
  }

  /** A frame that is not in the buffer yet: after the gap loop it still fits exactly if there was room. */
  lemma Newcomer(g: Gate, md: Metadata, now: int)
    requires g.next.Some? && md.frameId !in g.frames
    ensures md.frameId !in Announce(g, md, now).frames
    ensures |Announce(g, md, now).frames.Keys + {md.frameId}| <= MAX_FRAMES <==> Room(g, md.frameId)
  {
    hide Announce;
    AnnounceShape(g, md, now);
    BridgedRoom(g, md.frameId);
    if Room(g, md.frameId) {
      RoomBridges(g, md, now);
    }
  }

  /** A packet that differs from its frame in count or keyframe flag throws the frame away, with synchronisation. */
  lemma MismatchDiscards(g: Gate, p: Packet, now: int)
    requires g.next.Some? && Usable(p) && g.epoch == Some(p.metadata.value.epoch)
    requires var md := p.metadata.value;
      && md.frameId in g.frames && g.frames[md.frameId].firstSeen > 0
      && (g.frames[md.frameId].count != md.count || g.frames[md.frameId].keyframe != md.keyframe)
    ensures !Process(g, p, now).synced && p.metadata.value.frameId !in Process(g, p, now).frames
    ensures forall id | id in g.frames && id != p.metadata.value.frameId ::
      id in Process(g, p, now).frames && Process(g, p, now).frames[id] == g.frames[id]
  {
    hide Announce;
    var md := p.metadata.value;
    AnnounceShape(g, md, now);
    FoundFirst(Announce(g, md, now).frames, p, md, now);
  }

  /** A placeholder has no room for the packets of its own frame: the first one throws it away. */
  lemma PlaceholderRefuses(g: Gate, p: Packet, now: int)
    requires g.next.Some? && Usable(p) && g.epoch == Some(p.metadata.value.epoch)
    requires p.metadata.value.frameId in g.frames
    requires g.frames[p.metadata.value.frameId].count == 0 && g.frames[p.metadata.value.frameId].firstSeen > 0
    ensures !Process(g, p, now).synced && p.metadata.value.frameId !in Process(g, p, now).frames
  {
    hide Process;
    MismatchDiscards(g, p, now);
  }

  /** What storing does to a packet of the gate's epoch: the three ways it can go. */
  lemma StoreKeepsOrLoses(g: Gate, p: Packet, now: int)
    requires g.synced && g.next.Some? && Usable(p) && g.epoch == Some(p.metadata.value.epoch)
    ensures var md := p.metadata.value;
      var filled := Announce(g, md, now).frames;
      Process(g, p, now).synced <==>
        Matches(Opening(filled, p, md, now), md) && |filled.Keys + {md.frameId}| <= MAX_FRAMES
  {
    hide Announce, Opening, Matches, Place, Evict;
    var md := p.metadata.value;
    var filled := Announce(g, md, now);
    AnnounceFields(g, md, now);
    var placed := Place(Opening(filled.frames, p, md, now), p, md.index);
    var stored := filled.(frames := filled.frames[md.frameId := placed]);
    EvictKeepsOrLoses(stored);
    assert stored.frames.Keys == filled.frames.Keys + {md.frameId};
    assert |stored.frames| == |stored.frames.Keys|;
  }

  lemma AnnounceFields(g: Gate, md: Metadata, now: int)
    requires g.next.Some?
    ensures Announce(g, md, now) == g.(frames := Announce(g, md, now).frames)
  {
  }

  /** A packet leaves the gate synchronised exactly when the gate accepts it. */
  lemma KeepsSyncExactly(g: Gate, p: Packet, now: int)
    requires g.synced && g.next.Some? && |g.frames| <= MAX_FRAMES
    requires Usable(p) && p.metadata.value.frameId in g.frames ==> g.frames[p.metadata.value.frameId].firstSeen > 0
    ensures Process(g, p, now).synced <==> Accepts(g, p)
  {
    hide Process, Announce, Room, Opening, Matches, Bridged;
    if Usable(p) && g.epoch == Some(p.metadata.value.epoch) {
      var md := p.metadata.value;
      var filled := Announce(g, md, now).frames;
      AnnounceShape(g, md, now);
      StoreKeepsOrLoses(g, p, now);
      if md.frameId in g.frames {
        FoundFirst(filled, p, md, now);
        assert filled.Keys + {md.frameId} == filled.Keys;
        assert |filled| == |filled.Keys|;
      } else {
        Newcomer(g, md, now);
        OpenedMatches(filled, p, md, now);
      }
    } else {
      StrangerLoses(g, p, now);
    }
  }

  lemma StrangerLoses(g: Gate, p: Packet, now: int)
    requires g.synced && g.next.Some? && !(Usable(p) && g.epoch == Some(p.metadata.value.epoch))
    ensures !Process(g, p, now).synced
  {
    hide Store, Announce;
    if Usable(p) {
      var restarted := EnterEpoch(g, p.metadata.value);
      assert Process(g, p, now) == Process(restarted, p, now);
      ProcessOnlyLoses(restarted, p, now);
    }
  }

  /** A packet taken in: the gap before it is announced, its own frame is there, and nothing else moves. */
  lemma TakenIn(g: Gate, p: Packet, now: int)
    requires g.synced && g.next.Some? && Usable(p) && g.epoch == Some(p.metadata.value.epoch)
    requires Process(g, p, now).synced
    ensures var md, r := p.metadata.value, Process(g, p, now);
      var filled := Announce(g, md, now).frames;
      && r == g.(frames := r.frames) && |r.frames| <= MAX_FRAMES
      && r.frames.Keys == filled.Keys + {md.frameId}
      && forall id | id in filled && id != md.frameId :: r.frames[id] == filled[id]
  {
    hide Announce, Place, Evict, Opening, Ids, Bridged;
    var md := p.metadata.value;
    var filled := Announce(g, md, now);
    AnnounceShape(g, md, now);
    var f := Opening(filled.frames, p, md, now);
    EvictKeepsOrLoses(filled.(frames := filled.frames[md.frameId := Place(f, p, md.index)]));
  }

  /** The packet's own frame. */
  lemma OwnPlaced(g: Gate, p: Packet, now: int)
    requires g.synced && g.next.Some? && Usable(p) && g.epoch == Some(p.metadata.value.epoch)
    requires Process(g, p, now).synced
    ensures var md, r := p.metadata.value, Process(g, p, now);
      && md.frameId in r.frames
      && r.frames[md.frameId] == Place(Opening(Announce(g, md, now).frames, p, md, now), p, md.index)
  {
    hide Announce, Place, Evict, Opening, Matches;
    var md := p.metadata.value;
    AnnounceFields(g, md, now);
    var filled := Announce(g, md, now);
    var placed := Place(Opening(filled.frames, p, md, now), p, md.index);
    EvictKeepsOrLoses(filled.(frames := filled.frames[md.frameId := placed]));
  }

  /** Whether the gate still takes packets of the frame that is due after a packet of a later frame. */
  lemma DueAfterOvertaking(g: Gate, p: Packet, q: Packet, now: int)
    requires g.synced && g.next.Some? && now > 0
    requires Usable(p) && g.epoch == Some(p.metadata.value.epoch) && p.metadata.value.frameId > g.next.value
    requires Usable(q) && g.epoch == Some(q.metadata.value.epoch) && q.metadata.value.frameId == g.next.value
    requires Process(g, p, now).synced
    ensures Accepts(Process(g, p, now), q) <==>
      g.next.value in g.frames && Matches(g.frames[g.next.value], q.metadata.value)
  {
    hide Process, Announce, Reach, Bridged;
    var r, due := Process(g, p, now), g.next.value;
    var filled := Announce(g, p.metadata.value, now).frames;
    TakenIn(g, p, now);
    AnnounceShape(g, p.metadata.value, now);
    if due !in r.frames {
      BridgedAll(g, p.metadata.value.frameId, due);
      SubsetSize(filled.Keys, r.frames.Keys);
      assert |filled| == |filled.Keys| && |r.frames| == |r.frames.Keys|;
      DueReach(r, due);
    }
  }

  lemma BridgedAll(g: Gate, id: U32, between: U32)
    requires g.next.Some? && g.next.value <= between < id
    ensures between in Bridged(g, id)
  {
  }

  lemma DueReach(g: Gate, id: U32)
    requires g.next == Some(id) && id !in g.frames
    ensures |Reach(g, id)| == |g.frames.Keys| + 1
  {
    hide Ids;
    OneId(id);
    assert Reach(g, id) == g.frames.Keys + {id};
  }

  lemma OneId(id: U32)
    ensures Ids(id, id + 1) == {id}
  {
  }

  /**
   * Whether the gate absorbs that a packet `p` of a later frame overtakes a packet `q` of the frame that is due: it
   * does exactly if it can take in `p` and the due frame is under assembly already, with the same labels as `q`.
   */
  lemma OvertakingAbsorbedExactly(g: Gate, p: Packet, q: Packet, now: int, later: int)
    requires g.synced && g.next.Some? && |g.frames| <= MAX_FRAMES && now > 0
    requires forall id | id in g.frames :: g.frames[id].firstSeen > 0
    requires Usable(p) && g.epoch == Some(p.metadata.value.epoch) && p.metadata.value.frameId > g.next.value
    requires Usable(q) && g.epoch == Some(q.metadata.value.epoch) && q.metadata.value.frameId == g.next.value
    ensures Process(Process(g, p, now), q, later).synced <==>
      Accepts(g, p) && g.next.value in g.frames && Matches(g.frames[g.next.value], q.metadata.value)
  {
    hide Process, Accepts, Announce;
    var r := Process(g, p, now);
    ProcessOnlyLoses(g, p, now);
    KeepsSyncExactly(g, p, now);
    if r.synced {
      TakenIn(g, p, now);
      AnnounceShape(g, p.metadata.value, now);
      DueAfterOvertaking(g, p, q, now);
      KeepsSyncExactly(r, q, later);
    } else {
      ProcessOnlyLoses(r, q, later);
    }
  }
}

/** A full buffer: what is thrown out, and why a keyframe gets through however wide the gap before it is. */
module Overflow {
  import opened Words
  import opened StampedPacket
  import opened FrameGate
  import opened GateInvariant
  import opened GateLimits

  /** `r` is `g` cut down to 64 frames: the lowest ids are gone, everything else stays. */
  predicate LowestGone(g: Gate, r: Gate) {
    && r == g.(frames := r.frames, synced := r.synced) && r.frames.Keys <= g.frames.Keys
    && (forall id | id in r.frames :: r.frames[id] == g.frames[id])
    && (forall gone, stay | gone in g.frames && gone !in r.frames && stay in r.frames :: gone < stay)
    && |r.frames| == (if |g.frames| <= 64 then |g.frames| else 64)
    && (|g.frames| <= 64 ==> r == g)
  }

  lemma {:induction false} EvictLowest(g: Gate)
    ensures LowestGone(g, Evict(g))
    decreases |g.frames|
  {
    if |g.frames| > MAX_FRAMES {
      var k := Least(g.frames.Keys);
      var rest := g.(frames := g.frames - {k}, synced := false);
      assert g.frames.Keys == rest.frames.Keys + {k};
      assert |rest.frames| == |rest.frames.Keys| && |g.frames| == |g.frames.Keys|;
      EvictLowest(rest);
    }
  }

  /** The packet fits its frame if that is under assembly. */
  predicate Fits(g: Gate, p: Packet) {
    && Usable(p) && g.epoch == Some(p.metadata.value.epoch)
    && var md := p.metadata.value;
       md.frameId in g.frames ==>
         var f := g.frames[md.frameId];
         f.firstSeen > 0 && f.count == md.count && f.epoch == md.epoch && f.keyframe == md.keyframe
  }

  /** The buffer before anything is thrown out: what was there, the announced ids, and the packet in its frame. */
  function Stored(g: Gate, p: Packet, now: int): Gate
    requires Fits(g, p) && g.next.Some?
  {
    var md := p.metadata.value;
    var filled := Announce(g, md, now);
    filled.(frames := filled.frames[md.frameId := Place(Opening(filled.frames, p, md, now), p, md.index)])
  }

  lemma StoresThenEvicts(g: Gate, p: Packet, now: int)
    requires Fits(g, p) && g.next.Some?
    ensures Process(g, p, now) == Evict(Stored(g, p, now))
  {
    hide Announce, Opening, Place, Evict, Bridged;
    var md := p.metadata.value;
    var filled := Announce(g, md, now);
    AnnounceShape(g, md, now);
    if md.frameId in g.frames {
      FoundFirst(filled.frames, p, md, now);
    } else {
      Newcomer(g, md, now);
      OpenedMatches(filled.frames, p, md, now);
    }
  }

  /** `s` is `g` with frame `id`, and with ids of the gap before it unless the buffer was full. */
  predicate Widened(g: Gate, s: Gate, id: U32)
    requires g.next.Some?
  {
    && s == g.(frames := s.frames) && id in s.frames && g.frames.Keys <= s.frames.Keys
    && (forall k | k in s.frames && k !in g.frames && k != id :: g.next.value <= k < id && |g.frames| < 64)
    && (forall k | k in g.frames && k != id :: s.frames[k] == g.frames[k])
    && (|g.frames| <= 64 ==> |s.frames| <= if id in g.frames then 64 else 65)
    && (|g.frames| < 64 && g.next.value < id ==> g.next.value in s.frames)
    && (|g.frames| == 64 && id !in g.frames ==> |s.frames| == 65)
  }

  /** The gap loop alone. */
  predicate Bridging(g: Gate, filled: Gate, id: U32)
    requires g.next.Some?
  {
    && filled == g.(frames := filled.frames) && g.frames.Keys <= filled.frames.Keys
    && (forall k | k in filled.frames && k !in g.frames :: g.next.value <= k < id && |g.frames| < 64)
    && (forall k | k in g.frames :: filled.frames[k] == g.frames[k])
    && (|g.frames| <= 64 ==> |filled.frames| <= 64)
    && (|g.frames| < 64 && g.next.value < id ==> g.next.value in filled.frames)
    && (|g.frames| == 64 ==> filled == g)
  }

  lemma AnnounceBridges(g: Gate, md: Metadata, now: int)
    requires g.next.Some?
    ensures Bridging(g, Announce(g, md, now), md.frameId)
  {
    hide Announce, Bridged;
    AnnounceShape(g, md, now);
    AnnounceStarts(g, md, now);
    BridgedBetween(g, md.frameId);
  }

  lemma PlacedWidens(g: Gate, filled: Gate, s: Gate, id: U32, f: Assembly)
    requires g.next.Some? && Bridging(g, filled, id) && s == filled.(frames := filled.frames[id := f])
    ensures Widened(g, s, id)
  {
    assert s.frames.Keys == filled.frames.Keys + {id};
    assert |s.frames| == |s.frames.Keys| && |filled.frames| == |filled.frames.Keys|;
    if id in g.frames {
      assert s.frames.Keys == filled.frames.Keys;
    }
  }

  lemma StoredWidens(g: Gate, p: Packet, now: int)
    requires Fits(g, p) && g.next.Some?
    ensures Widened(g, Stored(g, p, now), p.metadata.value.frameId)
  {
    hide Announce, Opening, Place, Bridging, Widened;
    var md := p.metadata.value;
    var filled := Announce(g, md, now);
    AnnounceBridges(g, md, now);
    PlacedWidens(g, filled, Stored(g, p, now), md.frameId, Place(Opening(filled.frames, p, md, now), p, md.index));
  }

  lemma BridgedBetween(g: Gate, id: U32)
    requires g.next.Some?
    ensures forall k | k in Bridged(g, id) && k !in g.frames :: g.next.value <= k < id
  {
  }

  /** The gap loop adds the id that is due first, and nothing to a full buffer. */
  lemma AnnounceStarts(g: Gate, md: Metadata, now: int)
    requires g.next.Some?
    ensures |g.frames| >= 64 ==> Announce(g, md, now) == g
    ensures |g.frames| < 64 && g.next.value < md.frameId ==> g.next.value in Announce(g, md, now).frames
  {
    hide FillGap, GapTurns;
    if g.next.value < md.frameId {
      FillGapShape(g.frames, g.next.value, md.frameId, md.epoch, now);
      GapBegins(g, md, now);
    }
  }

  lemma GapBegins(g: Gate, md: Metadata, now: int)
    requires g.next.Some? && g.next.value < md.frameId
    ensures |g.frames| >= 64 ==> FillGap(g.frames, g.next.value, md.frameId, md.epoch, now) == g.frames
    ensures |g.frames| < 64 ==> GapTurns(g.frames, g.next.value, md.frameId, md.epoch, now) > 0
  {
  }

  /**
   * When a packet makes the buffer overflow, what goes is below everything that stays, and is at most one of the frames
   * that were there. The packet's own frame is kept unless the buffer was full of later frames.
   */
  lemma OverflowDropsOldest(g: Gate, p: Packet, now: int)
    requires Fits(g, p) && g.next.Some? && |g.frames| <= 64
    ensures var r, id := Process(g, p, now), p.metadata.value.frameId;
      && |r.frames| <= 64 && r.next == g.next && r.epoch == g.epoch
      && (forall gone, stay | gone in g.frames && gone !in r.frames && stay in r.frames :: gone < stay)
      && (forall a, b | a in g.frames && a !in r.frames && b in g.frames && b !in r.frames :: a == b)
      && (forall k | k in r.frames && k in g.frames && k != id :: r.frames[k] == g.frames[k])
      && (forall k | k in r.frames && k !in g.frames && k != id ::
            g.next.value <= k < id && r.frames[k].count == 0 && r.frames[k].firstSeen == now)
      && (id !in r.frames <==> |g.frames| == 64 && id !in g.frames && forall k | k in g.frames :: k > id)
  {
    hide Process, Evict, Stored;
    var id := p.metadata.value.frameId;
    var s := Stored(g, p, now);
    StoresThenEvicts(g, p, now);
    StoredWidens(g, p, now);
    AnnouncedNow(g, p, now);
    EvictLowest(s);
    var r := Evict(s);
    MissingOne(s.frames.Keys, r.frames.Keys);
    assert |s.frames| == |s.frames.Keys| && |r.frames| == |r.frames.Keys|;
    OwnGone(g, s, r, id);
  }

  lemma AnnouncedNow(g: Gate, p: Packet, now: int)
    requires Fits(g, p) && g.next.Some?
    ensures var s := Stored(g, p, now).frames;
      forall k | k in s && k !in g.frames && k != p.metadata.value.frameId :: s[k].count == 0 && s[k].firstSeen == now
  {
    hide Announce, Opening, Place, Bridged;
    AnnounceShape(g, p.metadata.value, now);
  }

  /** Exactly when the frame just stored is the one thrown out. */
  lemma OwnGone(g: Gate, s: Gate, r: Gate, id: U32)
    requires g.next.Some? && |g.frames| <= 64 && Widened(g, s, id) && LowestGone(s, r)
    requires forall a, b | a in s.frames && a !in r.frames && b in s.frames && b !in r.frames :: a == b
    ensures id !in r.frames <==> |g.frames| == 64 && id !in g.frames && forall k | k in g.frames :: k > id
  {
    assert |s.frames| == |s.frames.Keys| && |r.frames| == |r.frames.Keys| && |g.frames| == |g.frames.Keys|;
    if g.next.value >= id || |g.frames| == 64 {
      Unwidened(g, s, id);
    }
    if id in r.frames && |g.frames| == 64 && id !in g.frames {
      var m := SomethingMissing(s.frames.Keys, r.frames.Keys);
      assert m < id;
    }
  }

  lemma Unwidened(g: Gate, s: Gate, id: U32)
    requires g.next.Some? && Widened(g, s, id) && (g.next.value >= id || |g.frames| == 64)
    ensures s.frames.Keys == g.frames.Keys + {id}
  {
  }

  lemma SomethingMissing(all: set<U32>, left: set<U32>) returns (m: U32)
    requires left <= all && |left| < |all|
    ensures m in all && m !in left
  {
    assert all == left + (all - left);
    m :| m in all - left;
  }

  lemma PairSize(left: set<U32>, a: U32, b: U32)
    requires a != b && a !in left && b !in left
    ensures |left + {a, b}| == |left| + 2
  {
  }

  /** One key less at most. */
  lemma MissingOne(all: set<U32>, left: set<U32>)
    requires left <= all && |all| <= |left| + 1
    ensures forall a, b | a in all && a !in left && b in all && b !in left :: a == b
  {
    forall a, b | a in all && a !in left && b in all && b !in left ensures a == b {
      if a != b {
        PairSize(left, a, b);
        SubsetSize(left + {a, b}, all);
      }
    }
  }
}

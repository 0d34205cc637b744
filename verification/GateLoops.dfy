/** The gate's loops over its ordered map: what an iteration adds and what the finished loop amounts to. */
module GateLoops {
  import opened Words
  import opened Rtp
  import opened StampedPacket
  import opened FrameGate
  import opened GateInvariant
  import opened GateOutput
  import Nack

  lemma PoolGrows(g: Gate, pool: set<Packet>, p: Packet)
    requires Sound(g, pool)
    ensures Sound(g, pool + {p})
  {
    forall id | id in g.frames ensures SlotsOk(g.frames[id], pool + {p}) {
      var f := g.frames[id];
      assert SlotsOk(f, pool);
    }
  }

  lemma AnnounceSound(g: Gate, md: Metadata, now: int, pool: set<Packet>)
    requires Sound(g, pool) && now > 0
    ensures |EnterEpoch(g, md).frames| <= MAX_FRAMES
    ensures Sound(EnterEpoch(g, md), pool) && Sound(Announce(EnterEpoch(g, md), md, now), pool)
  {
    hide SlotsOk, FillGap;
    var g1 := EnterEpoch(g, md);
    if md.frameId > g1.next.value {
      FillGapOk(g1.frames, g1.next.value, md.frameId, md.epoch, now, pool);
    }
  }

  lemma InOrderKeys(frames: map<U32, Assembly>)
    ensures forall j | 0 <= j < |InOrder(frames.Keys)| :: InOrder(frames.Keys)[j] in frames
  {
    forall j | 0 <= j < |InOrder(frames.Keys)| ensures InOrder(frames.Keys)[j] in frames.Keys {
      assert InOrder(frames.Keys)[j] in InOrder(frames.Keys);
    }
  }

  /** An assembly that matches the packet has a slot for it. */
  lemma SlotInRange(g: Gate, md: Metadata, pool: set<Packet>)
    requires Sound(g, pool)
    ensures md.frameId in g.frames ==>
      g.frames[md.frameId].firstSeen > 0 && |g.frames[md.frameId].packets| == g.frames[md.frameId].count
  {
    if md.frameId in g.frames {
      assert SlotsOk(g.frames[md.frameId], pool);
    }
  }

  /** Where the scan stands: everything below has been looked at. */
  function Bound(order: seq<U32>, i: nat): int
    requires i <= |order|
  {
    if i < |order| then order[i] else 0x1_0000_0000
  }

  lemma BoundStep(frames: map<U32, Assembly>, order: seq<U32>, i: nat, at: int, timeout: int)
    requires order == InOrder(frames.Keys) && i < |order|
    ensures var id := order[i];
      var stale := Stale(frames, Bound(order, i), at, timeout);
      && id in frames && id !in stale
      && Stale(frames, Bound(order, i + 1), at, timeout) ==
           stale + if Useless(frames[id], at, timeout) then {id} else {}
  {
    hide Complete, Expired, InOrder;
    var id := order[i];
    assert id in order;
    forall k | k in frames ensures k < Bound(order, i + 1) <==> k < id || k == id {
      assert k in order;
      var j :| 0 <= j < |order| && order[j] == k;
    }
  }

  lemma FirstKeyframe(frames: map<U32, Assembly>, order: seq<U32>, i: nat)
    requires order == InOrder(frames.Keys) && i < |order|
    requires forall j | 0 <= j < |order| :: order[j] in frames
    requires Decodable(frames[order[i]]) && forall j | 0 <= j < i :: !Decodable(frames[order[j]])
    ensures Candidates(frames) != {} && Least(Candidates(frames)) == order[i]
  {
    hide Decodable, InOrder;
    assert order[i] in Candidates(frames);
    forall k | k in Candidates(frames) ensures order[i] <= k {
      assert k in order;
      var j :| 0 <= j < |order| && order[j] == k;
    }
  }

  lemma NoKeyframe(frames: map<U32, Assembly>, order: seq<U32>)
    requires order == InOrder(frames.Keys)
    requires forall j | 0 <= j < |order| :: order[j] in frames && !Decodable(frames[order[j]])
    ensures Candidates(frames) == {}
  {
    hide Decodable, InOrder;
    forall k | k in frames ensures !Decodable(frames[k]) {
      assert k in order;
      var j :| 0 <= j < |order| && order[j] == k;
    }
  }

  /** The scan has passed the first `i` keys. */
  ghost predicate Scanned(g: Gate, order: seq<U32>, i: nat, at: int, timeout: int, frames: map<U32, Assembly>,
                          dropped: int) {
    && i <= |order|
    && frames == g.frames - Stale(g.frames, Bound(order, i), at, timeout)
    && dropped == g.droppedFrames + |Stale(g.frames, Bound(order, i), at, timeout)|
    && forall j | 0 <= j < i :: order[j] in g.frames && !Decodable(g.frames[order[j]])
  }

  lemma ScanStart(g: Gate, order: seq<U32>, at: int, timeout: int)
    requires order == InOrder(g.frames.Keys)
    ensures Scanned(g, order, 0, at, timeout, g.frames, g.droppedFrames)
  {
    hide InOrder;
    forall k | k in g.frames ensures k >= Bound(order, 0) {
      assert k in order;
      var j :| 0 <= j < |order| && order[j] == k;
    }
    assert Stale(g.frames, Bound(order, 0), at, timeout) == {};
    assert g.frames - {} == g.frames;
  }

  lemma ScanNext(g: Gate, order: seq<U32>, i: nat, at: int, timeout: int, frames: map<U32, Assembly>, dropped: int)
    requires order == InOrder(g.frames.Keys) && i < |order|
    requires Scanned(g, order, i, at, timeout, frames, dropped)
    ensures var id := order[i];
      && id in g.frames && id in frames && frames[id] == g.frames[id]
      && (!Decodable(frames[id]) ==>
            if Complete(frames[id]) || Expired(frames[id], at, timeout)
            then Scanned(g, order, i + 1, at, timeout, frames - {id}, dropped + 1)
            else Scanned(g, order, i + 1, at, timeout, frames, dropped))
  {
    hide Decodable, Complete, Expired, InOrder, Stale, Bound;
    BoundStep(g.frames, order, i, at, timeout);
    var stale := Stale(g.frames, Bound(order, i), at, timeout);
    RemoveOneMore(g.frames, stale, order[i]);
  }

  lemma RemoveOneMore(frames: map<U32, Assembly>, stale: set<U32>, id: U32)
    requires id !in stale
    ensures frames - (stale + {id}) == (frames - stale) - {id} && |stale + {id}| == |stale| + 1
    ensures stale + {} == stale
  {
  }

  /** What the scan leaves when it stops at a keyframe. */
  lemma FoundKeyframe(g: Gate, order: seq<U32>, i: nat, at: int, timeout: int, frames: map<U32, Assembly>, dropped: int)
    requires order == InOrder(g.frames.Keys) && i < |order|
    requires Scanned(g, order, i, at, timeout, frames, dropped)
    requires order[i] in g.frames && Decodable(g.frames[order[i]])
    ensures var id := order[i];
      var f := g.frames[id];
      var r := Resync(g, at, timeout);
      && r.gate == g.(frames := map k | k in frames && k > id :: frames[k], droppedFrames := dropped,
                      completeFrames := g.completeFrames + 1, synced := true, next := Some(Wrap32(f.frameId + 1)))
      && Output(r.events) == Messages(FrameOf(f).packets) && Sent(r.events) == [AckMessage(f.epoch, f.frameId)]
  {
    hide Decodable, Complete, FrameOf, InOrder, Output, Sent, Messages, Expired, Candidates;
    InOrderKeys(g.frames);
    FirstKeyframe(g.frames, order, i);
    var f := g.frames[order[i]];
    ResyncOutput(FrameOf(f), f.epoch, f.frameId);
  }

  /** What the scan leaves when there is no keyframe. */
  lemma FoundNothing(g: Gate, order: seq<U32>, at: int, timeout: int, frames: map<U32, Assembly>, dropped: int)
    requires order == InOrder(g.frames.Keys) && Scanned(g, order, |order|, at, timeout, frames, dropped)
    ensures dropped >= 0 && Resync(g, at, timeout) == Outcome(g.(frames := frames, droppedFrames := dropped), [])
  {
    hide Decodable, Stale, InOrder;
    NoKeyframe(g.frames, order);
    NothingFound(g, at, timeout);
  }

  lemma NothingFound(g: Gate, at: int, timeout: int)
    requires Candidates(g.frames) == {}
    ensures var stale := Stale(g.frames, 0x1_0000_0000, at, timeout);
      Resync(g, at, timeout) ==
        Outcome(g.(frames := g.frames - stale, droppedFrames := g.droppedFrames + |stale|), [])
  {
    hide Candidates, Stale;
  }

  lemma ResyncOutput(f: Frame, epoch: U16, id: U32)
    ensures Output([Emit(f), KeyframeAck(epoch, id)]) == Messages(f.packets)
    ensures Sent([Emit(f), KeyframeAck(epoch, id)]) == [AckMessage(epoch, id)]
  {
    OutputOfEmit(f);
    OutputOfAck(epoch, id);
    Appended([Emit(f)], [KeyframeAck(epoch, id)]);
    assert [Emit(f), KeyframeAck(epoch, id)] == [Emit(f)] + [KeyframeAck(epoch, id)];
  }

  lemma NoEvents()
    ensures Quiet([]) && Output([]) == [] && Sent([]) == []
  {
  }

  /** What is out already, and what the current state will still put out, make up what the first state put out. */
  ghost predicate Continues(g: Gate, now: Gate, ready: seq<Msg>, at: int, timeout: int) {
    var all, rest := Advance(g, at, timeout), Advance(now, at, timeout);
    all.gate == rest.gate && Output(all.events) == ready + Output(rest.events) && Sent(all.events) == Sent(rest.events)
  }

  lemma ContinuesStart(g: Gate, at: int, timeout: int)
    ensures Continues(g, g, [], at, timeout)
  {
  }

  /** One turn of the in-order loop. */
  lemma ContinuesNext(g: Gate, now: Gate, ready: seq<Msg>, at: int, timeout: int)
    requires Continues(g, now, ready, at, timeout)
    requires now.next.Some? && now.next.value in now.frames && Complete(now.frames[now.next.value])
    ensures var id := now.next.value;
      Continues(g, Without(now, id).(completeFrames := now.completeFrames + 1),
                ready + Messages(FrameOf(now.frames[id]).packets), at, timeout)
  {
    hide Complete, FrameOf, Messages, Output, Sent;
    var id := now.next.value;
    var f := FrameOf(now.frames[id]);
    var rest := Advance(Without(now, id).(completeFrames := now.completeFrames + 1), at, timeout);
    OutputOfEmit(f);
    Appended([Emit(f)], rest.events);
    assert [] + Sent(rest.events) == Sent(rest.events);
    assert ready + (Messages(f.packets) + Output(rest.events)) == ready + Messages(f.packets) + Output(rest.events);
  }

  /** The loop ends: nothing more comes out. */
  lemma ContinuesEnd(g: Gate, now: Gate, ready: seq<Msg>, at: int, timeout: int)
    requires Continues(g, now, ready, at, timeout)
    requires now.next.Some? && now.next.value in now.frames ==> !Complete(now.frames[now.next.value])
    ensures var all := Advance(g, at, timeout); Output(all.events) == ready && Sent(all.events) == []
    ensures Advance(g, at, timeout).gate ==
      if now.next.Some? && now.next.value in now.frames && Expired(now.frames[now.next.value], at, timeout)
      then Without(now, now.next.value).(droppedFrames := now.droppedFrames + 1, synced := false) else now
  {
    hide Complete, Expired, FrameOf, Output, Sent;
    LossOutput();
    NoEvents();
    assert ready + [] == ready;
  }

  lemma LossOutput()
    ensures Output([Lost]) == [] && Sent([Lost]) == []
  {
    QuietEvents([Lost]);
  }

  lemma DrainStep(ops: seq<Op>, at: int, timeout: int)
    ensures var before := Run(START, ops, timeout);
      var r := Drain(before.gate, at, timeout);
      Run(START, ops + [DrainAt(at)], timeout) == Outcome(r.gate, before.events + r.events)
  {
    RunStep(START, ops, DrainAt(at), timeout);
  }

  lemma PollStep(ops: seq<Op>, at: int, timeout: int)
    ensures var before := Run(START, ops, timeout);
      var r := Poll(before.gate, at, timeout);
      Run(START, ops + [PollAt(at)], timeout) == Outcome(r.gate, before.events + r.events)
  {
    RunStep(START, ops, PollAt(at), timeout);
  }

  function Polled(f: Assembly, at: int, timeout: int): Assembly {
    if Due(f, at, timeout) then f.(lastNack := at) else f
  }

  /** The first `i` keys. */
  function Upto(order: seq<U32>, i: nat): set<U32>
    requires i <= |order|
  {
    set j | 0 <= j < i :: order[j]
  }

  lemma UptoNext(order: seq<U32>, i: nat)
    requires i < |order| && forall j, k | 0 <= j < k < |order| :: order[j] < order[k]
    ensures order[i] !in Upto(order, i) && Upto(order, i + 1) == Upto(order, i) + {order[i]}
  {
  }

  /** The timer loop has passed the first `i` keys. */
  ghost predicate PolledSoFar(g: Gate, order: seq<U32>, i: nat, at: int, timeout: int,
                              frames: map<U32, Assembly>, sent: seq<Control>, nacks: int)
  {
    && i <= |order| && frames.Keys == g.frames.Keys
    && (forall id | id in frames :: frames[id] ==
          if id in Upto(order, i) then Polled(g.frames[id], at, timeout) else g.frames[id])
    && var events := Nacks(g.frames, order[..i], at, timeout);
       sent == Sent(events) && nacks == g.nackPackets + |events|
  }

  lemma PolledNone(g: Gate, order: seq<U32>, at: int, timeout: int)
    ensures PolledSoFar(g, order, 0, at, timeout, g.frames, [], g.nackPackets)
  {
    hide Due;
  }

  lemma NacksNext(g: Gate, order: seq<U32>, i: nat, at: int, timeout: int)
    requires i < |order| && order[i] in g.frames
    ensures var f := g.frames[order[i]];
      var before, after := Nacks(g.frames, order[..i], at, timeout), Nacks(g.frames, order[..i + 1], at, timeout);
      if Due(f, at, timeout) then |after| == |before| + 1 && Sent(after) == Sent(before) + [NackMessage(NackGroups(f))]
      else after == before
  {
    hide Due, NackGroups, Sent;
    var id := order[i];
    var f := g.frames[id];
    assert order[..i + 1][..i] == order[..i];
    var before := Nacks(g.frames, order[..i], at, timeout);
    OutputOfNack(id, at, NackGroups(f));
    Appended(before, [NackSent(id, at, NackGroups(f))]);
    assert before + [] == before;
  }

  lemma OrderKeys(g: Gate, order: seq<U32>, i: nat)
    requires order == InOrder(g.frames.Keys) && i < |order|
    ensures order[i] in g.frames && order[i] !in Upto(order, i) && Upto(order, i + 1) == Upto(order, i) + {order[i]}
  {
    UptoNext(order, i);
    assert order[i] in order;
  }

  /** One turn of the timer loop. */
  lemma PolledNext(g: Gate, order: seq<U32>, i: nat, at: int, timeout: int, pool: set<Packet>,
                   frames: map<U32, Assembly>, sent: seq<Control>, nacks: int)
    requires Sound(g, pool) && order == InOrder(g.frames.Keys) && i < |order|
    requires PolledSoFar(g, order, i, at, timeout, frames, sent, nacks)
    ensures var id := order[i];
      && id in g.frames && id in frames && frames[id] == g.frames[id] && |frames[id].packets| == frames[id].count
      && (if Due(frames[id], at, timeout)
          then Nack.Missing(frames[id].firstSequence, Have(frames[id])) != []
            && PolledSoFar(g, order, i + 1, at, timeout, frames[id := frames[id].(lastNack := at)],
                           sent + [NackMessage(NackGroups(frames[id]))], nacks + 1)
          else PolledSoFar(g, order, i + 1, at, timeout, frames, sent, nacks))
  {
    hide Due, NackGroups, InOrder, Have, SlotsOk, Nacks, Sent, PolledSoFar;
    OrderKeys(g, order, i);
    PolledEntry(g, order, i, at, timeout, frames, sent, nacks);
    var f := g.frames[order[i]];
    PacketsCount(f, pool);
    if Due(f, at, timeout) {
      DueHasMissing(f, at, timeout);
      PolledDue(g, order, i, at, timeout, frames, sent, nacks);
    } else {
      PolledQuiet(g, order, i, at, timeout, frames, sent, nacks);
    }
  }

  lemma PolledEntry(g: Gate, order: seq<U32>, i: nat, at: int, timeout: int,
                    frames: map<U32, Assembly>, sent: seq<Control>, nacks: int)
    requires i < |order| && order[i] in g.frames && order[i] !in Upto(order, i)
    requires PolledSoFar(g, order, i, at, timeout, frames, sent, nacks)
    ensures order[i] in frames && frames[order[i]] == g.frames[order[i]]
  {
  }

  lemma PolledDue(g: Gate, order: seq<U32>, i: nat, at: int, timeout: int,
                  frames: map<U32, Assembly>, sent: seq<Control>, nacks: int)
    requires order == InOrder(g.frames.Keys) && i < |order| && order[i] in g.frames
    requires PolledSoFar(g, order, i, at, timeout, frames, sent, nacks) && Due(g.frames[order[i]], at, timeout)
    ensures var f := g.frames[order[i]];
      PolledSoFar(g, order, i + 1, at, timeout, frames[order[i] := f.(lastNack := at)],
                  sent + [NackMessage(NackGroups(f))], nacks + 1)
  {
    hide Due, NackGroups, InOrder, Nacks, Sent, Upto, Polled;
    OrderKeys(g, order, i);
    NacksNext(g, order, i, at, timeout);
    PolledIs(g.frames[order[i]], at, timeout);
  }

  lemma PolledIs(f: Assembly, at: int, timeout: int)
    ensures Polled(f, at, timeout) == if Due(f, at, timeout) then f.(lastNack := at) else f
  {
    hide Due;
  }

  lemma PolledQuiet(g: Gate, order: seq<U32>, i: nat, at: int, timeout: int,
                    frames: map<U32, Assembly>, sent: seq<Control>, nacks: int)
    requires order == InOrder(g.frames.Keys) && i < |order| && order[i] in g.frames
    requires PolledSoFar(g, order, i, at, timeout, frames, sent, nacks) && !Due(g.frames[order[i]], at, timeout)
    ensures PolledSoFar(g, order, i + 1, at, timeout, frames, sent, nacks)
  {
    hide Due, NackGroups, InOrder, Nacks, Sent, Upto, Polled;
    OrderKeys(g, order, i);
    NacksNext(g, order, i, at, timeout);
    PolledIs(g.frames[order[i]], at, timeout);
  }

  /** The timer loop is through. */
  lemma PolledAll(g: Gate, order: seq<U32>, at: int, timeout: int, frames: map<U32, Assembly>, sent: seq<Control>,
                  nacks: int)
    requires order == InOrder(g.frames.Keys) && PolledSoFar(g, order, |order|, at, timeout, frames, sent, nacks)
    ensures nacks >= 0 && Poll(g, at, timeout).gate == g.(frames := frames, nackPackets := nacks)
    ensures sent == Sent(Poll(g, at, timeout).events)
  {
    hide Due, Nacks, InOrder, Sent, Polled, Poll, PolledSoFar;
    PolledEverywhere(g, order, at, timeout, frames, sent, nacks);
    PolledTotals(g, order, at, timeout, frames, sent, nacks);
    PollShape(g, at, timeout, frames);
  }

  lemma PolledEverywhere(g: Gate, order: seq<U32>, at: int, timeout: int, frames: map<U32, Assembly>,
                         sent: seq<Control>, nacks: int)
    requires order == InOrder(g.frames.Keys) && PolledSoFar(g, order, |order|, at, timeout, frames, sent, nacks)
    ensures frames.Keys == g.frames.Keys
    ensures forall id | id in g.frames.Keys :: id in frames && frames[id] == Polled(g.frames[id], at, timeout)
  {
    hide InOrder, Nacks, Sent, Polled, Upto;
    UptoAll(g.frames, order);
  }

  lemma PolledTotals(g: Gate, order: seq<U32>, at: int, timeout: int, frames: map<U32, Assembly>, sent: seq<Control>,
                     nacks: int)
    requires PolledSoFar(g, order, |order|, at, timeout, frames, sent, nacks)
    ensures var events := Nacks(g.frames, order, at, timeout); sent == Sent(events) && nacks == g.nackPackets + |events|
  {
    hide Nacks, Sent, Polled, Upto;
    assert order[..|order|] == order;
  }

  lemma UptoAll(frames: map<U32, Assembly>, order: seq<U32>)
    requires order == InOrder(frames.Keys)
    ensures forall id | id in frames :: id in Upto(order, |order|)
  {
    hide InOrder;
    forall id | id in frames ensures id in Upto(order, |order|) {
      assert id in order;
      var j :| 0 <= j < |order| && order[j] == id;
    }
  }

  lemma PollShape(g: Gate, at: int, timeout: int, frames: map<U32, Assembly>)
    requires frames.Keys == g.frames.Keys
    requires forall id | id in g.frames.Keys :: id in frames && frames[id] == Polled(g.frames[id], at, timeout)
    ensures var events := Nacks(g.frames, InOrder(g.frames.Keys), at, timeout);
      Poll(g, at, timeout) == Outcome(g.(frames := frames, nackPackets := g.nackPackets + |events|), events)
  {
    hide Due, Nacks, InOrder;
    assert frames == Poll(g, at, timeout).gate.frames;
  }

  lemma PacketsCount(f: Assembly, pool: set<Packet>)
    requires SlotsOk(f, pool)
    ensures |f.packets| == f.count
  {
  }

  lemma {:induction false} NacksOutput(frames: map<U32, Assembly>, order: seq<U32>, at: int, timeout: int)
    requires forall id | id in order :: id in frames
    ensures Output(Nacks(frames, order, at, timeout)) == []
  {
    hide Due, NackGroups;
    if order != [] {
      var id := order[|order| - 1];
      var front := Nacks(frames, order[..|order| - 1], at, timeout);
      NacksOutput(frames, order[..|order| - 1], at, timeout);
      OutputOfNack(id, at, NackGroups(frames[id]));
      Appended(front, [NackSent(id, at, NackGroups(frames[id]))]);
      assert front + [] == front;
    }
  }

  lemma PollOutput(g: Gate, at: int, timeout: int)
    ensures Output(Poll(g, at, timeout).events) == []
  {
    hide Nacks;
    NacksOutput(g.frames, InOrder(g.frames.Keys), at, timeout);
  }
}

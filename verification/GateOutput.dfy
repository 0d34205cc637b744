/** What a run of the gate hands out: messages for the depacketizer and control messages for the peer. */
module GateOutput {
  import opened Words
  import opened Rtp
  import opened StampedPacket
  import opened FrameGate
  import Nack

  /** RTCP messages passed to the send callback. */
  datatype Control = NackMessage(groups: seq<Nack.Group>) | AckMessage(epoch: U16, frameId: U32)

  function Messages(packets: seq<Packet>): (r: seq<Msg>)
    ensures |r| == |packets|
  {
    seq(|packets|, i requires 0 <= i < |packets| => packets[i].msg)
  }

  function OutputOf(e: Event): seq<Msg> {
    if e.Emit? then Messages(e.frame.packets) else []
  }

  function SentFor(e: Event): seq<Control> {
    match e
    case NackSent(_, _, groups) => [NackMessage(groups)]
    case KeyframeAck(epoch, id) => [AckMessage(epoch, id)]
    case _ => []
  }

  /** The messages a list of events hands to the depacketizer. */
  function Output(events: seq<Event>): seq<Msg> {
    if events == [] then [] else Output(events[..|events| - 1]) + OutputOf(events[|events| - 1])
  }

  function Sent(events: seq<Event>): seq<Control> {
    if events == [] then [] else Sent(events[..|events| - 1]) + SentFor(events[|events| - 1])
  }

  lemma NothingOut()
    ensures Output([]) == [] && Sent([]) == []
  {
  }

  lemma OneMore(events: seq<Event>)
    requires events != []
    ensures var n := |events| - 1;
      && Output(events) == Output(events[..n]) + OutputOf(events[n])
      && Sent(events) == Sent(events[..n]) + SentFor(events[n])
  {
    hide OutputOf, SentFor;
  }

  lemma Appended(events: seq<Event>, more: seq<Event>)
    ensures Output(events + more) == Output(events) + Output(more)
    ensures Sent(events + more) == Sent(events) + Sent(more)
    decreases more
  {
    hide Output, Sent, OutputOf, SentFor;
    if more == [] {
      assert events + [] == events;
      NothingOut();
    } else {
      var n := |more| - 1;
      Appended(events, more[..n]);
      assert (events + more)[..|events| + n] == events + more[..n];
      OneMore(events + more);
      OneMore(more);
    }
  }

  lemma OutputOfEmit(f: Frame)
    ensures Output([Emit(f)]) == Messages(f.packets) && Sent([Emit(f)]) == []
  {
    assert [Emit(f)][..0] == [];
  }

  lemma OutputOfAck(epoch: U16, id: U32)
    ensures Output([KeyframeAck(epoch, id)]) == [] && Sent([KeyframeAck(epoch, id)]) == [AckMessage(epoch, id)]
  {
    assert [KeyframeAck(epoch, id)][..0] == [];
  }

  lemma OutputOfNack(id: U32, at: int, groups: seq<Nack.Group>)
    ensures Output([NackSent(id, at, groups)]) == [] && Sent([NackSent(id, at, groups)]) == [NackMessage(groups)]
  {
    assert [NackSent(id, at, groups)][..0] == [];
  }

  /** The step leaves output and control messages as they were. */
  predicate Quiet(events: seq<Event>) {
    Output(events) == [] && Sent(events) == []
  }

  lemma {:induction false} QuietEvents(events: seq<Event>)
    requires forall i | 0 <= i < |events| :: events[i].Lost? || events[i].Opened?
    ensures Quiet(events)
  {
    if events != [] {
      QuietEvents(events[..|events| - 1]);
    }
  }

  lemma ReceiveQuiet(g: Gate, p: Packet, now: int)
    ensures Quiet(Receive(g, p, now).events)
  {
    hide Process, FillGap;
    QuietEvents(Births(g, p, now) + LostBetween(g, Process(g, p, now)));
  }

  lemma ArriveStep(ops: seq<Op>, p: Packet, now: int, timeout: int)
    ensures var before := Run(START, ops, timeout);
      var r := Run(START, ops + [Arrive(p, now)], timeout);
      r.gate == Process(before.gate, p, now)
      && Output(r.events) == Output(before.events) && Sent(r.events) == Sent(before.events)
  {
    hide Receive, Quiet;
    RunStep(START, ops, Arrive(p, now), timeout);
    var before := Run(START, ops, timeout);
    ReceiveQuiet(before.gate, p, now);
    Appended(before.events, Receive(before.gate, p, now).events);
    ReceiveGate(before.gate, p, now);
  }

  lemma ReceiveGate(g: Gate, p: Packet, now: int)
    ensures Receive(g, p, now).gate == Process(g, p, now)
    ensures var es := Receive(g, p, now).events; Quiet(es) ==> Output(es) == [] && Sent(es) == []
  {
  }

  /** The media packets of a batch as arrivals, each with the clock reading taken for it. */
  function ArrivalOps(messages: seq<Msg>, times: seq<int>): seq<Op>
    requires |times| == |messages|
  {
    if messages == [] then []
    else
      var n := |messages| - 1;
      ArrivalOps(messages[..n], times[..n]) + if IsRtp(messages[n]) then [Arrive(Parse(messages[n]), times[n])] else []
  }

  function ControlOf(messages: seq<Msg>): seq<Msg> {
    if messages == [] then []
    else
      var m := messages[|messages| - 1];
      ControlOf(messages[..|messages| - 1]) + if IsRtp(m) then [] else [m]
  }

  // ---------------------------------------------------------------- what these lists hold, position by position

  /** How many of the first `n` messages are media. */
  function MediaBefore(messages: seq<Msg>, n: nat): set<nat>
    requires n <= |messages|
  {
    set k: nat | k < n && IsRtp(messages[k])
  }

  function OthersBefore(messages: seq<Msg>, n: nat): set<nat>
    requires n <= |messages|
  {
    set k: nat | k < n && !IsRtp(messages[k])
  }

  lemma BeforeNext(messages: seq<Msg>, n: nat)
    requires n < |messages|
    ensures |MediaBefore(messages, n + 1)| == |MediaBefore(messages, n)| + if IsRtp(messages[n]) then 1 else 0
    ensures |OthersBefore(messages, n + 1)| == |OthersBefore(messages, n)| + if IsRtp(messages[n]) then 0 else 1
  {
    hide IsRtp;
    assert MediaBefore(messages, n + 1) == MediaBefore(messages, n) + if IsRtp(messages[n]) then {n} else {};
    assert OthersBefore(messages, n + 1) == OthersBefore(messages, n) + if IsRtp(messages[n]) then {} else {n};
  }

  lemma BeforePrefix(messages: seq<Msg>, m: nat, n: nat)
    requires n <= m <= |messages|
    ensures MediaBefore(messages[..m], n) == MediaBefore(messages, n)
    ensures OthersBefore(messages[..m], n) == OthersBefore(messages, n)
  {
  }

  /** What the gate knows of a message: its metadata, sequence number and marker bit. */
  predicate Known(p: Packet, m: Msg)
    requires IsRtp(m)
  {
    && p.msg == m && p.metadata == ReadMetadata(m)
    && p.sequence == m.bytes[2] as int * 0x100 + m.bytes[3] as int && p.marker == (m.bytes[1] >= 0x80)
  }

  /** `steps` are one arrival for each media message of the batch, in order, with its own clock reading. */
  predicate ArrivesAll(steps: seq<Op>, messages: seq<Msg>, times: seq<int>)
    requires |times| == |messages|
  {
    && |steps| == |MediaBefore(messages, |messages|)|
    && forall i | 0 <= i < |messages| && IsRtp(messages[i]) ::
         var rank := |MediaBefore(messages, i)|;
         rank < |steps| && steps[rank].Arrive? && Known(steps[rank].packet, messages[i]) && steps[rank].at == times[i]
  }

  /** `passed` are the messages of the batch that are not media, in order. */
  predicate PassesAll(passed: seq<Msg>, messages: seq<Msg>) {
    && |passed| == |OthersBefore(messages, |messages|)|
    && forall i | 0 <= i < |messages| && !IsRtp(messages[i]) ::
         var rank := |OthersBefore(messages, i)|; rank < |passed| && passed[rank] == messages[i]
  }

  lemma ParseKnows(m: Msg)
    requires IsRtp(m)
    ensures Known(Parse(m), m)
  {
  }

  lemma {:induction false} ArrivalsAre(messages: seq<Msg>, times: seq<int>)
    requires |times| == |messages|
    ensures ArrivesAll(ArrivalOps(messages, times), messages, times)
  {
    hide IsRtp, Parse, Known, MediaBefore;
    if messages == [] {
      NoneBefore(messages);
    } else {
      var n := |messages| - 1;
      ArrivalsAre(messages[..n], times[..n]);
      if IsRtp(messages[n]) {
        ParseKnows(messages[n]);
      }
      BeforeNext(messages, n);
      BeforePrefix(messages, n, n);
      forall i | 0 <= i < n ensures MediaBefore(messages[..n], i) == MediaBefore(messages, i) {
        BeforePrefix(messages, n, i);
      }
    }
  }

  lemma NoneBefore(messages: seq<Msg>)
    ensures MediaBefore(messages, 0) == {} && OthersBefore(messages, 0) == {}
  {
  }

  lemma {:induction false} ControlIs(messages: seq<Msg>)
    ensures PassesAll(ControlOf(messages), messages)
  {
    hide IsRtp, OthersBefore;
    if messages == [] {
      NoneBefore(messages);
    } else {
      var n := |messages| - 1;
      ControlIs(messages[..n]);
      BeforeNext(messages, n);
      BeforePrefix(messages, n, n);
      forall i | 0 <= i < n ensures OthersBefore(messages[..n], i) == OthersBefore(messages, i) {
        BeforePrefix(messages, n, i);
      }
    }
  }

  predicate NoFrame(events: seq<Event>) {
    forall i | 0 <= i < |events| :: !events[i].Emit?
  }

  predicate NoMessage(events: seq<Event>) {
    forall i | 0 <= i < |events| :: !events[i].NackSent? && !events[i].KeyframeAck?
  }

  lemma {:induction false} NothingElseOut(events: seq<Event>)
    ensures NoFrame(events) ==> Output(events) == []
    ensures NoMessage(events) ==> Sent(events) == []
  {
    if events != [] {
      NothingElseOut(events[..|events| - 1]);
    }
  }

  lemma OneOut(e: Event)
    ensures Output([e]) == OutputOf(e) && Sent([e]) == SentFor(e)
  {
    hide OutputOf, SentFor;
    OneMore([e]);
    assert [e][..0] == [];
    NothingOut();
    assert [] + OutputOf(e) == OutputOf(e) && [] + SentFor(e) == SentFor(e);
  }

  /** Each emitted frame's packets are handed out whole and in order, between those of the frames around it. */
  lemma FrameHandedOut(before: seq<Event>, f: Frame, after: seq<Event>)
    ensures var out, at := Output(before + [Emit(f)] + after), |Output(before)|;
      && |out| == at + |f.packets| + |Output(after)|
      && out[..at] == Output(before) && out[at + |f.packets|..] == Output(after)
      && forall i | 0 <= i < |f.packets| :: out[at + i] == f.packets[i].msg
  {
    hide Output;
    Appended(before + [Emit(f)], after);
    Appended(before, [Emit(f)]);
    OneOut(Emit(f));
    var out, at := Output(before + [Emit(f)] + after), |Output(before)|;
    assert out == Output(before) + Messages(f.packets) + Output(after);
  }

  /** Each NACK and acknowledgement is sent, with its own contents, between those before and after it. */
  lemma MessageSent(before: seq<Event>, e: Event, after: seq<Event>)
    requires e.NackSent? || e.KeyframeAck?
    ensures Sent(before + [e] + after) ==
      Sent(before)
      + [if e.NackSent? then NackMessage(e.groups) else AckMessage(e.epoch, e.frameId)]
      + Sent(after)
  {
    hide Sent;
    Appended(before + [e], after);
    Appended(before, [e]);
    OneOut(e);
  }
}

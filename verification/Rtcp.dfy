/** The RTCP messages the two ends exchange: NACK (section 6.2.1 of RFC 4585), PLI and the keyframe acknowledgement. */
module Rtcp {
  import opened Words
  import opened Rtp
  import Nack

  const RTCP_HEADER_SIZE := 4
  const FEEDBACK_HEADER_SIZE := 12
  const ACK_SIZE := 20
  const TRANSPORT_FEEDBACK := 205
  const PAYLOAD_FEEDBACK := 206
  const APP := 204
  const ACK_NAME: U32 := 0x4B46_4F4B
  const NACK_SSRC: U32 := 0x1234_5678

  /** What the packets of a message ask of the sender. */
  datatype Tally = Tally(retransmitted: nat, pli: nat, acknowledged: bool)

  const NOTHING := Tally(0, 0, false)

  function Plus(a: Tally, b: Tally): Tally {
    Tally(a.retransmitted + b.retransmitted, a.pli + b.pli, a.acknowledged || b.acknowledged)
  }

  function PacketSize(b: seq<Byte>, offset: nat): (n: nat)
    requires offset + RTCP_HEADER_SIZE <= |b|
    ensures n >= RTCP_HEADER_SIZE
  {
    (ReadU16(b, offset + 2) + 1) * 4
  }

  /** The (PID, BLP) pairs of a NACK packet. */
  function GroupsOf(p: seq<Byte>): (r: seq<Nack.Group>)
    requires |p| >= FEEDBACK_HEADER_SIZE && |p| % 4 == 0
  {
    var n := |p| / 4 - 3;
    seq(n, i requires 0 <= i < n => Nack.Group(ReadU16(p, 12 + 4 * i), ReadU16(p, 14 + 4 * i)))
  }

  predicate IsNack(p: seq<Byte>) {
    |p| >= FEEDBACK_HEADER_SIZE && p[1] == TRANSPORT_FEEDBACK && p[0] % 0x20 == 1
  }

  predicate IsPli(p: seq<Byte>) {
    |p| >= RTCP_HEADER_SIZE && p[1] == PAYLOAD_FEEDBACK && p[0] % 0x20 == 1
  }

  predicate IsAck(p: seq<Byte>) {
    |p| >= ACK_SIZE && p[1] == APP && ReadU32(p, 8) == ACK_NAME
  }

  function TallyOf(p: seq<Byte>): Tally
    requires |p| % 4 == 0
  {
    if IsNack(p) then Tally(|Nack.Decode(GroupsOf(p))|, 0, false)
    else if IsPli(p) then Tally(0, 1, false)
    else if IsAck(p) then Tally(0, 0, true)
    else NOTHING
  }

  /** The packets of a compound message from `offset` on; a packet that overruns the message ends it. */
  function Walk(b: seq<Byte>, offset: nat): Tally
    decreases |b| - offset
  {
    if offset + RTCP_HEADER_SIZE > |b| || offset + PacketSize(b, offset) > |b| then NOTHING
    else
      var next := offset + PacketSize(b, offset);
      Plus(TallyOf(b[offset..next]), Walk(b, next))
  }

  /** Only control messages count. */
  function Received(messages: seq<Msg>): Tally {
    if messages == [] then NOTHING
    else
      var m := messages[|messages| - 1];
      Plus(Received(messages[..|messages| - 1]), if m.control then Walk(m.bytes, 0) else NOTHING)
  }

  function GroupBytes(groups: seq<Nack.Group>): (b: seq<Byte>)
    ensures |b| == 4 * |groups|
  {
    if groups == [] then []
    else
      var n := |groups| - 1;
      GroupBytes(groups[..n]) + BytesOfU16(groups[n].pid) + BytesOfU16(groups[n].blp)
  }

  /** The message `send_nack` builds. */
  function NackBytes(groups: seq<Nack.Group>): (b: seq<Byte>)
    requires |groups| < 0xFFFE
    ensures |b| == FEEDBACK_HEADER_SIZE + 4 * |groups|
  {
    [0x81, TRANSPORT_FEEDBACK] + BytesOfU16(2 + |groups|) + BytesOfU32(NACK_SSRC) + BytesOfU32(NACK_SSRC)
    + GroupBytes(groups)
  }

  /** The message `send_keyframe_ack` builds. */
  function AckBytes(epoch: U16, frameId: U32): (b: seq<Byte>)
    ensures |b| == ACK_SIZE
  {
    [0x80, APP] + BytesOfU16(4) + [0, 0, 0, 0] + BytesOfU32(ACK_NAME) + BytesOfU16(epoch) + [0, 0] + BytesOfU32(frameId)
  }

  lemma {:induction false} GroupBytesAt(groups: seq<Nack.Group>, i: nat)
    requires i < |groups|
    ensures var b := GroupBytes(groups);
      ReadU16(b, 4 * i) == groups[i].pid && ReadU16(b, 4 * i + 2) == groups[i].blp
  {
    var n := |groups| - 1;
    var b, front := GroupBytes(groups), GroupBytes(groups[..n]);
    if i < n {
      GroupBytesAt(groups[..n], i);
      assert forall k | 0 <= k < 4 * n :: b[k] == front[k];
    } else {
      assert b[4 * n..4 * n + 2] == BytesOfU16(groups[n].pid);
      assert b[4 * n + 2..4 * n + 2 + 2] == BytesOfU16(groups[n].blp);
      ReadBackU16(b, 4 * n, groups[n].pid);
      ReadBackU16(b, 4 * n + 2, groups[n].blp);
    }
  }

  lemma ReadShifted(b: seq<Byte>, body: seq<Byte>, at: nat)
    requires |b| >= 12 && b[12..] == body && at + 2 <= |body|
    ensures ReadU16(b, 12 + at) == ReadU16(body, at)
  {
    assert b[12 + at] == body[at] && b[12 + at + 1] == body[at + 1];
  }

  lemma NackSsrcBytes()
    ensures BytesOfU32(NACK_SSRC) == [0x12, 0x34, 0x56, 0x78]
  {
  }

  lemma NackBytesParse(groups: seq<Nack.Group>)
    requires |groups| < 0xFFFE
    ensures var b := NackBytes(groups);
      && |b| % 4 == 0 && IsNack(b) && PacketSize(b, 0) == |b| && GroupsOf(b) == groups
      && b[0] == 0x81 && b[1] == 205 && b[4..8] == b[8..12] == [0x12, 0x34, 0x56, 0x78]
  {
    hide GroupBytes, BytesOfU32, ReadU16;
    var b := NackBytes(groups);
    var body := GroupBytes(groups);
    assert b[2..2 + 2] == BytesOfU16(2 + |groups|);
    ReadBackU16(b, 2, 2 + |groups|);
    assert b[4..8] == b[8..12] == BytesOfU32(NACK_SSRC);
    NackSsrcBytes();
    assert b[12..] == body;
    forall i | 0 <= i < |groups| ensures GroupsOf(b)[i] == groups[i] {
      GroupBytesAt(groups, i);
      ReadShifted(b, body, 4 * i);
      ReadShifted(b, body, 4 * i + 2);
    }
  }

  lemma AckBytesParse(epoch: U16, frameId: U32)
    ensures var b := AckBytes(epoch, frameId);
      && IsAck(b) && PacketSize(b, 0) == |b| && !IsNack(b) && !IsPli(b)
      && ReadU16(b, 12) == epoch && ReadU32(b, 16) == frameId
      && b[0] == 0x80 && b[1] == 204 && b[8..12] == [0x4B, 0x46, 0x4F, 0x4B]
      && b[4..8] == [0, 0, 0, 0] && b[12] as int * 0x100 + b[13] as int == epoch && b[14..16] == [0, 0]
  {
    var b := AckBytes(epoch, frameId);
    assert b[2..2 + 2] == BytesOfU16(4);
    ReadBackU16(b, 2, 4);
    assert b[8..8 + 4] == BytesOfU32(ACK_NAME);
    ReadBackU32(b, 8, ACK_NAME);
    assert b[12..12 + 2] == BytesOfU16(epoch);
    ReadBackU16(b, 12, epoch);
    assert b[16..16 + 4] == BytesOfU32(frameId);
    ReadBackU32(b, 16, frameId);
    NameBytes(b);
  }

  lemma WalkSingle(b: seq<Byte>)
    requires |b| >= RTCP_HEADER_SIZE && PacketSize(b, 0) == |b|
    ensures |b| % 4 == 0 && Walk(b, 0) == TallyOf(b)
  {
    hide TallyOf;
    assert b[0..|b|] == b;
    assert Walk(b, |b|) == NOTHING;
  }

  /** A NACK for a frame is counted by the sender as exactly the frame's missing packets. */
  lemma NackCounted(first: U16, have: seq<bool>)
    requires |have| < 0x1_0000
    ensures |Nack.Pack(Nack.Missing(first, have))| < 0xFFFE
    ensures Walk(NackBytes(Nack.Pack(Nack.Missing(first, have))), 0) == Tally(|Nack.MissingIndices(have)|, 0, false)
  {
    hide Nack.Pack, Nack.Decode, Nack.MissingIndices, NackBytes, GroupsOf;
    var groups := Nack.Pack(Nack.Missing(first, have));
    Nack.PackSize(first, have);
    Nack.PackExact(first, have);
    NackBytesParse(groups);
    WalkSingle(NackBytes(groups));
  }

  /** A keyframe acknowledgement is recognised as one, and as nothing else. */
  lemma AckCounted(epoch: U16, frameId: U32)
    ensures Walk(AckBytes(epoch, frameId), 0) == Tally(0, 0, true)
  {
    hide AckBytes;
    AckBytesParse(epoch, frameId);
    WalkSingle(AckBytes(epoch, frameId));
  }

  /** A picture loss indication (section 6.3.1 of RFC 4585), whoever sends it. */
  function PliBytes(sender: U32, media: U32): (b: seq<Byte>)
    ensures |b| == FEEDBACK_HEADER_SIZE
  {
    [0x81, 206, 0, 2] + BytesOfU32(sender) + BytesOfU32(media)
  }

  /** It asks for a keyframe and for nothing else. */
  lemma PliCounted(sender: U32, media: U32)
    ensures Walk(PliBytes(sender, media), 0) == Tally(0, 1, false)
  {
    hide Walk, PliBytes, GroupsOf, Nack.Decode;
    var b := PliBytes(sender, media);
    PliHeader(sender, media);
    WalkSingle(b);
  }

  lemma PliHeader(sender: U32, media: U32)
    ensures var b := PliBytes(sender, media); b[0] == 0x81 && b[1] == 206 && b[2] == 0 && b[3] == 2
  {
    hide BytesOfU32;
  }

  /** What a single packet asks for, by the bytes of its header. */
  lemma TallyMeans(p: seq<Byte>)
    requires |p| >= 4 && |p| % 4 == 0
    ensures var t, first := TallyOf(p), p[0] % 0x20 == 1;
      && t.pli == (if p[1] == 206 && first then 1 else 0)
      && (t.acknowledged <==> p[1] == 204 && |p| >= 20 && p[8..12] == [0x4B, 0x46, 0x4F, 0x4B])
      && (t.retransmitted > 0 ==> p[1] == 205 && first && |p| >= 12)
      && (p[1] == 205 && first && |p| >= 12 ==> t.retransmitted == |Nack.Decode(GroupsOf(p))|)
  {
    if |p| >= 20 {
      NameBytes(p);
    }
  }

  lemma NameBytes(p: seq<Byte>)
    requires |p| >= 20
    ensures ReadU32(p, 8) == ACK_NAME <==> p[8..12] == [0x4B, 0x46, 0x4F, 0x4B]
  {
    assert p[8..12] == [p[8], p[9], p[10], p[11]];
  }

  /** A walk only looks ahead. */
  lemma {:induction false} WalkShifted(head: seq<Byte>, b: seq<Byte>, offset: nat)
    ensures Walk(head + b, |head| + offset) == Walk(b, offset)
    decreases |b| - offset
  {
    hide TallyOf, Walk;
    var all := head + b;
    if offset + RTCP_HEADER_SIZE <= |b| {
      assert all[|head| + offset + 2] == b[offset + 2] && all[|head| + offset + 3] == b[offset + 3];
      var next := offset + PacketSize(b, offset);
      WalkNext(b, offset);
      WalkNext(all, |head| + offset);
      if next <= |b| {
        assert all[|head| + offset..|head| + next] == b[offset..next];
        WalkShifted(head, b, next);
      }
    } else {
      WalkEnd(b, offset);
      WalkEnd(all, |head| + offset);
    }
  }

  /** A compound message asks for what its first packet asks for and for what the rest does. */
  lemma CompoundCounted(p: seq<Byte>, rest: seq<Byte>)
    requires |p| >= RTCP_HEADER_SIZE && PacketSize(p, 0) == |p|
    ensures |p| % 4 == 0 && Walk(p + rest, 0) == Plus(TallyOf(p), Walk(rest, 0))
  {
    hide TallyOf, Walk;
    var all := p + rest;
    assert all[2] == p[2] && all[3] == p[3];
    WalkNext(all, 0);
    assert all[0..|p|] == p;
    WalkShifted(p, rest, 0);
  }

  /** A packet that claims more bytes than are left ends the message; what follows it is not looked at. */
  lemma OverrunEnds(b: seq<Byte>)
    requires |b| >= RTCP_HEADER_SIZE && PacketSize(b, 0) > |b|
    ensures Walk(b, 0) == NOTHING
  {
  }

  /** The tally of a batch adds up that of its control messages; other messages ask for nothing. */
  lemma BatchCounted(messages: seq<Msg>, m: Msg)
    ensures Received([]) == NOTHING
    ensures Received(messages + [m]) == Plus(Received(messages), if m.control then Walk(m.bytes, 0) else NOTHING)
  {
    hide Walk;
    assert (messages + [m])[..|messages|] == messages;
  }

  lemma WalkNext(b: seq<Byte>, offset: nat)
    requires offset + RTCP_HEADER_SIZE <= |b|
    ensures var next := offset + PacketSize(b, offset);
      Walk(b, offset) == if next > |b| then NOTHING else Plus(TallyOf(b[offset..next]), Walk(b, next))
  {
    hide TallyOf;
  }

  lemma WalkEnd(b: seq<Byte>, offset: nat)
    ensures offset + RTCP_HEADER_SIZE > |b| ==> Walk(b, offset) == NOTHING
  {
  }

  /** The inner loop of `sender_incoming`: one compound message. */
  method WalkMessage(b: seq<Byte>) returns (t: Tally)
    ensures t == Walk(b, 0)
  {
    hide TallyOf, Walk;
    t := NOTHING;
    var offset := 0;
    while offset + RTCP_HEADER_SIZE <= |b|
      invariant Walk(b, 0) == Plus(t, Walk(b, offset))
      decreases |b| - offset
    {
      var packetSize := PacketSize(b, offset);
      WalkNext(b, offset);
      if packetSize < RTCP_HEADER_SIZE || offset + packetSize > |b| {
        return;
      }
      var one := TallyPacket(b[offset..offset + packetSize]);
      t := Plus(t, one);
      offset := offset + packetSize;
    }
    WalkEnd(b, offset);
  }

  method TallyPacket(p: seq<Byte>) returns (t: Tally)
    requires |p| % 4 == 0 && |p| >= RTCP_HEADER_SIZE
    ensures t == TallyOf(p)
  {
    if p[1] == TRANSPORT_FEEDBACK && p[0] % 0x20 == 1 && |p| >= FEEDBACK_HEADER_SIZE {
      var groups := GroupsOf(p);
      var count := 0;
      for i := 0 to |groups|
        invariant count == |Nack.Decode(groups[..i])|
      {
        assert groups[..i + 1][..i] == groups[..i];
        count := count + |Nack.DecodeGroup(groups[i])|;
      }
      assert groups[..|groups|] == groups;
      t := Tally(count, 0, false);
    } else if p[1] == PAYLOAD_FEEDBACK && p[0] % 0x20 == 1 {
      t := Tally(0, 1, false);
    } else if p[1] == APP && |p| >= ACK_SIZE && ReadU32(p, 8) == ACK_NAME {
      t := Tally(0, 0, true);
    } else {
      t := NOTHING;
    }
  }
}

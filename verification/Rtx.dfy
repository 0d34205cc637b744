/** Retransmission packets (section 4 of RFC 4588) and the handler that turns them back into media packets. */
module Rtx {
  import opened Words
  import opened Rtp

  datatype Streams = Streams(primaryType: nat, rtxType: nat, primarySsrc: U32, rtxSsrc: U32)

  predicate ValidStreams(s: Streams) {
    s.primaryType < 0x80 && s.rtxType < 0x80
  }

  function WithSequence(b: seq<Byte>, sequence: U16): (r: seq<Byte>)
    requires HasHeader(b)
    ensures |r| == |b|
  {
    b[..2] + BytesOfU16(sequence) + b[4..]
  }

  function WithPayloadType(b: seq<Byte>, t: nat): (r: seq<Byte>)
    requires HasHeader(b) && t < 0x80
    ensures |r| == |b|
  {
    b[1 := b[1] / 0x80 * 0x80 + t]
  }

  function WithSsrc(b: seq<Byte>, ssrc: U32): (r: seq<Byte>)
    requires HasHeader(b)
    ensures |r| == |b|
  {
    b[..8] + BytesOfU32(ssrc) + b[12..]
  }

  function Relabelled(b: seq<Byte>, t: nat, sequence: U16, ssrc: U32): (r: seq<Byte>)
    requires HasHeader(b) && t < 0x80
    ensures |r| == |b|
  {
    WithSsrc(WithSequence(WithPayloadType(b, t), sequence), ssrc)
  }

  /** The packet a sender retransmits for `p`: its own header, then the original sequence number, then the payload. */
  function Encapsulate(p: seq<Byte>, s: Streams, rtxSequence: U16): seq<Byte>
    requires ValidStreams(s) && Framed(p)
  {
    var at := PayloadOffset(p);
    var r := Relabelled(p, s.rtxType, rtxSequence, s.rtxSsrc);
    r[..at] + BytesOfU16(SequenceNumber(p)) + r[at..]
  }

  predicate IsRtx(m: Msg, s: Streams) {
    && IsRtp(m)
    && PayloadType(m.bytes) == s.rtxType && Ssrc(m.bytes) == s.rtxSsrc
    && |m.bytes| >= HeaderSize(m.bytes)
    && (Extension(m.bytes) ==> |m.bytes| >= HeaderSize(m.bytes) + EXTENSION_HEADER_SIZE)
    && |m.bytes| >= RtxOffset(m.bytes) + 2
  }

  /** Where the original sequence number stands; nothing here says the packet is that long. */
  function RtxOffset(b: seq<Byte>): (n: nat)
    requires HasHeader(b) && (Extension(b) ==> |b| >= HeaderSize(b) + EXTENSION_HEADER_SIZE)
  {
    if Extension(b) then HeaderSize(b) + EXTENSION_HEADER_SIZE + ExtensionSize(b) else HeaderSize(b)
  }

  function Unwrap(m: Msg, s: Streams): Msg
    requires ValidStreams(s)
  {
    if !IsRtx(m, s) then m
    else
      var at := RtxOffset(m.bytes);
      Msg(m.control, Relabelled(m.bytes[..at] + m.bytes[at + 2..], s.primaryType, ReadU16(m.bytes, at), s.primarySsrc))
  }

  /** The header fields after relabelling; everything else is byte for byte the same. */
  lemma RelabelledFields(b: seq<Byte>, t: nat, sequence: U16, ssrc: U32)
    requires HasHeader(b) && t < 0x80
    ensures var r := Relabelled(b, t, sequence, ssrc);
      && PayloadType(r) == t && SequenceNumber(r) == sequence && Ssrc(r) == ssrc && Marker(r) == Marker(b)
      && r[0] == b[0] && r[4..8] == b[4..8] && r[12..] == b[12..]
  {
    var r := Relabelled(b, t, sequence, ssrc);
    hide BytesOfU16, BytesOfU32;
    var q := WithSequence(WithPayloadType(b, t), sequence);
    assert q[2..2 + 2] == BytesOfU16(sequence);
    assert r[..8] == q[..8];
    assert r[2..2 + 2] == r[..8][2..2 + 2];
    ReadBackU16(r, 2, sequence);
    assert r[8..8 + 4] == BytesOfU32(ssrc);
    ReadBackU32(r, 8, ssrc);
  }

  lemma BytesReadU16(b: seq<Byte>, at: nat)
    requires at + 2 <= |b|
    ensures BytesOfU16(ReadU16(b, at)) == b[at..at + 2]
  {
  }

  lemma BytesReadU32(b: seq<Byte>, at: nat)
    requires at + 4 <= |b|
    ensures BytesOfU32(ReadU32(b, at)) == b[at..at + 4]
  {
    hide ReadU16, BytesOfU16;
    var high, low := ReadU16(b, at), ReadU16(b, at + 2);
    BytesReadU16(b, at);
    BytesReadU16(b, at + 2);
    assert ReadU32(b, at) / 0x1_0000 == high && ReadU32(b, at) % 0x1_0000 == low;
    assert b[at..at + 2] + b[at + 2..at + 4] == b[at..at + 4];
  }

  /** Relabelling a packet with its own labels undoes any other relabelling. */
  lemma RelabelBack(p: seq<Byte>, t: nat, sequence: U16, ssrc: U32)
    requires HasHeader(p) && t < 0x80
    ensures Relabelled(Relabelled(p, t, sequence, ssrc), PayloadType(p), SequenceNumber(p), Ssrc(p)) == p
  {
    var q := Relabelled(p, t, sequence, ssrc);
    var r := Relabelled(q, PayloadType(p), SequenceNumber(p), Ssrc(p));
    BytesReadU16(p, 2);
    BytesReadU32(p, 8);
    RelabelledFields(p, t, sequence, ssrc);
    assert q[1] / 0x80 == p[1] / 0x80;
    assert r[1] == p[1];
    assert r[0] == p[0];
    assert r[2..4] == p[2..4];
    assert r[4..8] == q[4..8] == p[4..8];
    assert r[8..12] == p[8..12];
    assert r[12..] == q[12..] == p[12..];
    assert r == [r[0], r[1]] + r[2..4] + r[4..8] + r[8..12] + r[12..];
    assert p == [p[0], p[1]] + p[2..4] + p[4..8] + p[8..12] + p[12..];
  }

  /** Section sizes only depend on byte 0 and on the bytes from 12 on. */
  lemma SameLayout(b: seq<Byte>, r: seq<Byte>)
    requires Framed(b) && |r| >= PayloadOffset(b) && r[0] == b[0]
    requires r[12..PayloadOffset(b)] == b[12..PayloadOffset(b)]
    ensures Framed(r) && PayloadOffset(r) == PayloadOffset(b)
  {
    if Extension(b) {
      var h := HeaderSize(b);
      var n := PayloadOffset(b);
      assert r[h + 2] == r[12..n][h - 10] && r[h + 3] == r[12..n][h - 9];
      assert b[h + 2] == b[12..n][h - 10] && b[h + 3] == b[12..n][h - 9];
    }
  }

  lemma SameFirstTwelve(w: seq<Byte>, r: seq<Byte>)
    requires HasHeader(w) && HasHeader(r)
    ensures (forall i | 0 <= i < 12 :: w[i] == r[i]) ==>
      && PayloadType(w) == PayloadType(r) && Ssrc(w) == Ssrc(r) && Marker(w) == Marker(r)
      && SequenceNumber(w) == SequenceNumber(r) && IsRtcp(w) == IsRtcp(r)
  {
  }

  lemma EncapsulatedIsRtx(p: Msg, s: Streams, rtxSequence: U16)
    requires ValidStreams(s) && !(64 <= s.rtxType <= 95)
    requires IsRtp(p) && Framed(p.bytes)
    ensures var w := Msg(false, Encapsulate(p.bytes, s, rtxSequence));
      && IsRtx(w, s)
      && RtxOffset(w.bytes) == PayloadOffset(p.bytes)
      && w.bytes[RtxOffset(w.bytes)..RtxOffset(w.bytes) + 2] == BytesOfU16(SequenceNumber(p.bytes))
      && Marker(w.bytes) == Marker(p.bytes) && SequenceNumber(w.bytes) == rtxSequence
  {
    hide Relabelled, ReadU16, ReadU32, BytesOfU16;
    var b := p.bytes;
    var at := PayloadOffset(b);
    var r := Relabelled(b, s.rtxType, rtxSequence, s.rtxSsrc);
    var w := Encapsulate(b, s, rtxSequence);
    RelabelledFields(b, s.rtxType, rtxSequence, s.rtxSsrc);
    SameFirstTwelve(w, r);
    assert forall i | 0 <= i < 12 :: w[i] == r[i];
    assert w[12..at] == r[12..][..at - 12] == b[12..][..at - 12] == b[12..at];
    SameLayout(b, w);
  }

  /** Unwrapping gives back the retransmitted packet, byte for byte. */
  lemma UnwrapEncapsulated(p: Msg, s: Streams, rtxSequence: U16)
    requires ValidStreams(s) && !(64 <= s.rtxType <= 95)
    requires IsRtp(p) && Framed(p.bytes)
    requires PayloadType(p.bytes) == s.primaryType && Ssrc(p.bytes) == s.primarySsrc
    ensures Unwrap(Msg(false, Encapsulate(p.bytes, s, rtxSequence)), s) == p
  {
    var b := p.bytes;
    var at := PayloadOffset(b);
    var r := Relabelled(b, s.rtxType, rtxSequence, s.rtxSsrc);
    var w := Encapsulate(b, s, rtxSequence);
    EncapsulatedIsRtx(p, s, rtxSequence);
    ReadBackU16(w, at, SequenceNumber(b));
    assert w[..at] + w[at + 2..] == r;
    RelabelBack(b, s.rtxType, rtxSequence, s.rtxSsrc);
  }

  /** What comes out is never taken for a retransmission again, so a second pass changes nothing. */
  lemma UnwrapOnce(m: Msg, s: Streams)
    requires ValidStreams(s)
    requires s.primaryType != s.rtxType || s.primarySsrc != s.rtxSsrc
    ensures !IsRtx(Unwrap(m, s), s)
    ensures Unwrap(Unwrap(m, s), s) == Unwrap(m, s)
  {
    if IsRtx(m, s) {
      var at := RtxOffset(m.bytes);
      var cut := m.bytes[..at] + m.bytes[at + 2..];
      RelabelledFields(cut, s.primaryType, ReadU16(m.bytes, at), s.primarySsrc);
    }
  }

  /** A payload type that reads as RTCP is never recognised. */
  lemma NeverRtx(m: Msg, s: Streams)
    requires ValidStreams(s) && 64 <= s.rtxType <= 95
    ensures !IsRtx(m, s)
  {
  }

  /**
   * A second pass is harmless for every message exactly when the two streams are labelled differently, or when the
   * retransmission type reads as RTCP, so that nothing is ever unwrapped.
   */
  lemma SecondPassHarmless(s: Streams)
    requires ValidStreams(s)
    ensures (forall m :: Unwrap(Unwrap(m, s), s) == Unwrap(m, s))
      <==> (s.primaryType != s.rtxType || s.primarySsrc != s.rtxSsrc || 64 <= s.rtxType <= 95)
  {
    if 64 <= s.rtxType <= 95 {
      forall m ensures Unwrap(Unwrap(m, s), s) == Unwrap(m, s) {
        NeverRtx(m, s);
      }
    } else if s.primaryType != s.rtxType || s.primarySsrc != s.rtxSsrc {
      forall m ensures Unwrap(Unwrap(m, s), s) == Unwrap(m, s) {
        UnwrapOnce(m, s);
      }
    } else {
      UnwrappedTwice(s);
    }
  }

  lemma BareRtx(b: seq<Byte>, s: Streams)
    requires ValidStreams(s) && !(64 <= s.rtxType <= 95)
    requires |b| >= 14 && b[0] == 0x80 && PayloadType(b) == s.rtxType && Ssrc(b) == s.rtxSsrc
    ensures var r := Unwrap(Msg(false, b), s).bytes;
      |r| == |b| - 2 && r[0] == 0x80 && PayloadType(r) == s.primaryType && Ssrc(r) == s.primarySsrc
  {
    var m := Msg(false, b);
    assert HeaderSize(b) == 12 && !Extension(b);
    assert IsRtx(m, s) && RtxOffset(b) == 12;
    RelabelledFields(b[..12] + b[14..], s.primaryType, ReadU16(b, 12), s.primarySsrc);
  }

  lemma UnwrappedTwice(s: Streams)
    requires ValidStreams(s) && !(64 <= s.rtxType <= 95)
    requires s.primaryType == s.rtxType && s.primarySsrc == s.rtxSsrc
    ensures exists m :: Unwrap(Unwrap(m, s), s) != Unwrap(m, s)
  {
    hide Unwrap, Relabelled;
    var plain: seq<Byte> := [0x80, 0, 0, 0, 0, 0, 0, 0, 0, 0, 0, 0, 0, 0, 0, 0];
    var b := Relabelled(plain, s.rtxType, 0, s.rtxSsrc);
    RelabelledFields(plain, s.rtxType, 0, s.rtxSsrc);
    BareRtx(b, s);
    var u := Unwrap(Msg(false, b), s);
    assert u == Msg(u.control, u.bytes);
    BareRtx(u.bytes, s);
    UnwrapKeepsKind(Msg(false, b), s);
    assert |Unwrap(u, s).bytes| != |u.bytes|;
  }

  lemma UnwrapKeepsKind(m: Msg, s: Streams)
    requires ValidStreams(s)
    ensures Unwrap(m, s).control == m.control
  {
  }

  class RtxReceivingHandler {
    const streams: Streams
    var retransmittedPackets: nat

    constructor (streams: Streams)
      requires ValidStreams(streams)
      ensures this.streams == streams && retransmittedPackets == 0
    {
      this.streams := streams;
      retransmittedPackets := 0;
    }

    /** One message of the batch, rewritten in place. */
    method UnwrapMessage(message: Message)
      requires ValidStreams(streams)
      modifies this`retransmittedPackets, message
      ensures message.Value() == Unwrap(old(message.Value()), streams)
      ensures retransmittedPackets ==
        old(retransmittedPackets) + (if IsRtx(old(message.Value()), streams) then 1 else 0)
      ensures message.stream ==
        if IsRtx(old(message.Value()), streams) then streams.primarySsrc else old(message.stream)
    {
      hide WithPayloadType, WithSequence, WithSsrc;
      if !IsRtp(message.Value()) {
        return;
      }
      var b := message.bytes;
      if PayloadType(b) != streams.rtxType || Ssrc(b) != streams.rtxSsrc || |b| < HeaderSize(b) {
        return;
      }
      var offset := HeaderSize(b);
      if Extension(b) {
        if |b| < offset + EXTENSION_HEADER_SIZE {
          return;
        }
        offset := offset + EXTENSION_HEADER_SIZE + ExtensionSize(b);
      }
      if |b| < offset + 2 {
        return;
      }
      var originalSequence := ReadU16(b, offset);
      message.bytes := b[..offset] + b[offset + 2..];
      message.bytes := WithPayloadType(message.bytes, streams.primaryType);
      message.bytes := WithSequence(message.bytes, originalSequence);
      message.bytes := WithSsrc(message.bytes, streams.primarySsrc);
      message.stream := streams.primarySsrc;
      retransmittedPackets := retransmittedPackets + 1;
    }

    method Incoming(messages: seq<Message>)
      requires ValidStreams(streams)
      requires forall i, j | 0 <= i < j < |messages| :: messages[i] != messages[j]
      modifies this`retransmittedPackets, messages
      ensures forall i | 0 <= i < |messages| :: messages[i].Value() == Unwrap(old(messages[i].Value()), streams)
      ensures retransmittedPackets == old(retransmittedPackets) + RtxCount(old(Values(messages)), streams)
    {
      hide *;
      ghost var before := Values(messages);
      RtxCountNone(streams);
      for i := 0 to |messages|
        invariant forall j | 0 <= j < i :: messages[j].Value() == Unwrap(before[j], streams)
        invariant forall j | i <= j < |messages| :: messages[j].Value() == before[j]
        invariant retransmittedPackets == old(retransmittedPackets) + RtxCount(before[..i], streams)
      {
        RtxCountStep(before, i, streams);
        UnwrapMessage(messages[i]);
      }
      assert before[..|messages|] == before;
    }
  }

  function RtxCount(ms: seq<Msg>, s: Streams): nat {
    if ms == [] then 0
    else RtxCount(ms[..|ms| - 1], s) + if IsRtx(ms[|ms| - 1], s) then 1 else 0
  }

  lemma RtxCountNone(s: Streams)
    ensures RtxCount([], s) == 0
  {
  }

  lemma RtxCountStep(ms: seq<Msg>, i: nat, s: Streams)
    requires i < |ms|
    ensures RtxCount(ms[..i + 1], s) == RtxCount(ms[..i], s) + if IsRtx(ms[i], s) then 1 else 0
  {
    assert ms[..i + 1][..i] == ms[..i];
  }
}

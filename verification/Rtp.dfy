/** RTP packets as byte strings: the fixed header (section 5.1 of RFC 3550) and the place of the extension block. */
module Rtp {
  import opened Words

  /** What a message holds: `control` is the transport's message type, not something read from the bytes. */
  datatype Msg = Msg(control: bool, bytes: seq<Byte>)

  /** A message the handlers of one chain share and rewrite in place. */
  class Message {
    const control: bool
    var bytes: seq<Byte>
    var stream: U32

    constructor (control: bool, bytes: seq<Byte>, stream: U32)
      ensures this.control == control && this.bytes == bytes && this.stream == stream
    {
      this.control, this.bytes, this.stream := control, bytes, stream;
    }

    function Value(): Msg
      reads this`bytes
    {
      Msg(control, bytes)
    }
  }

  const RTP_HEADER_SIZE := 12
  const EXTENSION_HEADER_SIZE := 4
  const ONE_BYTE_PROFILE: U16 := 0xBEDE

  /** The demultiplexing rule of section 4 of RFC 5761. */
  predicate IsRtcp(b: seq<Byte>) {
    |b| >= 8 && 64 <= b[1] % 0x80 <= 95
  }

  predicate IsRtp(m: Msg) {
    !m.control && |m.bytes| >= RTP_HEADER_SIZE && !IsRtcp(m.bytes)
  }

  predicate HasHeader(b: seq<Byte>) { |b| >= RTP_HEADER_SIZE }

  function Version(b: seq<Byte>): int requires HasHeader(b) { b[0] / 0x40 }

  predicate Padding(b: seq<Byte>) requires HasHeader(b) { b[0] / 0x20 % 2 == 1 }

  predicate Extension(b: seq<Byte>) requires HasHeader(b) { b[0] / 0x10 % 2 == 1 }

  function CsrcCount(b: seq<Byte>): (n: nat)
    requires HasHeader(b)
    ensures n < 0x10
  {
    b[0] % 0x10
  }

  predicate Marker(b: seq<Byte>) requires HasHeader(b) { b[1] / 0x80 == 1 }

  function PayloadType(b: seq<Byte>): (t: nat)
    requires HasHeader(b)
    ensures t < 0x80
  {
    b[1] % 0x80
  }

  function SequenceNumber(b: seq<Byte>): U16 requires HasHeader(b) { ReadU16(b, 2) }

  function Ssrc(b: seq<Byte>): U32 requires HasHeader(b) { ReadU32(b, 8) }

  /** Size of the fixed header with its CSRC list. */
  function HeaderSize(b: seq<Byte>): (n: nat)
    requires HasHeader(b)
    ensures 12 <= n <= 72
  {
    RTP_HEADER_SIZE + CsrcCount(b) * 4
  }

  /** Size in bytes of the extension body, as its length field announces it. */
  function ExtensionSize(b: seq<Byte>): (n: nat)
    requires HasHeader(b) && |b| >= HeaderSize(b) + EXTENSION_HEADER_SIZE
    ensures n % 4 == 0
  {
    ReadU16(b, HeaderSize(b) + 2) * 4
  }

  /** The packet holds the whole header and the whole announced extension, so it has a payload position. */
  predicate Framed(b: seq<Byte>) {
    && HasHeader(b)
    && |b| >= HeaderSize(b)
    && (Extension(b) ==>
          && |b| >= HeaderSize(b) + EXTENSION_HEADER_SIZE
          && |b| >= HeaderSize(b) + EXTENSION_HEADER_SIZE + ExtensionSize(b))
  }

  function PayloadOffset(b: seq<Byte>): (n: nat)
    requires Framed(b)
    ensures HeaderSize(b) <= n <= |b|
  {
    if Extension(b) then HeaderSize(b) + EXTENSION_HEADER_SIZE + ExtensionSize(b) else HeaderSize(b)
  }

  function Payload(b: seq<Byte>): seq<Byte>
    requires Framed(b)
  {
    b[PayloadOffset(b)..]
  }

  /** A framed packet whose extension, if any, uses the one-byte form of section 4.2 of RFC 8285. */
  predicate OneByteOrBare(b: seq<Byte>) {
    Framed(b) && (Extension(b) ==> ReadU16(b, HeaderSize(b)) == ONE_BYTE_PROFILE)
  }

  predicate OneByteExtended(b: seq<Byte>) {
    OneByteOrBare(b) && Extension(b)
  }

  /** The extension body; empty when the packet has no extension. */
  function ExtensionBody(b: seq<Byte>): seq<Byte>
    requires Framed(b)
  {
    if Extension(b) then b[HeaderSize(b) + EXTENSION_HEADER_SIZE..PayloadOffset(b)] else []
  }

  /** Where everything stands in a packet, by its bytes: section 5.1 of RFC 3550 and section 4.2 of RFC 8285. */
  lemma HeaderMeans(b: seq<Byte>)
    requires HasHeader(b)
    ensures HeaderSize(b) == 12 + 4 * (b[0] % 0x10) && PayloadType(b) == b[1] % 0x80
    ensures SequenceNumber(b) == b[2] as int * 0x100 + b[3] as int
    ensures Ssrc(b) == b[8] as int * 0x100_0000 + b[9] as int * 0x1_0000 + b[10] as int * 0x100 + b[11] as int
    ensures Framed(b) ==>
      var h := HeaderSize(b);
      && |b| >= h
      && (b[0] / 0x10 % 2 == 0 ==> Payload(b) == b[h..] && ExtensionBody(b) == [])
      && (b[0] / 0x10 % 2 == 1 ==>
            var n := 4 * (b[h + 2] as int * 0x100 + b[h + 3] as int);
            && |b| >= h + 4 + n && ExtensionBody(b) == b[h + 4..h + 4 + n] && Payload(b) == b[h + 4 + n..]
            && (OneByteOrBare(b) <==> b[h] == 0xBE && b[h + 1] == 0xDE))
  {
  }

  /** What a vector of messages holds at the moment. */
  function Values(messages: seq<Message>): (r: seq<Msg>)
    reads messages
    ensures |r| == |messages|
    ensures forall i | 0 <= i < |messages| :: r[i] == messages[i].Value()
  {
    seq(|messages|, i requires 0 <= i < |messages| reads messages => messages[i].Value())
  }
}

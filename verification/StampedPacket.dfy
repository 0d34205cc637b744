/** The two header extensions of a video packet: the transport-wide sequence number and the frame metadata. */
module StampedPacket {
  import opened Words
  import opened Rtp
  import opened HeaderExtension

  const TWCC_ID := 3
  const TWCC_SIZE := 2
  const METADATA_ID := 4
  const METADATA_SIZE := 12

  datatype Metadata = Metadata(epoch: U16, frameId: U32, index: U16, count: U16, keyframe: bool)

  function TwccElement(sequence: U16): (e: Element)
    ensures Encodable(e)
  {
    Element(TWCC_ID, BytesOfU16(sequence))
  }

  function MetadataElement(md: Metadata): (e: Element)
    ensures Encodable(e) && |e.value| == METADATA_SIZE
  {
    Element(METADATA_ID,
            [if md.keyframe then 0x11 else 0x10] + BytesOfU16(md.epoch) + BytesOfU32(md.frameId)
            + BytesOfU16(md.index) + BytesOfU16(md.count) + [0])
  }

  /** A value whose version nibble is not 1 is refused. */
  function MetadataOf(value: seq<Byte>): Option<Metadata>
    requires |value| == METADATA_SIZE
  {
    if value[0] / 0x10 != 1 then None
    else Some(Metadata(ReadU16(value, 1), ReadU32(value, 3), ReadU16(value, 7), ReadU16(value, 9), value[0] % 2 == 1))
  }

  lemma FirstHasSize(es: seq<Element>, id: nat, size: nat)
    ensures First(es, id, size).Some? ==> |First(es, id, size).value| == size
  {
  }

  function ReadMetadata(m: Msg): Option<Metadata> {
    if !IsRtp(m) then None
    else
      var v := First(ReadElements(m.bytes), METADATA_ID, METADATA_SIZE);
      FirstHasSize(ReadElements(m.bytes), METADATA_ID, METADATA_SIZE);
      if v.None? then None else MetadataOf(v.value)
  }

  function AddMetadata(m: Msg, md: Metadata): Msg {
    if IsRtp(m) then Msg(m.control, Append(m.bytes, MetadataElement(md))) else m
  }

  /** The transport-wide handler looks at the bytes alone and insists on RTP version 2. */
  predicate Versioned(b: seq<Byte>) {
    HasHeader(b) && !IsRtcp(b) && Version(b) == 2
  }

  function ReadTwcc(b: seq<Byte>): Option<U16> {
    if !Versioned(b) then None
    else
      var v := First(ReadElements(b), TWCC_ID, TWCC_SIZE);
      FirstHasSize(ReadElements(b), TWCC_ID, TWCC_SIZE);
      if v.None? then None else Some(ReadU16(v.value, 0))
  }

  /** The packets the transport-wide handler numbers; the sequence counter moves for these and no others. */
  predicate Numbered(b: seq<Byte>) {
    Versioned(b) && !Padding(b) && OneByteOrBare(b)
  }

  function WriteTwcc(b: seq<Byte>, sequence: U16): seq<Byte> {
    if Numbered(b) then Append(b, TwccElement(sequence)) else b
  }

  /** A media packet on which the metadata can be read back: nothing of the same shape stands before it. */
  predicate Stampable(m: Msg) {
    && IsRtp(m) && OneByteOrBare(m.bytes)
    && !Carries(ReadElements(m.bytes), METADATA_ID, METADATA_SIZE)
    && Fits(m.bytes, MetadataElement(Metadata(0, 0, 0, 0, false)))
  }

  /** The element on the wire: id 4 and 12 bytes, version and keyframe flag, and the numbers high byte first. */
  lemma MetadataLayout(md: Metadata)
    ensures ElementBytes(MetadataElement(md)) == [
      0x4B, if md.keyframe then 0x11 else 0x10, md.epoch / 0x100, md.epoch % 0x100,
      md.frameId / 0x100_0000, md.frameId / 0x1_0000 % 0x100, md.frameId / 0x100 % 0x100, md.frameId % 0x100,
      md.index / 0x100, md.index % 0x100, md.count / 0x100, md.count % 0x100, 0]
  {
    U32Layout(md.frameId);
    var v := MetadataElement(md).value;
    assert v[1..3] == BytesOfU16(md.epoch) && v[3..7] == BytesOfU32(md.frameId);
    assert v[7..9] == BytesOfU16(md.index) && v[9..11] == BytesOfU16(md.count);
  }

  lemma U32Layout(v: U32)
    ensures BytesOfU32(v) == [v / 0x100_0000, v / 0x1_0000 % 0x100, v / 0x100 % 0x100, v % 0x100]
  {
    assert v / 0x1_0000 / 0x100 == v / 0x100_0000 && v % 0x1_0000 / 0x100 == v / 0x100 % 0x100;
  }

  /** What a metadata value of 12 bytes says: nothing unless its version is 1, else its fields, high byte first. */
  lemma MetadataMeans(v: seq<Byte>)
    requires |v| == 12
    ensures MetadataOf(v).Some? <==> v[0] / 0x10 == 1
    ensures MetadataOf(v).Some? ==>
      var md := MetadataOf(v).value;
      && md.keyframe == (v[0] % 2 == 1) && md.epoch == v[1] as int * 0x100 + v[2] as int
      && md.frameId == v[3] as int * 0x100_0000 + v[4] as int * 0x1_0000 + v[5] as int * 0x100 + v[6] as int
      && md.index == v[7] as int * 0x100 + v[8] as int && md.count == v[9] as int * 0x100 + v[10] as int
  {
  }

  /** Where the readers look: the first element of their id and size, in packets that qualify. */
  lemma ReadersLook(m: Msg)
    ensures m.control || |m.bytes| < 12 || 64 <= m.bytes[1] % 0x80 <= 95 ==> ReadMetadata(m) == None
    ensures ReadMetadata(m).Some? ==>
      exists v :: First(ReadElements(m.bytes), 4, 12) == Some(v) && |v| == 12 && ReadMetadata(m) == MetadataOf(v)
    ensures |m.bytes| < 12 || 64 <= m.bytes[1] % 0x80 <= 95 || m.bytes[0] / 0x40 != 2 ==> ReadTwcc(m.bytes) == None
    ensures ReadTwcc(m.bytes).Some? ==>
      exists v :: First(ReadElements(m.bytes), 3, 2) == Some(v) && |v| == 2 && ReadTwcc(m.bytes) == Some(ReadU16(v, 0))
  {
    hide First, ReadElements, MetadataOf;
    FirstHasSize(ReadElements(m.bytes), 4, 12);
    FirstHasSize(ReadElements(m.bytes), 3, 2);
  }

  /** Likewise the transport-wide number: id 3 and 2 bytes. */
  lemma TwccLayout(sequence: U16)
    ensures ElementBytes(TwccElement(sequence)) == [0x31, sequence / 0x100, sequence % 0x100]
  {
  }

  /** Which packets are numbered, by the bits of their first two bytes; all others are left alone. */
  lemma NumberedMeans(b: seq<Byte>, sequence: U16)
    ensures Numbered(b) <==>
      && |b| >= 12 && !(64 <= b[1] % 0x80 <= 95) && b[0] / 0x40 == 2 && b[0] / 0x20 % 2 == 0
      && OneByteOrBare(b)
    ensures !Numbered(b) ==> WriteTwcc(b, sequence) == b
    ensures Numbered(b) ==> WriteTwcc(b, sequence) == Append(b, TwccElement(sequence))
  {
    hide Append;
  }

  lemma MetadataReadBack(md: Metadata)
    ensures MetadataOf(MetadataElement(md).value) == Some(md)
  {
    var v := MetadataElement(md).value;
    assert v[1..1 + 2] == BytesOfU16(md.epoch);
    ReadBackU16(v, 1, md.epoch);
    assert v[3..3 + 4] == BytesOfU32(md.frameId);
    ReadBackU32(v, 3, md.frameId);
    assert v[7..7 + 2] == BytesOfU16(md.index);
    ReadBackU16(v, 7, md.index);
    assert v[9..9 + 2] == BytesOfU16(md.count);
    ReadBackU16(v, 9, md.count);
  }

  lemma SameFields(b: seq<Byte>, r: seq<Byte>, h: nat)
    requires 12 <= h <= |b| && h <= |r| && r[..h] == Extended(b[..h])
    ensures IsRtcp(r) == IsRtcp(b) && Version(r) == Version(b) && Padding(r) == Padding(b) && Extension(r)
    ensures Marker(r) == Marker(b) && SequenceNumber(r) == SequenceNumber(b) && r[1..h] == b[1..h]
  {
    var x := Extended(b[..h]);
    assert x[1..] == b[..h][1..];
    assert r[1..h] == r[..h][1..] && b[1..h] == b[..h][1..];
    SameFront(b, r, h);
    assert r[0] == r[..h][0] == x[0];
  }

  lemma SameFront(b: seq<Byte>, r: seq<Byte>, h: nat)
    requires 12 <= h <= |b| && h <= |r| && r[1..h] == b[1..h]
    ensures r[1] == b[1] && r[2] == b[2] && r[3] == b[3]
  {
    assert r[1] == r[1..h][0] && r[2] == r[1..h][1] && r[3] == r[1..h][2];
    assert b[1] == b[1..h][0] && b[2] == b[1..h][1] && b[3] == b[1..h][2];
  }

  /** Rewriting changes neither how a packet is demultiplexed nor any header field but the X bit. */
  lemma AppendKeepsKind(b: seq<Byte>, e: Element)
    requires OneByteOrBare(b) && Encodable(e) && Fits(b, e)
    ensures var r := Append(b, e);
      && HasHeader(r) && IsRtcp(r) == IsRtcp(b) && Version(r) == Version(b) && Padding(r) == Padding(b)
      && Marker(r) == Marker(b) && SequenceNumber(r) == SequenceNumber(b)
      && r[1..HeaderSize(b)] == b[1..HeaderSize(b)]
  {
    AppendKeepsPacket(b, e);
    SameFields(b, Append(b, e), HeaderSize(b));
  }

  lemma StampKeepsHeader(m: Msg, md: Metadata)
    requires Stampable(m)
    ensures var r := AddMetadata(m, md);
      IsRtp(r) && Marker(r.bytes) == Marker(m.bytes) && SequenceNumber(r.bytes) == SequenceNumber(m.bytes)
      && Framed(r.bytes) && Payload(r.bytes) == Payload(m.bytes)
  {
    AppendKeepsKind(m.bytes, MetadataElement(md));
    AppendKeepsPacket(m.bytes, MetadataElement(md));
  }

  /** `read_frame_metadata` undoes `add_frame_metadata`. */
  lemma MetadataRoundTrip(m: Msg, md: Metadata)
    requires Stampable(m)
    ensures ReadMetadata(AddMetadata(m, md)) == Some(md)
  {
    var e := MetadataElement(md);
    StampKeepsHeader(m, md);
    AppendReadBack(m.bytes, e);
    FirstBehind(ReadElements(m.bytes), e, METADATA_ID, METADATA_SIZE);
    MetadataReadBack(md);
  }

  function BothWritten(m: Msg, sequence: U16, md: Metadata): Msg {
    AddMetadata(Msg(m.control, WriteTwcc(m.bytes, sequence)), md)
  }

  /** Both results fit the 16-bit length field. */
  predicate BothFit(m: Msg) {
    && IsRtp(m) && Numbered(m.bytes)
    && Fits(m.bytes, TwccElement(0))
    && var w := WriteTwcc(m.bytes, 0);
       Framed(w) && Fits(w, MetadataElement(Metadata(0, 0, 0, 0, false)))
  }

  lemma FitsIgnoresValue(b: seq<Byte>, sequence: U16, md: Metadata)
    requires OneByteOrBare(b) && Fits(b, TwccElement(0))
    requires var w := Append(b, TwccElement(0)); Framed(w) && Fits(w, MetadataElement(Metadata(0, 0, 0, 0, false)))
    ensures Fits(b, TwccElement(sequence))
    ensures var w := Append(b, TwccElement(sequence)); Framed(w) && Fits(w, MetadataElement(md))
  {
    var body := ExtensionBody(b);
    AppendKeepsPacket(b, TwccElement(0));
    AppendKeepsPacket(b, TwccElement(sequence));
    UsedAppended(body, TwccElement(0));
    UsedAppended(body, TwccElement(sequence));
  }

  /** The new element is the last one, so `Used` of the grown body depends on its size alone. */
  lemma {:induction false} UsedBehind(body: seq<Byte>, tail: seq<Byte>)
    requires Used(tail) > 0
    ensures Used(body[..Used(body)] + tail) == Used(body) + Used(tail)
  {
    hide Used, Elements;
    Stopped(body);
    var s := body[..Used(body)] + tail;
    if Used(body) == 0 {
      assert body[..0] + tail == tail;
    } else if body[0] == 0 {
      PaddingStep(body);
      UsedBehind(body[1..], tail);
      assert s[1..] == body[1..][..Used(body[1..])] + tail;
      PaddingStep(s);
    } else {
      var n := ElementSize(body[0]);
      ElementsStep(body);
      UsedBehind(body[n..], tail);
      assert s[0] == body[0];
      assert s[n..] == body[n..][..Used(body[n..])] + tail;
      ElementsStep(s);
    }
  }

  lemma {:induction false} NothingUsedInZeros(s: seq<Byte>)
    requires forall i | 0 <= i < |s| :: s[i] == 0
    ensures Used(s) == 0
  {
    if s != [] {
      NothingUsedInZeros(s[1..]);
    }
  }

  lemma UsedAppended(body: seq<Byte>, e: Element)
    requires Encodable(e)
    ensures Used(AppendedBody(body, e)) == Used(body) + 1 + |e.value|
  {
    var kept := body[..Used(body)];
    var zeros := AppendedBody(body, e)[|kept + ElementBytes(e)|..];
    var tail := ElementBytes(e) + zeros;
    assert AppendedBody(body, e) == kept + tail;
    assert tail[0] / 0x10 == e.id && ElementSize(tail[0]) == |e.value| + 1;
    assert tail[|e.value| + 1..] == zeros;
    NothingUsedInZeros(zeros);
    UsedBehind(body, tail);
  }

  /** The packet after both rewritings, section by section. */
  lemma ComposedSections(m: Msg, sequence: U16, md: Metadata)
    requires BothFit(m)
    ensures var r := BothWritten(m, sequence, md);
      && IsRtp(r) && Version(r.bytes) == 2 && OneByteExtended(r.bytes)
      && ReadElements(r.bytes) == ReadElements(m.bytes) + [TwccElement(sequence), MetadataElement(md)]
      && HeaderSize(r.bytes) == HeaderSize(m.bytes)
      && r.bytes[1..HeaderSize(m.bytes)] == m.bytes[1..HeaderSize(m.bytes)]
      && Payload(r.bytes) == Payload(m.bytes)
  {
    hide Append, Fits, Payload, ExtensionBody, AppendedBody, ReadElements, Extended;
    var b, t, f := m.bytes, TwccElement(sequence), MetadataElement(md);
    FitsIgnoresValue(b, sequence, md);
    AppendKeepsPacket(b, t);
    AppendKeepsKind(b, t);
    AppendReadBack(b, t);
    var w := Append(b, t);
    assert IsRtp(Msg(m.control, w));
    AppendKeepsPacket(w, f);
    AppendKeepsKind(w, f);
    AppendReadBack(w, f);
    var es := ReadElements(b);
    assert (es + [t]) + [f] == es + [t, f];
  }

  lemma FirstBehindTwo(es: seq<Element>, t: Element, f: Element, id: nat, size: nat)
    ensures First(es + [t, f], id, size) ==
      if Carries(es, id, size) then First(es, id, size)
      else if t.id == id && |t.value| == size then Some(t.value)
      else if f.id == id && |f.value| == size then Some(f.value) else None
  {
    FirstBehind(es, t, id, size);
    FirstBehind(es + [t], f, id, size);
    CarriesBehind(es, t, id, size);
    assert es + [t, f] == (es + [t]) + [f];
  }

  lemma MetadataShape(md: Metadata)
    ensures MetadataElement(md).id == METADATA_ID && |MetadataElement(md).value| == METADATA_SIZE
  {
  }

  lemma TwccReadBack(sequence: U16)
    ensures ReadU16(TwccElement(sequence).value, 0) == sequence
  {
  }

  /** What the two readers make of a packet that holds `m`'s elements followed by the two new ones. */
  lemma ReadsBehind(m: Msg, r: Msg, sequence: U16, md: Metadata)
    requires IsRtp(m) && Versioned(m.bytes) && IsRtp(r) && Versioned(r.bytes)
    requires ReadElements(r.bytes) == ReadElements(m.bytes) + [TwccElement(sequence), MetadataElement(md)]
    ensures var es := ReadElements(m.bytes);
      && ReadTwcc(r.bytes) == (if Carries(es, TWCC_ID, TWCC_SIZE) then ReadTwcc(m.bytes) else Some(sequence))
      && ReadMetadata(r) == (if Carries(es, METADATA_ID, METADATA_SIZE) then ReadMetadata(m) else Some(md))
  {
    hide First, ReadElements, MetadataOf, MetadataElement;
    var es, t, f := ReadElements(m.bytes), TwccElement(sequence), MetadataElement(md);
    MetadataShape(md);
    TwccReadBack(sequence);
    FirstBehindTwo(es, t, f, TWCC_ID, TWCC_SIZE);
    FirstBehindTwo(es, t, f, METADATA_ID, METADATA_SIZE);
    FirstBehind(es, t, TWCC_ID, TWCC_SIZE);
    FirstBehind(es, t, METADATA_ID, METADATA_SIZE);
    MetadataReadBack(md);
  }

  /**
   * Both handlers in chain order: each element reads back unless an earlier one of the same shape hides it, every
   * earlier element keeps its place, and CSRC list, header fields and payload are the original bytes.
   */
  lemma ComposedExtensions(m: Msg, sequence: U16, md: Metadata)
    requires BothFit(m)
    ensures var es := ReadElements(m.bytes);
      var r := BothWritten(m, sequence, md);
      && IsRtp(r) && OneByteExtended(r.bytes)
      && ReadElements(r.bytes) == es + [TwccElement(sequence), MetadataElement(md)]
      && ReadTwcc(r.bytes) == (if Carries(es, TWCC_ID, TWCC_SIZE) then ReadTwcc(m.bytes) else Some(sequence))
      && ReadMetadata(r) == (if Carries(es, METADATA_ID, METADATA_SIZE) then ReadMetadata(m) else Some(md))
      && HeaderSize(r.bytes) == HeaderSize(m.bytes)
      && r.bytes[1..HeaderSize(m.bytes)] == m.bytes[1..HeaderSize(m.bytes)]
      && Payload(r.bytes) == Payload(m.bytes)
  {
    ComposedSections(m, sequence, md);
    ReadsBehind(m, BothWritten(m, sequence, md), sequence, md);
  }

  lemma CarriesBehind(es: seq<Element>, e: Element, id: nat, size: nat)
    ensures Carries(es + [e], id, size) <==> Carries(es, id, size) || (e.id == id && |e.value| == size)
  {
    assert forall x :: x in es + [e] <==> x in es || x == e;
  }

  /** `write_twcc_extension` on a message in place; `numbered` says whether a sequence number was spent. */
  method WriteTwccExtension(message: Message, sequence: U16) returns (numbered: bool)
    modifies message`bytes
    ensures numbered == Numbered(old(message.bytes))
    ensures message.bytes == WriteTwcc(old(message.bytes), sequence)
  {
    if |message.bytes| < RTP_HEADER_SIZE || IsRtcp(message.bytes) {
      return false;
    }
    if Version(message.bytes) != 2 || Padding(message.bytes) || !OneByteOrBare(message.bytes) {
      return false;
    }
    Rewrite(message, TwccElement(sequence));
    return true;
  }

  method ReadTwccSequence(message: Message) returns (sequence: Option<U16>)
    ensures sequence == ReadTwcc(message.bytes)
  {
    if |message.bytes| < RTP_HEADER_SIZE || IsRtcp(message.bytes) {
      return None;
    }
    if Version(message.bytes) != 2 || !OneByteExtended(message.bytes) {
      return None;
    }
    var value := FindElement(ExtensionBody(message.bytes), TWCC_ID, TWCC_SIZE);
    FirstHasSize(Elements(ExtensionBody(message.bytes)), TWCC_ID, TWCC_SIZE);
    return if value.None? then None else Some(ReadU16(value.value, 0));
  }

  /** `add_frame_metadata` on a message in place. */
  method AddFrameMetadata(message: Message, md: Metadata)
    modifies message`bytes
    ensures message.Value() == AddMetadata(old(message.Value()), md)
  {
    if !IsRtp(message.Value()) || !OneByteOrBare(message.bytes) {
      return;
    }
    Rewrite(message, MetadataElement(md));
  }

  method ReadFrameMetadata(m: Msg) returns (md: Option<Metadata>)
    ensures md == ReadMetadata(m)
  {
    if !IsRtp(m) || !OneByteExtended(m.bytes) {
      return None;
    }
    var value := FindElement(ExtensionBody(m.bytes), METADATA_ID, METADATA_SIZE);
    FirstHasSize(Elements(ExtensionBody(m.bytes)), METADATA_ID, METADATA_SIZE);
    return if value.None? then None else MetadataOf(value.value);
  }
}

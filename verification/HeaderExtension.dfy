/** One-byte header-extension elements: reading them, and appending one without disturbing the rest. */
module HeaderExtension {
  import opened Words
  import opened Rtp

  datatype Element = Element(id: nat, value: seq<Byte>)

  predicate Encodable(e: Element) {
    0 < e.id < 15 && 1 <= |e.value| <= 16
  }

  function ElementBytes(e: Element): seq<Byte>
    requires Encodable(e)
  {
    [e.id * 0x10 + |e.value| - 1] + e.value
  }

  /** Number of bytes an element takes when its descriptor byte is `d`. */
  function ElementSize(d: Byte): (n: nat)
    ensures 2 <= n <= 17
  {
    d as int % 0x10 + 2
  }

  /** The scan stops at id 15 and at an element that overruns the body. */
  predicate Stops(body: seq<Byte>)
    requires body != []
  {
    body[0] / 0x10 == 15 || ElementSize(body[0]) > |body|
  }

  /** The elements of an extension body; a zero byte is padding wherever it stands. */
  function Elements(body: seq<Byte>): seq<Element> {
    if body == [] then []
    else if body[0] == 0 then Elements(body[1..])
    else if Stops(body) then []
    else
      var n := ElementSize(body[0]);
      [Element(body[0] / 0x10, body[1..n])] + Elements(body[n..])
  }

  /** Where the last element ends; what follows is padding or unreadable. */
  function Used(body: seq<Byte>): (n: nat)
    ensures n <= |body|
  {
    if body == [] then 0
    else if body[0] == 0 then
      var n := Used(body[1..]);
      if n == 0 then 0 else n + 1
    else if Stops(body) then 0
    else
      var n := ElementSize(body[0]);
      n + Used(body[n..])
  }

  /** The value of the first element with this id and size. */
  function First(es: seq<Element>, id: nat, size: nat): Option<seq<Byte>> {
    if es == [] then None
    else if es[0].id == id && |es[0].value| == size then Some(es[0].value)
    else First(es[1..], id, size)
  }

  predicate Carries(es: seq<Element>, id: nat, size: nat) {
    exists e :: e in es && e.id == id && |e.value| == size
  }

  function Padded(body: seq<Byte>): (r: seq<Byte>)
    ensures |r| % 4 == 0 && |body| <= |r| < |body| + 4
    ensures r[..|body|] == body && forall i | |body| <= i < |r| :: r[i] == 0
  {
    body + seq((4 - |body| % 4) % 4, _ => 0)
  }

  /** The body after `e` has been appended behind the last element. */
  function AppendedBody(body: seq<Byte>, e: Element): (r: seq<Byte>)
    requires Encodable(e)
    ensures |r| % 4 == 0
  {
    Padded(body[..Used(body)] + ElementBytes(e))
  }

  /** The 16-bit length field can express the grown body. */
  predicate Fits(b: seq<Byte>, e: Element)
    requires Framed(b) && Encodable(e)
  {
    |AppendedBody(ExtensionBody(b), e)| / 4 < 0x1_0000
  }

  /** The fixed header with the X bit set. */
  function Extended(header: seq<Byte>): (r: seq<Byte>)
    requires header != []
    ensures |r| == |header|
  {
    [if header[0] / 0x10 % 2 == 1 then header[0] else header[0] + 0x10] + header[1..]
  }

  /** The packet both writers produce; a packet they cannot rewrite stays as it was. */
  function Append(b: seq<Byte>, e: Element): seq<Byte>
    requires Encodable(e)
  {
    if !OneByteOrBare(b) then b
    else
      var body := AppendedBody(ExtensionBody(b), e);
      Extended(b[..HeaderSize(b)]) + (BytesOfU16(ONE_BYTE_PROFILE) + BytesOfU16(Wrap16(|body| / 4))) + body + Payload(b)
  }

  /** What a reader finds in the packet. */
  function ReadElements(b: seq<Byte>): seq<Element> {
    if OneByteExtended(b) then Elements(ExtensionBody(b)) else []
  }

  /**
   * How a body is read (section 4.2 of RFC 8285): a zero byte is skipped, an element is followed by the rest, and id 15
   * or an element longer than what is left ends the reading.
   */
  lemma ElementsScan(e: Element, rest: seq<Byte>, body: seq<Byte>)
    requires Encodable(e)
    ensures Elements([]) == [] && Elements([0] + rest) == Elements(rest)
    ensures Elements([e.id * 0x10 + |e.value| - 1] + e.value + rest) == [e] + Elements(rest)
    ensures body != [] && body[0] != 0 && (body[0] / 0x10 == 15 || body[0] % 0x10 + 2 > |body|) ==> Elements(body) == []
  {
    assert ([0] + rest)[1..] == rest;
    var s := [e.id * 0x10 + |e.value| - 1] + e.value + rest;
    var n := |e.value| + 1;
    assert s[0] / 0x10 == e.id && ElementSize(s[0]) == n;
    ElementsStep(s);
    assert s[1..n] == e.value && s[n..] == rest;
  }

  lemma {:induction false} ZerosHoldNoElement(s: seq<Byte>)
    requires forall i | 0 <= i < |s| :: s[i] == 0
    ensures Elements(s) == []
  {
    if s != [] {
      ZerosHoldNoElement(s[1..]);
    }
  }

  lemma {:induction false} NothingUsedNothingRead(body: seq<Byte>)
    requires Used(body) == 0
    ensures Elements(body) == []
  {
    if body != [] && body[0] == 0 {
      NothingUsedNothingRead(body[1..]);
    }
  }

  /** A body that starts with one readable element. */
  lemma ElementsStep(body: seq<Byte>)
    requires body != [] && body[0] != 0 && !Stops(body)
    ensures var n := ElementSize(body[0]);
      && Elements(body) == [Element(body[0] / 0x10, body[1..n])] + Elements(body[n..])
      && Used(body) == n + Used(body[n..])
  {
  }

  /** A body that starts with padding. */
  lemma PaddingStep(body: seq<Byte>)
    requires body != [] && body[0] == 0
    ensures Elements(body) == Elements(body[1..])
    ensures Used(body) == if Used(body[1..]) == 0 then 0 else Used(body[1..]) + 1
  {
  }

  lemma Stopped(body: seq<Byte>)
    ensures body == [] || (body[0] != 0 && Stops(body)) ==> Used(body) == 0 && Elements(body) == []
  {
  }

  /** Cutting a body at `Used` keeps its elements and leaves room for more behind them. */
  lemma {:induction false} ElementsAfterUsed(body: seq<Byte>, tail: seq<Byte>)
    ensures Elements(body[..Used(body)] + tail) == Elements(body) + Elements(tail)
  {
    hide Elements, Used;
    Stopped(body);
    if Used(body) == 0 {
      NothingUsedNothingRead(body);
      assert body[..0] + tail == tail;
    } else if body[0] == 0 {
      PaddingStep(body);
      ElementsAfterUsed(body[1..], tail);
      var s := body[..Used(body)] + tail;
      assert s[1..] == body[1..][..Used(body[1..])] + tail;
      PaddingStep(s);
    } else {
      ElementsAfterUsedStep(body, tail);
      ElementsAfterUsed(body[ElementSize(body[0])..], tail);
    }
  }

  lemma ElementsAfterUsedStep(body: seq<Byte>, tail: seq<Byte>)
    requires body != [] && body[0] != 0 && !Stops(body)
    ensures var n := ElementSize(body[0]);
      && Elements(body) == [Element(body[0] / 0x10, body[1..n])] + Elements(body[n..])
      && Elements(body[..Used(body)] + tail) ==
           [Element(body[0] / 0x10, body[1..n])] + Elements(body[n..][..Used(body[n..])] + tail)
  {
    hide Elements, Used;
    var n := ElementSize(body[0]);
    var s := body[..Used(body)] + tail;
    ElementsStep(body);
    assert s[0] == body[0];
    ElementsStep(s);
    assert s[1..n] == body[1..n];
    assert s[n..] == body[n..][..Used(body[n..])] + tail;
  }

  lemma LoneElement(e: Element, zeros: seq<Byte>)
    requires Encodable(e)
    requires forall i | 0 <= i < |zeros| :: zeros[i] == 0
    ensures Elements(ElementBytes(e) + zeros) == [e]
  {
    var s := ElementBytes(e) + zeros;
    var n := |e.value| + 1;
    assert s[0] == e.id * 0x10 + |e.value| - 1;
    assert s[0] / 0x10 == e.id && ElementSize(s[0]) == n;
    ElementsStep(s);
    assert s[1..n] == e.value && s[n..] == zeros;
    ZerosHoldNoElement(zeros);
  }

  lemma AppendedElements(body: seq<Byte>, e: Element)
    requires Encodable(e)
    ensures Elements(AppendedBody(body, e)) == Elements(body) + [e]
  {
    var kept := body[..Used(body)];
    var zeros := AppendedBody(body, e)[|kept + ElementBytes(e)|..];
    assert AppendedBody(body, e) == kept + (ElementBytes(e) + zeros);
    LoneElement(e, zeros);
    ElementsAfterUsed(body, ElementBytes(e) + zeros);
  }

  /** A packet put together from its sections reads back as those sections. */
  lemma Assembled(head: seq<Byte>, body: seq<Byte>, payload: seq<Byte>, r: seq<Byte>)
    requires HasHeader(head) && HeaderSize(head) == |head| && Extension(head)
    requires |body| % 4 == 0 && |body| / 4 < 0x1_0000
    requires r == head + (BytesOfU16(ONE_BYTE_PROFILE) + BytesOfU16(|body| / 4)) + body + payload
    ensures OneByteExtended(r) && HeaderSize(r) == |head|
    ensures r[..|head|] == head && ExtensionBody(r) == body && Payload(r) == payload
  {
    var h := |head|;
    assert r[0] == head[0];
    assert HeaderSize(r) == h && Extension(r);
    var middle := BytesOfU16(ONE_BYTE_PROFILE) + BytesOfU16(|body| / 4);
    assert r[h] == middle[0] && r[h + 1] == middle[1] && r[h + 2] == middle[2] && r[h + 3] == middle[3];
    assert ReadU16(r, h) == ONE_BYTE_PROFILE;
    assert ReadU16(r, h + 2) == |body| / 4;
    assert ExtensionSize(r) == |body|;
    var front := head + middle;
    assert r == front + (body + payload);
    assert r[|front|..|front| + |body|] == body;
    assert r[|front| + |body|..] == payload;
  }

  lemma ExtendedHeader(b: seq<Byte>)
    requires HasHeader(b) && |b| >= HeaderSize(b)
    ensures var head := Extended(b[..HeaderSize(b)]);
      HasHeader(head) && HeaderSize(head) == |head| == HeaderSize(b) && Extension(head)
  {
  }

  /** Section 4.2 of RFC 8285, for both writers: one element more, everything else as it was. */
  lemma AppendKeepsPacket(b: seq<Byte>, e: Element)
    requires OneByteOrBare(b) && Encodable(e) && Fits(b, e)
    ensures var r := Append(b, e);
      && OneByteExtended(r)
      && HeaderSize(r) == HeaderSize(b)
      && r[..HeaderSize(b)] == Extended(b[..HeaderSize(b)])
      && ExtensionBody(r) == AppendedBody(ExtensionBody(b), e)
      && Payload(r) == Payload(b)
  {
    hide AppendedBody;
    var head := Extended(b[..HeaderSize(b)]);
    var body := AppendedBody(ExtensionBody(b), e);
    ExtendedHeader(b);
    Assembled(head, body, Payload(b), Append(b, e));
  }

  lemma AppendReadBack(b: seq<Byte>, e: Element)
    requires OneByteOrBare(b) && Encodable(e) && Fits(b, e)
    ensures ReadElements(Append(b, e)) == ReadElements(b) + [e]
  {
    AppendKeepsPacket(b, e);
    AppendedElements(ExtensionBody(b), e);
  }

  lemma {:induction false} FirstBehind(es: seq<Element>, e: Element, id: nat, size: nat)
    ensures First(es + [e], id, size) ==
      if Carries(es, id, size) then First(es, id, size)
      else if e.id == id && |e.value| == size then Some(e.value) else None
    ensures First(es, id, size).Some? <==> Carries(es, id, size)
  {
    if es == [] {
      assert First([e][1..], id, size) == None;
    } else {
      FirstBehind(es[1..], e, id, size);
      assert (es + [e])[1..] == es[1..] + [e];
      assert forall x :: x in es <==> x == es[0] || x in es[1..];
    }
  }

  /** The scan loop shared by both writers: how much of the body to keep. */
  method KeptLength(body: seq<Byte>) returns (used: nat)
    ensures used == Used(body)
  {
    hide Used, Elements;
    used := 0;
    var offset := 0;
    assert body[0..] == body;
    while offset < |body|
      invariant used <= offset <= |body|
      invariant Used(body) == if Used(body[offset..]) == 0 then used else offset + Used(body[offset..])
    {
      var rest := body[offset..];
      if body[offset] == 0 {
        PaddingStep(rest);
        assert rest[1..] == body[offset + 1..];
        offset := offset + 1;
        continue;
      }
      var size := ElementSize(body[offset]);
      Stopped(rest);
      if body[offset] / 0x10 == 15 || offset + size > |body| {
        return;
      }
      ElementsStep(rest);
      assert rest[size..] == body[offset + size..];
      used := offset + size;
      offset := used;
    }
    Stopped(body[offset..]);
  }

  /** The scan loop shared by both readers: the value of the first matching element. */
  method FindElement(body: seq<Byte>, id: nat, size: nat) returns (value: Option<seq<Byte>>)
    ensures value == First(Elements(body), id, size)
  {
    hide Elements, Used;
    var offset := 0;
    assert body[0..] == body;
    while offset < |body|
      invariant 0 <= offset <= |body|
      invariant First(Elements(body), id, size) == First(Elements(body[offset..]), id, size)
    {
      var rest := body[offset..];
      if body[offset] == 0 {
        PaddingStep(rest);
        assert rest[1..] == body[offset + 1..];
        offset := offset + 1;
        continue;
      }
      var n := ElementSize(body[offset]);
      Stopped(rest);
      if body[offset] / 0x10 == 15 || offset + n > |body| {
        return None;
      }
      ElementsStep(rest);
      assert rest[n..] == body[offset + n..] && rest[1..n] == body[offset + 1..offset + n];
      if body[offset] / 0x10 == id && n - 1 == size {
        return Some(body[offset + 1..offset + n]);
      }
      assert ([Element(rest[0] / 0x10, rest[1..n])] + Elements(rest[n..]))[1..] == Elements(rest[n..]);
      offset := offset + n;
    }
    Stopped(body[offset..]);
    return None;
  }

  method Pad(body: seq<Byte>) returns (padded: seq<Byte>)
    ensures padded == Padded(body)
  {
    padded := body;
    while |padded| % 4 != 0
      invariant |body| <= |padded| <= |Padded(body)|
      invariant padded == Padded(body)[..|padded|]
      decreases |Padded(body)| - |padded|
    {
      padded := padded + [0];
    }
  }

  /** The rewriting both writers do in place, from the copied body to `message->assign`. */
  method Rewrite(message: Message, e: Element)
    requires Encodable(e)
    requires OneByteOrBare(message.bytes)
    modifies message`bytes
    ensures message.bytes == Append(old(message.bytes), e)
  {
    hide Used, Padded, ElementBytes;
    var b := message.bytes;
    var fixed := HeaderSize(b);
    var body := [];
    var payloadAt := fixed;
    if Extension(b) {
      var size := ExtensionSize(b);
      payloadAt := fixed + EXTENSION_HEADER_SIZE + size;
      body := b[fixed + EXTENSION_HEADER_SIZE..payloadAt];
      var used := KeptLength(body);
      body := body[..used];
    }
    body := Pad(body + ElementBytes(e));
    var rewritten := b[..fixed];
    rewritten := [if rewritten[0] / 0x10 % 2 == 1 then rewritten[0] else rewritten[0] + 0x10] + rewritten[1..];
    rewritten := rewritten + (BytesOfU16(ONE_BYTE_PROFILE) + BytesOfU16(Wrap16(|body| / 4)));
    rewritten := rewritten + body;
    message.bytes := rewritten + b[payloadAt..];
  }
}

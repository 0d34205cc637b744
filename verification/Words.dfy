/** Fixed-width integers, wrap-around and network byte order. */
module Words {
  type Byte = x: int | 0 <= x < 0x100
  type U16 = x: int | 0 <= x < 0x1_0000
  type U32 = x: int | 0 <= x < 0x1_0000_0000

  datatype Option<+T> = None | Some(value: T)

  function Wrap16(x: int): U16 { x % 0x1_0000 }

  function Wrap32(x: int): U32 { x % 0x1_0000_0000 }

  /** `static_cast<int16_t>` of an unsigned 16-bit value. */
  function Signed16(x: U16): int {
    if x < 0x8000 then x else x - 0x1_0000
  }

  function BytesOfU16(v: U16): (b: seq<Byte>)
    ensures |b| == 2
  {
    [v / 0x100, v % 0x100]
  }

  function BytesOfU32(v: U32): (b: seq<Byte>)
    ensures |b| == 4
  {
    BytesOfU16(v / 0x1_0000) + BytesOfU16(v % 0x1_0000)
  }

  function ReadU16(b: seq<Byte>, at: nat): U16
    requires at + 2 <= |b|
  {
    b[at] as int * 0x100 + b[at + 1] as int
  }

  function ReadU32(b: seq<Byte>, at: nat): U32
    requires at + 4 <= |b|
  {
    ReadU16(b, at) as int * 0x1_0000 + ReadU16(b, at + 2) as int
  }

  lemma ReadBackU16(b: seq<Byte>, at: nat, v: U16)
    requires at + 2 <= |b| && b[at..at + 2] == BytesOfU16(v)
    ensures ReadU16(b, at) == v
  {
    assert b[at] == b[at..at + 2][0] && b[at + 1] == b[at..at + 2][1];
  }

  lemma ReadBackU32(b: seq<Byte>, at: nat, v: U32)
    requires at + 4 <= |b| && b[at..at + 4] == BytesOfU32(v)
    ensures ReadU32(b, at) == v
  {
    hide BytesOfU16, ReadU16;
    var s := b[at..at + 4];
    assert b[at..at + 2] == s[..2] == BytesOfU16(v / 0x1_0000);
    assert b[at + 2..at + 2 + 2] == s[2..] == BytesOfU16(v % 0x1_0000);
    ReadBackU16(b, at, v / 0x1_0000);
    ReadBackU16(b, at + 2, v % 0x1_0000);
  }

  /** Two 16-bit sequence numbers less than 2^15 apart: the signed difference is the true one. */
  lemma SignedDifference(x: int, y: int)
    requires -0x8000 <= x - y < 0x8000
    ensures Signed16(Wrap16(Wrap16(x) - Wrap16(y))) == x - y
  {
    WrapDifference(x, y);
  }

  lemma WrapNothing(x: int)
    requires 0 <= x < 0x1_0000
    ensures Wrap16(x) == x
  {
  }

  lemma WrapShift(x: int, y: int)
    ensures Wrap16(Wrap16(x) + y) == Wrap16(x + y)
  {
  }

  lemma WrapMinus(x: int, y: int)
    ensures Wrap16(x - Wrap16(y)) == Wrap16(x - y)
  {
  }

  lemma WrapDifference(x: int, y: int)
    ensures Wrap16(Wrap16(x) - Wrap16(y)) == Wrap16(x - y)
    ensures Wrap16(x - Wrap16(y)) == Wrap16(x - y)
    ensures Wrap16(Wrap16(x) + y) == Wrap16(x + y)
  {
    hide Wrap16;
    WrapShift(x, -(Wrap16(y) as int));
    WrapShift(x, y);
    WrapMinus(x, y);
  }
}

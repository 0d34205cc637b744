/**
 * Transport-wide feedback packets (draft-holmer-rmcat-transport-wide-cc-extensions-01): the status symbols a packet
 * stands for, the run-length encoder and the decoder for all three kinds of chunk.
 */
module TwccFeedback {
  import opened Words
  import Nack

  const HEADER_SIZE := 20
  const MAX_RUN := 0x1FFF
  const MAX_STATUS := 4096

  // ---------------------------------------------------------------- what the bytes mean

  /** The status symbols of one chunk, section 3.1.3 and 3.1.4: run length, one-bit vector, two-bit vector. */
  function ChunkSymbols(word: U16): (s: seq<nat>)
  {
    if word < 0x8000 then seq(word % 0x2000, _ => word / 0x2000 % 4)
    else if word / 0x4000 % 2 == 1 then seq(7, i requires 0 <= i < 7 => word / Nack.Pow2(12 - 2 * i) % 4)
    else seq(14, i requires 0 <= i < 14 => word / Nack.Pow2(13 - i) % 2)
  }

  /** All symbols from `cursor` on; a lone last byte is no chunk. */
  function Symbols(data: seq<Byte>, cursor: nat): seq<nat>
    decreases |data| - cursor
  {
    if cursor + 2 <= |data| then ChunkSymbols(ReadU16(data, cursor)) + Symbols(data, cursor + 2) else []
  }

  function Take<T>(s: seq<T>, n: nat): seq<T> {
    if n <= |s| then s[..n] else s
  }

  function Zeros(s: seq<nat>): (n: nat)
    ensures n <= |s|
  {
    if s == [] then 0 else Zeros(s[..|s| - 1]) + if s[|s| - 1] == 0 then 1 else 0
  }

  function StatusCount(data: seq<Byte>): U16
    requires |data| >= HEADER_SIZE
  {
    ReadU16(data, 14)
  }

  /** The statuses the packet reports: its symbols, as far as the status count goes. */
  function Statuses(data: seq<Byte>): (s: seq<nat>)
    requires |data| >= HEADER_SIZE
    ensures |s| <= StatusCount(data)
  {
    Take(Symbols(data, HEADER_SIZE), StatusCount(data))
  }

  lemma {:induction false} ZerosAppend(s: seq<nat>, t: seq<nat>)
    ensures Zeros(s + t) == Zeros(s) + Zeros(t)
    decreases t
  {
    if t == [] {
      assert s + [] == s;
    } else {
      var n := |t| - 1;
      ZerosAppend(s, t[..n]);
      assert (s + t)[..|s| + n] == s + t[..n];
    }
  }

  lemma {:induction false} ZerosOfRepeat(n: nat, x: nat)
    ensures Zeros(seq(n, _ => x)) == if x == 0 then n else 0
  {
    var s := seq(n, _ => x);
    if n > 0 {
      ZerosOfRepeat(n - 1, x);
      assert s[..n - 1] == seq(n - 1, _ => x);
    }
  }

  // ---------------------------------------------------------------- decoder

  /** Where the decoder stands: `counted` has been tallied, `todo` is still to come. */
  ghost predicate Counting(all: seq<nat>, counted: seq<nat>, todo: seq<nat>, limit: nat, parsed: nat, received: nat,
                           lost: nat) {
    && |counted| == parsed <= limit && received + lost == parsed && lost == Zeros(counted)
    && Take(all, limit) == counted + Take(todo, limit - parsed)
  }

  lemma CountingStart(all: seq<nat>, limit: nat)
    ensures Counting(all, [], all, limit, 0, 0, 0)
  {
    assert [] + Take(all, limit) == Take(all, limit);
  }

  lemma TakeAppend(s: seq<nat>, t: seq<nat>, n: nat)
    ensures |s| <= n ==> Take(s + t, n) == s + Take(t, n - |s|)
    ensures |s| >= n ==> Take(s + t, n) == s[..n]
  {
  }

  /** A stretch of the symbols to come is counted, as far as the limit goes. */
  lemma CountingNext(all: seq<nat>, counted: seq<nat>, done: seq<nat>, todo: seq<nat>, limit: nat, parsed: nat,
                     received: nat, lost: nat)
    requires Counting(all, counted, done + todo, limit, parsed, received, lost)
    ensures var part := Take(done, limit - parsed);
      Counting(all, counted + part, todo, limit, parsed + |part|, received + |part| - Zeros(part), lost + Zeros(part))
  {
    hide Zeros;
    var part := Take(done, limit - parsed);
    TakeAppend(done, todo, limit - parsed);
    ZerosAppend(counted, part);
    var rest := Take(todo, limit - parsed - |part|);
    assert Take(done + todo, limit - parsed) == part + rest;
    assert counted + (part + rest) == counted + part + rest;
  }

  lemma CountingEnd(all: seq<nat>, counted: seq<nat>, todo: seq<nat>, limit: nat, parsed: nat, received: nat, lost: nat)
    requires Counting(all, counted, todo, limit, parsed, received, lost) && (parsed == limit || todo == [])
    ensures received + lost == |Take(all, limit)| && lost == Zeros(Take(all, limit))
  {
    assert counted + [] == counted;
  }

  /** The parsing loops of `observe_twcc_feedback`. */
  method CountStatuses(data: seq<Byte>) returns (received: nat, lost: nat)
    requires |data| >= HEADER_SIZE
    ensures received + lost == |Statuses(data)| <= StatusCount(data)
    ensures lost == Zeros(Statuses(data))
  {
    hide Counting, ChunkSymbols, Zeros;
    var statusCount: nat := ReadU16(data, 14);
    var cursor: nat, parsed: nat := HEADER_SIZE, 0;
    received, lost := 0, 0;
    ghost var all := Symbols(data, HEADER_SIZE);
    ghost var counted: seq<nat> := [];
    CountingStart(all, statusCount);
    while parsed < statusCount && cursor + 2 <= |data|
      invariant HEADER_SIZE <= cursor && parsed <= statusCount
      invariant Counting(all, counted, Symbols(data, cursor), statusCount, parsed, received, lost)
      decreases |data| - cursor
    {
      var chunk := ReadU16(data, cursor);
      cursor := cursor + 2;
      ghost var rest := Symbols(data, cursor);
      CountingNext(all, counted, ChunkSymbols(chunk), rest, statusCount, parsed, received, lost);
      ghost var part := Take(ChunkSymbols(chunk), statusCount - parsed);
      counted := counted + part;
      if chunk / 0x8000 == 0 {
        var status, run := chunk / 0x2000 % 4, chunk % 0x2000;
        var remaining: nat := statusCount - parsed;
        var count := if run < remaining then run else remaining;
        RunTaken(chunk, remaining);
        if status == 0 {
          lost := lost + count;
        } else {
          received := received + count;
        }
        parsed := parsed + count;
      } else {
        received, lost, parsed := CountVector(chunk, statusCount, parsed, received, lost);
      }
    }
    SymbolsEnd(data, cursor);
    CountingEnd(all, counted, Symbols(data, cursor), statusCount, parsed, received, lost);
  }

  lemma SymbolsEnd(data: seq<Byte>, cursor: nat)
    ensures cursor + 2 > |data| ==> Symbols(data, cursor) == []
  {
  }

  /** What a run-length chunk contributes when `remaining` statuses are still wanted. */
  lemma RunTaken(chunk: U16, remaining: nat)
    requires chunk < 0x8000
    ensures var status, run := chunk / 0x2000 % 4, chunk % 0x2000;
      var part := Take(ChunkSymbols(chunk), remaining);
      && |part| == (if run < remaining then run else remaining)
      && Zeros(part) == if status == 0 then |part| else 0
  {
    var status, run := chunk / 0x2000 % 4, chunk % 0x2000;
    var part := Take(ChunkSymbols(chunk), remaining);
    assert part == seq(|part|, _ => status);
    ZerosOfRepeat(|part|, status);
  }

  lemma OneSymbol(x: nat)
    ensures Zeros([x]) == if x == 0 then 1 else 0
  {
    assert [x][..0] == [];
  }

  function VectorSymbol(chunk: U16, twoBit: bool, i: nat): nat
    requires i < if twoBit then 7 else 14
  {
    if twoBit then chunk / Nack.Pow2(12 - 2 * i) % 4 else chunk / Nack.Pow2(13 - i) % 2
  }

  lemma VectorSymbols(chunk: U16)
    requires chunk >= 0x8000
    ensures var twoBit := chunk / 0x4000 % 2 == 1;
      && |ChunkSymbols(chunk)| == (if twoBit then 7 else 14)
      && forall i | 0 <= i < |ChunkSymbols(chunk)| :: ChunkSymbols(chunk)[i] == VectorSymbol(chunk, twoBit, i)
  {
    hide Nack.Pow2;
  }

  /** Sections 3.1.3 and 3.1.4, bit by bit: the length of a run, and the symbols of a vector from the highest bit on. */
  lemma ChunkLayout(word: U16)
    ensures word < 0x8000 ==>
      |ChunkSymbols(word)| == word % 0x2000 && forall s | s in ChunkSymbols(word) :: s == word / 0x2000
    ensures 0x8000 <= word < 0xC000 ==> |ChunkSymbols(word)| == 14 && forall i | 0 <= i < 14 ::
      ChunkSymbols(word)[i] == word / [8192, 4096, 2048, 1024, 512, 256, 128, 64, 32, 16, 8, 4, 2, 1][i] % 2
    ensures 0xC000 <= word ==> |ChunkSymbols(word)| == 7 && forall i | 0 <= i < 7 ::
      ChunkSymbols(word)[i] == word / [4096, 1024, 256, 64, 16, 4, 1][i] % 4
  {
    hide Nack.Pow2;
    Nack.Pow2Table();
  }

  /** The loop over the symbols of a status vector chunk. */
  method CountVector(chunk: U16, statusCount: nat, parsed0: nat, received0: nat, lost0: nat)
    returns (received: nat, lost: nat, parsed: nat)
    requires chunk >= 0x8000 && parsed0 <= statusCount
    ensures var part := Take(ChunkSymbols(chunk), statusCount - parsed0);
      && parsed == parsed0 + |part|
      && received == received0 + |part| - Zeros(part) && lost == lost0 + Zeros(part)
  {
    hide ChunkSymbols, VectorSymbol, Zeros;
    ZerosOfRepeat(0, 0);
    assert seq(0, _ => 0) == [];
    received, lost, parsed := received0, lost0, parsed0;
    var twoBit := chunk / 0x4000 % 2 == 1;
    var symbolCount := if twoBit then 7 else 14;
    ghost var symbols := ChunkSymbols(chunk);
    VectorSymbols(chunk);
    var i := 0;
    while i < symbolCount && parsed < statusCount
      invariant 0 <= i <= symbolCount == |symbols| && parsed <= statusCount
      invariant parsed == parsed0 + i
      invariant received == received0 + i - Zeros(symbols[..i]) && lost == lost0 + Zeros(symbols[..i])
    {
      var status := VectorSymbol(chunk, twoBit, i);
      assert symbols[..i + 1] == symbols[..i] + [status];
      ZerosAppend(symbols[..i], [status]);
      OneSymbol(status);
      if status == 0 {
        lost := lost + 1;
      } else {
        received := received + 1;
      }
      parsed := parsed + 1;
      i := i + 1;
    }
    assert symbols[..|symbols|] == symbols;
  }

  // ---------------------------------------------------------------- encoder

  datatype StatusRun = StatusRun(received: bool, length: nat)

  function RunWord(r: StatusRun): U16
    requires r.length <= MAX_RUN
  {
    (if r.received then 0x2000 else 0) + r.length
  }

  /** How many leading flags equal the first, up to the longest run a chunk can hold. */
  function LeadingRun(flags: seq<bool>, from: nat): (n: nat)
    requires 0 < from <= |flags| && from <= MAX_RUN
    ensures from <= n <= |flags| && n <= MAX_RUN
    ensures forall i | from <= i < n :: flags[i] == flags[0]
    ensures n < |flags| && n < MAX_RUN ==> flags[n] != flags[0]
    decreases |flags| - from
  {
    if from < |flags| && from < MAX_RUN && flags[from] == flags[0] then LeadingRun(flags, from + 1) else from
  }

  function Runs(flags: seq<bool>): seq<StatusRun>
  {
    if flags == [] then []
    else
      var n := LeadingRun(flags, 1);
      [StatusRun(flags[0], n)] + Runs(flags[n..])
  }

  function Expand(runs: seq<StatusRun>): seq<bool> {
    if runs == [] then [] else seq(runs[0].length, _ => runs[0].received) + Expand(runs[1..])
  }

  /** The runs cover the range, and none is empty or too long for a chunk. */
  lemma {:induction false} RunsPartition(flags: seq<bool>)
    ensures Expand(Runs(flags)) == flags
    ensures forall i | 0 <= i < |Runs(flags)| :: 0 < Runs(flags)[i].length <= MAX_RUN
    ensures |Runs(flags)| <= |flags|
  {
    hide LeadingRun, Runs;
    if flags == [] {
      NoRuns();
    } else {
      var n := LeadingRun(flags, 1);
      RunsPartition(flags[n..]);
      RunsStep(flags, n);
      assert seq(n, _ => flags[0]) == flags[..n];
      assert Runs(flags)[1..] == Runs(flags[n..]);
      assert flags == flags[..n] + flags[n..];
    }
  }

  lemma NoRuns()
    ensures Runs([]) == [] && Expand([]) == []
  {
  }

  lemma RunsStep(flags: seq<bool>, n: nat)
    requires flags != [] && n == LeadingRun(flags, 1)
    ensures Runs(flags) == [StatusRun(flags[0], n)] + Runs(flags[n..])
  {
    hide LeadingRun;
  }

  /** The runs are maximal: neighbours differ. */
  lemma {:induction false} RunsAlternate(flags: seq<bool>)
    requires |flags| <= MAX_RUN
    ensures forall i | 0 < i < |Runs(flags)| :: Runs(flags)[i].received != Runs(flags)[i - 1].received
    ensures flags != [] ==> Runs(flags) != [] && Runs(flags)[0].received == flags[0]
  {
    hide LeadingRun;
    if flags != [] {
      var n := LeadingRun(flags, 1);
      RunsAlternate(flags[n..]);
      assert Runs(flags)[1..] == Runs(flags[n..]);
    }
  }

  function WordBytes(runs: seq<StatusRun>): (b: seq<Byte>)
    requires forall i | 0 <= i < |runs| :: runs[i].length <= MAX_RUN
    ensures |b| == 2 * |runs|
  {
    if runs == [] then [] else BytesOfU16(RunWord(runs[0])) + WordBytes(runs[1..])
  }

  function ReceivedIn(flags: seq<bool>): (n: nat)
    ensures n <= |flags|
  {
    if flags == [] then 0 else ReceivedIn(flags[..|flags| - 1]) + if flags[|flags| - 1] then 1 else 0
  }

  function PaddedSize(flags: seq<bool>): nat {
    (HEADER_SIZE + 2 * |Runs(flags)| + ReceivedIn(flags) + 3) / 4 * 4
  }

  /** The fixed part of the packet. */
  function Header(flags: seq<bool>, baseSequence: U16, referenceTime: int, feedbackCount: Byte): (b: seq<Byte>)
    requires |flags| <= MAX_STATUS && 0 <= referenceTime < 0x100_0000
    ensures |b| == HEADER_SIZE
  {
    SizeFits(flags);
    [0x8F, 205] + BytesOfU16(PaddedSize(flags) / 4 - 1) + [0, 0, 0, 0, 0, 0, 0, 0] + BytesOfU16(baseSequence)
    + BytesOfU16(|flags|)
    + [referenceTime / 0x1_0000, referenceTime / 0x100 % 0x100, referenceTime % 0x100, feedbackCount]
  }

  lemma SizeFits(flags: seq<bool>)
    requires |flags| <= MAX_STATUS
    ensures 0 <= PaddedSize(flags) - (HEADER_SIZE + 2 * |Runs(flags)| + ReceivedIn(flags)) < 4
    ensures 1 <= PaddedSize(flags) / 4 <= 0x1_0000 && PaddedSize(flags) % 4 == 0
  {
    RunsPartition(flags);
  }

  /** The packet `maybe_send_twcc_feedback` builds for a range of flags. */
  function Feedback(flags: seq<bool>, baseSequence: U16, referenceTime: int, feedbackCount: Byte): (b: seq<Byte>)
    requires |flags| <= MAX_STATUS && 0 <= referenceTime < 0x100_0000
    ensures |b| == PaddedSize(flags)
  {
    SizeFits(flags);
    RunsPartition(flags);
    Header(flags, baseSequence, referenceTime, feedbackCount) + WordBytes(Runs(flags))
    + seq(PaddedSize(flags) - HEADER_SIZE - 2 * |Runs(flags)|, _ => 0)
  }

  function FlagSymbols(flags: seq<bool>): (s: seq<nat>)
    ensures |s| == |flags|
  {
    seq(|flags|, i requires 0 <= i < |flags| => if flags[i] then 1 else 0)
  }

  lemma RunSymbols(r: StatusRun)
    requires r.length <= MAX_RUN
    ensures ChunkSymbols(RunWord(r)) == FlagSymbols(seq(r.length, _ => r.received))
  {
  }

  /** Chunk words placed anywhere in a packet decode to the flags they were made from. */
  lemma {:induction false} WordsDecode(data: seq<Byte>, cursor: nat, runs: seq<StatusRun>)
    requires forall i | 0 <= i < |runs| :: runs[i].length <= MAX_RUN
    requires cursor + 2 * |runs| <= |data| && data[cursor..cursor + 2 * |runs|] == WordBytes(runs)
    ensures FlagSymbols(Expand(runs)) <= Symbols(data, cursor)
    decreases |runs|
  {
    hide ChunkSymbols, RunWord;
    if runs != [] {
      var s := data[cursor..cursor + 2 * |runs|];
      assert s[..2] == BytesOfU16(RunWord(runs[0]));
      assert data[cursor..cursor + 2] == s[..2];
      ReadBackU16(data, cursor, RunWord(runs[0]));
      assert data[cursor + 2..cursor + 2 + 2 * |runs[1..]|] == s[2..] == WordBytes(runs[1..]);
      WordsDecode(data, cursor + 2, runs[1..]);
      RunSymbols(runs[0]);
      var head := seq(runs[0].length, _ => runs[0].received);
      assert FlagSymbols(head + Expand(runs[1..])) == FlagSymbols(head) + FlagSymbols(Expand(runs[1..]));
    }
  }

  lemma {:induction false} LostFlags(flags: seq<bool>)
    ensures Zeros(FlagSymbols(flags)) == |flags| - ReceivedIn(flags)
  {
    if flags != [] {
      var n := |flags| - 1;
      LostFlags(flags[..n]);
      assert FlagSymbols(flags)[..n] == FlagSymbols(flags[..n]);
    }
  }

  /** The decoder reads back the flags the encoder wrote; the RTCP length field spans the whole packet. */
  lemma FeedbackDecodes(flags: seq<bool>, baseSequence: U16, referenceTime: int, feedbackCount: Byte)
    requires |flags| <= MAX_STATUS && 0 <= referenceTime < 0x100_0000
    ensures var data := Feedback(flags, baseSequence, referenceTime, feedbackCount);
      && |data| >= HEADER_SIZE && (ReadU16(data, 2) + 1) * 4 == |data|
      && ReadU16(data, 12) == baseSequence && StatusCount(data) == |flags|
      && Statuses(data) == FlagSymbols(flags)
      && Zeros(Statuses(data)) == |flags| - ReceivedIn(flags)
  {
    hide Runs, Symbols, ChunkSymbols, ReceivedIn, Zeros, WordBytes;
    var data := Feedback(flags, baseSequence, referenceTime, feedbackCount);
    var header := Header(flags, baseSequence, referenceTime, feedbackCount);
    var runs := Runs(flags);
    SizeFits(flags);
    RunsPartition(flags);
    assert data[..HEADER_SIZE] == header;
    HeaderFields(data, flags, baseSequence, referenceTime, feedbackCount);
    assert data[HEADER_SIZE..HEADER_SIZE + 2 * |runs|] == WordBytes(runs);
    WordsDecode(data, HEADER_SIZE, runs);
    LostFlags(flags);
  }

  lemma HeaderFields(data: seq<Byte>, flags: seq<bool>, baseSequence: U16, referenceTime: int, feedbackCount: Byte)
    requires |flags| <= MAX_STATUS && 0 <= referenceTime < 0x100_0000
    requires |data| >= HEADER_SIZE && data[..HEADER_SIZE] == Header(flags, baseSequence, referenceTime, feedbackCount)
    ensures ReadU16(data, 2) == PaddedSize(flags) / 4 - 1
    ensures ReadU16(data, 12) == baseSequence && ReadU16(data, 14) == |flags|
  {
    hide Runs, ReceivedIn, PaddedSize;
    var h := data[..HEADER_SIZE];
    SizeFits(flags);
    assert data[2..2 + 2] == h[2..4] == BytesOfU16(PaddedSize(flags) / 4 - 1);
    ReadBackU16(data, 2, PaddedSize(flags) / 4 - 1);
    assert data[12..12 + 2] == h[12..14] == BytesOfU16(baseSequence);
    ReadBackU16(data, 12, baseSequence);
    assert data[14..14 + 2] == h[14..16] == BytesOfU16(|flags|);
    ReadBackU16(data, 14, |flags|);
  }

  lemma FeedbackHeader(flags: seq<bool>, baseSequence: U16, referenceTime: int, feedbackCount: Byte)
    requires |flags| <= MAX_STATUS && 0 <= referenceTime < 0x100_0000
    ensures var data := Feedback(flags, baseSequence, referenceTime, feedbackCount);
      && |data| == PaddedSize(flags) >= 20 && data[0] == 0x8F && data[1] == 205
      && (forall i | 4 <= i < 12 :: data[i] == 0)
      && data[16] as int * 0x1_0000 + data[17] as int * 0x100 + data[18] as int == referenceTime
      && data[19] == feedbackCount
  {
    hide Runs, ReceivedIn, PaddedSize, BytesOfU16, WordBytes;
    var data := Feedback(flags, baseSequence, referenceTime, feedbackCount);
    var h := Header(flags, baseSequence, referenceTime, feedbackCount);
    SizeFits(flags);
    assert forall i | 0 <= i < HEADER_SIZE :: data[i] == h[i];
  }
}

/** Generic NACK packing (section 6.2.1 of RFC 4585): the sequence numbers a frame still lacks, as (PID, BLP) pairs. */
module Nack {
  import opened Words

  datatype Group = Group(pid: U16, blp: U16)

  function Pow2(n: nat): (p: nat)
    ensures p >= 1
  {
    if n == 0 then 1 else 2 * Pow2(n - 1)
  }

  predicate TestBit(w: nat, bit: nat) { w / Pow2(bit) % 2 == 1 }

  /** `w | (1 << bit)` */
  function SetBit(w: nat, bit: nat): nat {
    if TestBit(w, bit) then w else w + Pow2(bit)
  }

  /** Sequence numbers named by the BLP bits from `k` on, `blp` already shifted right by `k`. */
  function BitSequences(pid: U16, blp: nat, k: nat): seq<U16>
    decreases blp
  {
    if blp == 0 then []
    else (if blp % 2 == 1 then [Wrap16(pid + k + 1)] else []) + BitSequences(pid, blp / 2, k + 1)
  }

  /** What a receiver of one pair retransmits, in order. */
  function DecodeGroup(g: Group): seq<U16> {
    [g.pid] + BitSequences(g.pid, g.blp, 0)
  }

  function Decode(groups: seq<Group>): seq<U16> {
    if groups == [] then [] else Decode(groups[..|groups| - 1]) + DecodeGroup(groups[|groups| - 1])
  }

  /** Positions of the packets not yet received. */
  function MissingIndices(have: seq<bool>): (r: seq<nat>)
    ensures forall k | 0 <= k < |r| :: r[k] < |have| && !have[r[k]]
    ensures forall j, k | 0 <= j < k < |r| :: r[j] < r[k]
  {
    if have == [] then []
    else
      var n := |have| - 1;
      MissingIndices(have[..n]) + if have[n] then [] else [n]
  }

  function Sequences(first: U16, indices: seq<nat>): (r: seq<U16>)
    ensures |r| == |indices|
  {
    seq(|indices|, k requires 0 <= k < |indices| => Wrap16(first + indices[k]))
  }

  function Missing(first: U16, have: seq<bool>): seq<U16> {
    Sequences(first, MissingIndices(have))
  }

  /** One turn of the packing loop; the shift is only defined for the bits a BLP has. */
  function AddSequence(groups: seq<Group>, sequence: U16): (r: seq<Group>)
    ensures r != []
  {
    if groups == [] || Wrap16(sequence - groups[|groups| - 1].pid) > 16 then groups + [Group(sequence, 0)]
    else
      var last := groups[|groups| - 1];
      var bit := Wrap16(sequence - last.pid - 1);
      if bit >= 16 then groups
      else groups[|groups| - 1 := Group(last.pid, Wrap16(SetBit(last.blp, bit)))]
  }

  function Pack(sequences: seq<U16>): seq<Group> {
    if sequences == [] then []
    else AddSequence(Pack(sequences[..|sequences| - 1]), sequences[|sequences| - 1])
  }

  // ---------------------------------------------------------------- what a pair names

  lemma Pow2Table()
    ensures forall i | 0 <= i < 16 ::
      Pow2(i) == [1, 2, 4, 8, 16, 32, 64, 128, 256, 512, 1024, 2048, 4096, 8192, 16384, 32768][i]
  {
    assert Pow2(1) == 2 && Pow2(2) == 4 && Pow2(3) == 8 && Pow2(4) == 16;
    assert Pow2(5) == 32 && Pow2(6) == 64 && Pow2(7) == 128 && Pow2(8) == 256;
    assert Pow2(9) == 512 && Pow2(10) == 1024 && Pow2(11) == 2048 && Pow2(12) == 4096;
    assert Pow2(13) == 8192 && Pow2(14) == 16384 && Pow2(15) == 32768;
  }

  /** Bit `i` of `blp`, counted from the lowest, is set and stands for packet `x`. */
  predicate BitNames(pid: U16, blp: nat, k: nat, i: nat, x: U16) {
    blp / Pow2(i) % 2 == 1 && x == Wrap16(pid + k + i + 1)
  }

  lemma HalfShift(blp: nat, i: nat)
    requires i > 0
    ensures blp / Pow2(i) == blp / 2 / Pow2(i - 1)
  {
    var q := Pow2(i - 1);
    var h := blp / 2;
    assert h == h / q * q + h % q;
    DivideByProduct(blp, q, h / q);
  }

  lemma DivideByProduct(n: nat, q: nat, d: nat)
    requires q > 0 && d * q <= n / 2 < (d + 1) * q
    ensures n / (2 * q) == d
  {
    assert 2 * q * d <= n < 2 * q * (d + 1);
    QuotientIs(n, 2 * q, d);
  }

  lemma QuotientIs(n: nat, m: nat, d: nat)
    requires m > 0 && m * d <= n < m * (d + 1)
    ensures n / m == d
  {
    var e := n / m;
    assert m * e <= n < m * (e + 1);
    CancelLess(m, e, d + 1);
    CancelLess(m, d, e + 1);
  }

  lemma CancelLess(m: nat, a: nat, b: nat)
    requires m * a < m * b
    ensures a < b
  {
    if a >= b {
      MultiplyMonotone(m, b, a);
    }
  }

  lemma MultiplyMonotone(m: nat, a: nat, b: nat)
    requires a <= b
    ensures m * a <= m * b
  {
  }

  lemma {:induction false} BitsNamed(pid: U16, blp: nat, k: nat, x: U16)
    ensures x in BitSequences(pid, blp, k) <==> exists i: nat :: BitNames(pid, blp, k, i, x)
    decreases blp
  {
    hide Wrap16;
    if blp == 0 {
      forall i: nat ensures !BitNames(pid, blp, k, i, x) {
        QuotientIs(0, Pow2(i), 0);
      }
    } else {
      var half, after := blp / 2, k + 1;
      BitsNamed(pid, half, after, x);
      forall i: nat | i > 0 ensures BitNames(pid, blp, k, i, x) <==> BitNames(pid, half, after, i - 1, x) {
        HalfShift(blp, i);
      }
      if i: nat :| BitNames(pid, half, after, i, x) {
        assert BitNames(pid, blp, k, i + 1, x);
      }
      assert Pow2(0) == 1;
      if blp % 2 == 1 && x == Wrap16(pid + k + 1) {
        assert BitNames(pid, blp, k, 0, x);
      }
      if i: nat :| BitNames(pid, blp, k, i, x) {
        assert i == 0 || BitNames(pid, half, after, i - 1, x);
      }
    }
  }

  /** Section 6.2.1 of RFC 4585: the PID itself, and the packet i + 1 after it for every bit i that is set. */
  lemma DecodeMeans(g: Group, x: U16)
    ensures x in DecodeGroup(g) <==> x == g.pid || exists i :: 0 <= i < 16 && BitNames(g.pid, g.blp, 0, i, x)
  {
    hide BitSequences, Wrap16;
    BitsNamed(g.pid, g.blp, 0, x);
    forall i: nat | i >= 16 ensures !BitNames(g.pid, g.blp, 0, i, x) {
      Pow2Grows(16, i);
      Pow2Fits(16);
      QuotientIs(g.blp, Pow2(i), 0);
    }
  }

  /** The positions that open a group. */
  function Leaders(indices: seq<nat>): seq<nat> {
    if indices == [] then []
    else
      AddLeader(Leaders(indices[..|indices| - 1]), indices[|indices| - 1])
  }

  function AddLeader(leaders: seq<nat>, x: nat): seq<nat> {
    if leaders == [] || x > leaders[|leaders| - 1] + 16 then leaders + [x] else leaders
  }

  predicate Ascending(indices: seq<nat>) {
    forall j, k | 0 <= j < k < |indices| :: indices[j] < indices[k]
  }

  /** Every position a 16-bit distance can tell apart. */
  predicate Positions(indices: seq<nat>) {
    Ascending(indices) && forall k | 0 <= k < |indices| :: indices[k] < 0x1_0000
  }

  lemma {:induction false} HighBitDecodesLast(pid: U16, blp: nat, k: nat, bit: nat)
    requires k <= bit && blp < Pow2(bit - k)
    ensures BitSequences(pid, blp + Pow2(bit - k), k) == BitSequences(pid, blp, k) + [Wrap16(pid + bit + 1)]
    decreases bit - k
  {
    if k == bit {
      assert BitSequences(pid, 0, k + 1) == [];
    } else {
      var p := Pow2(bit - k - 1);
      assert (blp + 2 * p) / 2 == blp / 2 + p && (blp + 2 * p) % 2 == blp % 2;
      HighBitDecodesLast(pid, blp / 2, k + 1, bit);
    }
  }

  lemma {:induction false} Pow2Grows(m: nat, n: nat)
    requires m <= n
    ensures Pow2(m) <= Pow2(n)
    decreases n
  {
    if m < n {
      Pow2Grows(m, n - 1);
    }
  }

  lemma Pow2Fits(n: nat)
    requires n <= 16
    ensures Pow2(n) <= Pow2(16) == 0x1_0000
  {
    assert Pow2(16) == 0x1_0000 by {
      assert Pow2(4) == 16;
      assert Pow2(8) == 0x100;
      assert Pow2(12) == 0x1000;
    }
    Pow2Grows(n, 16);
  }

  lemma SmallQuotient(w: nat, p: nat)
    requires w < p
    ensures w / p == 0
  {
  }

  lemma ClearBit(w: nat, bit: nat)
    requires w < Pow2(bit)
    ensures SetBit(w, bit) == w + Pow2(bit)
  {
    hide Pow2;
    SmallQuotient(w, Pow2(bit));
  }

  /** Setting a bit above all bits in use keeps the order of decoding. */
  lemma FreshBit(pid: U16, blp: nat, used: nat, bit: nat)
    requires used <= bit && blp < Pow2(used)
    ensures SetBit(blp, bit) == blp + Pow2(bit) < Pow2(bit + 1)
    ensures BitSequences(pid, SetBit(blp, bit), 0) == BitSequences(pid, blp, 0) + [Wrap16(pid + bit + 1)]
  {
    hide SetBit, TestBit, BitSequences;
    Pow2Grows(used, bit);
    ClearBit(blp, bit);
    HighBitDecodesLast(pid, blp, 0, bit);
  }

  /** What the packing loop keeps: group k opens at leader k, and the last BLP only uses bits already passed. */
  predicate Packed(first: U16, indices: seq<nat>, groups: seq<Group>, leaders: seq<nat>) {
    && |groups| == |leaders|
    && (forall k | 0 <= k < |groups| :: groups[k].pid == Wrap16(first + leaders[k]))
    && (indices == [] <==> leaders == [])
    && (indices != [] ==>
          var at, lead := indices[|indices| - 1], leaders[|leaders| - 1];
          lead <= at <= lead + 16 && groups[|groups| - 1].blp < Pow2(at - lead))
    && Decode(groups) == Sequences(first, indices)
  }

  lemma DecodeLast(groups: seq<Group>, g: Group)
    ensures Decode(groups + [g]) == Decode(groups) + DecodeGroup(g)
  {
    assert (groups + [g])[..|groups|] == groups;
  }

  lemma SequencesLast(first: U16, indices: seq<nat>)
    requires indices != []
    ensures var n := |indices| - 1;
      && Sequences(first, indices) == Sequences(first, indices[..n]) + [Wrap16(first + indices[n])]
      && Sequences(first, indices)[..n] == Sequences(first, indices[..n])
  {
  }

  lemma OpenGroup(first: U16, indices: seq<nat>, x: nat, groups: seq<Group>, leaders: seq<nat>)
    requires Packed(first, indices, groups, leaders)
    ensures Packed(first, indices + [x], groups + [Group(Wrap16(first + x), 0)], leaders + [x])
  {
    hide Decode, Sequences, BitSequences;
    var g := Group(Wrap16(first + x), 0);
    DecodeLast(groups, g);
    DecodeFresh(g.pid);
    SequencesLast(first, indices + [x]);
    assert (indices + [x])[..|indices|] == indices;
  }

  lemma DecodeFresh(pid: U16)
    ensures DecodeGroup(Group(pid, 0)) == [pid] && Pow2(0) == 1
  {
  }

  /** Setting a fresh bit of the last pair appends one sequence number to what the pairs name. */
  lemma DecodeExtended(groups: seq<Group>, used: nat, bit: nat)
    requires groups != [] && used <= bit < 16 && groups[|groups| - 1].blp < Pow2(used)
    ensures var n := |groups| - 1;
      var w := SetBit(groups[n].blp, bit);
      w < Pow2(bit + 1) <= 0x1_0000
      && Decode(groups[n := Group(groups[n].pid, w)]) == Decode(groups) + [Wrap16(groups[n].pid + bit + 1)]
  {
    hide SetBit, BitSequences, Pow2;
    var n := |groups| - 1;
    var last := groups[n];
    FreshBit(last.pid, last.blp, used, bit);
    Pow2Fits(bit + 1);
    var g := Group(last.pid, SetBit(last.blp, bit));
    assert groups == groups[..n] + [last];
    assert groups[n := g] == groups[..n] + [g];
    DecodeLast(groups[..n], last);
    DecodeLast(groups[..n], g);
    var next := Wrap16(last.pid + bit + 1);
    assert DecodeGroup(g) == DecodeGroup(last) + [next];
    assert Decode(groups[..n]) + (DecodeGroup(last) + [next]) == Decode(groups[..n]) + DecodeGroup(last) + [next];
  }

  lemma ExtendGroup(first: U16, indices: seq<nat>, x: nat, groups: seq<Group>, leaders: seq<nat>)
    requires Packed(first, indices, groups, leaders) && indices != []
    requires indices[|indices| - 1] < x <= leaders[|leaders| - 1] + 16
    ensures var n := |groups| - 1;
      var bit := x - leaders[n] - 1;
      bit < 16 && SetBit(groups[n].blp, bit) < 0x1_0000
      && Packed(first, indices + [x], groups[n := Group(groups[n].pid, SetBit(groups[n].blp, bit))], leaders)
  {
    hide SetBit, Pow2, Decode, Sequences;
    var n := |groups| - 1;
    var bit := x - leaders[n] - 1;
    DecodeExtended(groups, indices[|indices| - 1] - leaders[n], bit);
    WrapShift(first + leaders[n], bit + 1);
    SequencesLast(first, indices + [x]);
    assert (indices + [x])[..|indices|] == indices;
  }

  lemma TrueDistance(first: U16, lead: nat, x: nat)
    requires lead <= x < 0x1_0000
    ensures Wrap16(Wrap16(first + x) - Wrap16(first + lead)) == x - lead
    ensures lead < x ==> Wrap16(Wrap16(first + x) - Wrap16(first + lead) - 1) == x - lead - 1
  {
  }

  /** One more missing packet: the wrapped distance is the true one, and the shift stays inside the BLP. */
  lemma AddKeepsPacked(first: U16, indices: seq<nat>, x: nat, groups: seq<Group>, leaders: seq<nat>)
    requires Packed(first, indices, groups, leaders)
    requires x < 0x1_0000 && (indices != [] ==> indices[|indices| - 1] < x)
    ensures groups != [] && Wrap16(Wrap16(first + x) - groups[|groups| - 1].pid) <= 16
      ==> 0 <= Wrap16(Wrap16(first + x) - groups[|groups| - 1].pid - 1) < 16
    ensures Packed(first, indices + [x], AddSequence(groups, Wrap16(first + x)),
                   AddLeader(leaders, x))
  {
    hide SetBit, BitSequences, Decode, Sequences, Leaders, Wrap16, Pow2;
    if groups == [] {
      OpenGroup(first, indices, x, groups, leaders);
    } else {
      var lead := leaders[|leaders| - 1];
      TrueDistance(first, lead, x);
      if x - lead > 16 {
        OpenGroup(first, indices, x, groups, leaders);
      } else {
        ExtendGroup(first, indices, x, groups, leaders);
        WrapNothing(SetBit(groups[|groups| - 1].blp, x - lead - 1));
      }
    }
  }

  lemma PackedNothing(first: U16)
    ensures Packed(first, [], [], [])
    ensures Sequences(first, []) == []
  {
  }

  lemma {:induction false} PackFollowsLeaders(first: U16, indices: seq<nat>)
    requires Positions(indices)
    ensures Packed(first, indices, Pack(Sequences(first, indices)), Leaders(indices))
  {
    hide Packed, AddSequence, Sequences, AddLeader;
    PackedNothing(first);
    if indices != [] {
      var n := |indices| - 1;
      PackFollowsLeaders(first, indices[..n]);
      SequencesLast(first, indices);
      AddKeepsPacked(first, indices[..n], indices[n], Pack(Sequences(first, indices[..n])), Leaders(indices[..n]));
      assert indices[..n] + [indices[n]] == indices;
    }
  }

  /** The feedback names exactly the missing packets, each once and in order, across 65535 to 0 as well. */
  lemma PackExact(first: U16, have: seq<bool>)
    requires |have| <= 0x1_0000
    ensures Decode(Pack(Missing(first, have))) == Missing(first, have)
  {
    PackFollowsLeaders(first, MissingIndices(have));
  }

  lemma {:induction false} MissingIndicesComplete(have: seq<bool>, i: nat)
    requires i < |have| && !have[i]
    ensures i in MissingIndices(have)
  {
    var n := |have| - 1;
    if i < n {
      MissingIndicesComplete(have[..n], i);
    }
  }

  /** No two entries of the list name the same packet. */
  lemma MissingDistinct(first: U16, have: seq<bool>, j: nat, k: nat)
    requires |have| <= 0x1_0000 && j < k < |MissingIndices(have)|
    ensures Missing(first, have)[j] != Missing(first, have)[k]
  {
    var a, b := MissingIndices(have)[j], MissingIndices(have)[k];
    assert Wrap16(Wrap16(first + b) - Wrap16(first + a)) == b - a;
  }

  lemma {:induction false} LeadersSpread(indices: seq<nat>)
    requires Ascending(indices)
    ensures Spread(Leaders(indices), indices)
  {
    hide Leaders, Spread;
    if indices == [] {
      NoLeaders();
    } else {
      var n := |indices| - 1;
      LeadersSpread(indices[..n]);
      LeaderAdded(indices, Leaders(indices[..n]));
      LeadersStep(indices);
    }
  }

  lemma NoLeaders()
    ensures Leaders([]) == [] && Spread([], [])
  {
  }

  lemma LeadersStep(indices: seq<nat>)
    requires indices != []
    ensures Leaders(indices) == AddLeader(Leaders(indices[..|indices| - 1]), indices[|indices| - 1])
  {
    hide AddLeader;
  }

  /** Leaders of a shorter list and one more far enough away. */
  lemma LeaderAdded(indices: seq<nat>, front: seq<nat>)
    requires Ascending(indices) && indices != []
    requires Spread(front, indices[..|indices| - 1])
    ensures Spread(AddLeader(front, indices[|indices| - 1]), indices)
  {
  }

  predicate Spread(l: seq<nat>, indices: seq<nat>) {
    && (forall j, k | 0 <= j < k < |l| :: l[j] + 17 <= l[k])
    && (forall k | 0 <= k < |l| :: l[k] in indices)
    && (l == [] || l[|l| - 1] >= 17 * (|l| - 1))
    && (l == [] || (indices != [] && l[|l| - 1] <= indices[|indices| - 1]))
  }

  /** At most one pair for every 17 packets of the frame. */
  lemma PackSize(first: U16, have: seq<bool>)
    requires |have| <= 0x1_0000
    ensures |Pack(Missing(first, have))| <= (|have| + 16) / 17
  {
    PackFollowsLeaders(first, MissingIndices(have));
    LeadersSpread(MissingIndices(have));
  }

  ghost predicate Covers(pairs: set<Group>, sequences: seq<U16>) {
    forall s | s in sequences :: exists p :: p in pairs && s in DecodeGroup(p)
  }

  lemma {:induction false} BitSequencesNear(pid: U16, blp: nat, k: nat, s: U16)
    requires k <= 16 && blp < Pow2(16 - k) && s in BitSequences(pid, blp, k)
    ensures Wrap16(s - pid) <= 16
    decreases blp
  {
    if blp % 2 == 1 && s == Wrap16(pid + k + 1) {
      StepAhead(pid, k + 1);
    } else {
      BitSequencesNear(pid, blp / 2, k + 1, s);
    }
  }

  lemma StepAhead(pid: U16, k: nat)
    requires k <= 16
    ensures Wrap16(Wrap16(pid + k) - pid) == k
  {
  }

  lemma DecodedNear(g: Group, s: U16)
    requires s in DecodeGroup(g)
    ensures Wrap16(s - g.pid) <= 16
  {
    if s != g.pid {
      Pow2Fits(16);
      BitSequencesNear(g.pid, g.blp, 0, s);
    }
  }

  lemma FarApart(x: int, y: int, pid: int)
    requires x + 17 <= y < x + 65520
    ensures Wrap16(x - pid) > 16 || Wrap16(y - pid) > 16
  {
  }

  /** No pair names two leaders, as long as the frame is too short for its end to meet its start. */
  lemma OneLeaderPerPair(first: U16, a: nat, b: nat, g: Group)
    requires a + 17 <= b < 65520
    requires Wrap16(first + a) in DecodeGroup(g)
    ensures Wrap16(first + b) !in DecodeGroup(g)
  {
    hide DecodeGroup;
    if Wrap16(first + b) in DecodeGroup(g) {
      DecodedNear(g, Wrap16(first + a));
      DecodedNear(g, Wrap16(first + b));
      WrapDifference(first as int + a, -(g.pid as int));
      WrapDifference(first as int + b, -(g.pid as int));
      FarApart(first as int + a, first as int + b, g.pid as int);
      assert false;
    }
  }

  lemma {:induction false} LeadersNeedPairs(first: U16, leaders: seq<nat>, pairs: set<Group>)
    requires forall j, k | 0 <= j < k < |leaders| :: leaders[j] + 17 <= leaders[k]
    requires forall k | 0 <= k < |leaders| :: leaders[k] < 65520
    requires Covers(pairs, Sequences(first, leaders))
    ensures |leaders| <= |pairs|
  {
    hide Covers, DecodeGroup, Sequences;
    if leaders != [] {
      var n := |leaders| - 1;
      var p := CoversRest(first, leaders, pairs);
      LeadersNeedPairs(first, leaders[..n], pairs - {p});
    }
  }

  /** Without the pair that names the last leader, the others still name the leaders before it. */
  lemma CoversRest(first: U16, leaders: seq<nat>, pairs: set<Group>) returns (p: Group)
    requires leaders != []
    requires forall j, k | 0 <= j < k < |leaders| :: leaders[j] + 17 <= leaders[k]
    requires forall k | 0 <= k < |leaders| :: leaders[k] < 65520
    requires Covers(pairs, Sequences(first, leaders))
    ensures p in pairs && Covers(pairs - {p}, Sequences(first, leaders[..|leaders| - 1]))
  {
    hide DecodeGroup;
    var n := |leaders| - 1;
    var s, front := Sequences(first, leaders), Sequences(first, leaders[..n]);
    assert s[n] in s;
    p :| p in pairs && s[n] in DecodeGroup(p);
    forall x | x in front ensures exists q :: q in pairs - {p} && x in DecodeGroup(q) {
      var k :| 0 <= k < n && x == front[k];
      assert s[k] == x && s[k] in s;
      var q :| q in pairs && x in DecodeGroup(q);
      if x in DecodeGroup(p) {
        OneLeaderPerPair(first, leaders[k], leaders[n], p);
      }
      assert q in pairs - {p};
    }
  }

  lemma CoversFewer(first: U16, leaders: seq<nat>, indices: seq<nat>, pairs: set<Group>)
    requires forall k | 0 <= k < |leaders| :: leaders[k] in indices
    requires Covers(pairs, Sequences(first, indices))
    ensures Covers(pairs, Sequences(first, leaders))
  {
    hide DecodeGroup;
    forall s | s in Sequences(first, leaders) ensures s in Sequences(first, indices) {
      var k :| 0 <= k < |leaders| && s == Sequences(first, leaders)[k];
      var i :| 0 <= i < |indices| && indices[i] == leaders[k];
      assert Sequences(first, indices)[i] == s;
    }
  }

  /** Greedy packing is optimal: no set of pairs that names all missing packets is smaller. */
  lemma PackOptimal(first: U16, have: seq<bool>, pairs: set<Group>)
    requires |have| <= 65520
    requires Covers(pairs, Missing(first, have))
    ensures |Pack(Missing(first, have))| <= |pairs|
  {
    hide Pack, Leaders, Decode, DecodeGroup, MissingIndices, Sequences, Covers;
    var indices := MissingIndices(have);
    var leaders := Leaders(indices);
    PackFollowsLeaders(first, indices);
    LeadersSpread(indices);
    CoversFewer(first, leaders, indices, pairs);
    LeadersNeedPairs(first, leaders, pairs);
  }

  ghost predicate OptimalFor(n: nat) {
    forall first: U16, have: seq<bool>, pairs: set<Group> | |have| == n && Covers(pairs, Missing(first, have)) ::
      |Pack(Missing(first, have))| <= |pairs|
  }

  lemma Beaten(n: nat, first: U16, have: seq<bool>, pairs: set<Group>)
    requires |have| == n && Covers(pairs, Missing(first, have)) && |pairs| < |Pack(Missing(first, have))|
    ensures !OptimalFor(n)
  {
  }

  lemma PackFarPair(x: U16)
    requires x > 16
    ensures Pack([0, x]) == [Group(0, 0), Group(x, 0)]
  {
    assert [0, x][..1] == [0];
    assert Pack([0]) == [Group(0, 0)];
  }

  /** A longer frame that lacks just its first and last packet: one pair reaches both, across the end of the frame. */
  lemma EndsMeet(n: nat)
    requires 65520 < n < 0x1_0000
    ensures !OptimalFor(n)
  {
    hide Pack, MissingIndices, SetBit, Pow2, BitSequences, OptimalFor;
    var inner := [false] + seq(n - 2, _ => true);
    var have := inner + [false];
    OnlyEndsMissing(n);
    assert Missing(0, have) == [0, n - 1];
    PackFarPair(n - 1);
    var bit := 0x1_0000 - n;
    Pow2Positive(bit);
    FreshBit(n - 1, 0, 0, bit);
    Pow2Fits(bit + 1);
    var g := Group(n - 1, SetBit(0, bit));
    assert DecodeGroup(g) == [n - 1] + (BitSequences(n - 1, 0, 0) + [0]);
    assert g in {g};
    Beaten(n, 0, have, {g});
  }

  lemma Pow2Positive(bit: nat)
    ensures Pow2(0) == 1 && Pow2(bit) >= 1
  {
  }

  lemma OnlyEndsMissing(n: nat)
    requires n >= 2
    ensures MissingIndices([false] + seq(n - 2, _ => true) + [false]) == [0, n - 1]
  {
    var inner := [false] + seq(n - 2, _ => true);
    OnlyFirstMissing(n - 2);
    assert (inner + [false])[..n - 1] == inner;
  }

  lemma {:induction false} OnlyFirstMissing(n: nat)
    ensures MissingIndices([false] + seq(n, _ => true)) == [0]
  {
    var have := [false] + seq(n, _ => true);
    if n == 0 {
      assert have[..0] == [];
    } else {
      OnlyFirstMissing(n - 1);
      assert have[..n] == [false] + seq(n - 1, _ => true);
    }
  }

  /** The exact frame lengths for which the packing is always minimal. */
  lemma OptimalExactly(n: nat)
    requires n < 0x1_0000
    ensures OptimalFor(n) <==> n <= 65520
  {
    if n <= 65520 {
      forall first: U16, have: seq<bool>, pairs: set<Group> | |have| == n && Covers(pairs, Missing(first, have))
        ensures |Pack(Missing(first, have))| <= |pairs|
      {
        PackOptimal(first, have, pairs);
      }
    } else {
      EndsMeet(n);
    }
  }

  method MissingSequences(first: U16, have: seq<bool>) returns (missing: seq<U16>)
    requires |have| < 0x1_0000
    ensures missing == Missing(first, have)
  {
    hide Missing;
    missing := [];
    NothingMissing(first);
    for i := 0 to |have|
      invariant missing == Missing(first, have[..i])
    {
      MissingNext(first, have, i);
      if !have[i] {
        missing := missing + [Wrap16(first + i)];
      }
    }
    assert have[..|have|] == have;
  }

  lemma NothingMissing(first: U16)
    ensures Missing(first, []) == []
  {
  }

  lemma MissingNext(first: U16, have: seq<bool>, i: nat)
    requires i < |have|
    ensures Missing(first, have[..i + 1]) == Missing(first, have[..i]) + if have[i] then [] else [Wrap16(first + i)]
  {
    hide Sequences;
    assert have[..i + 1][..i] == have[..i];
    var before := MissingIndices(have[..i]);
    SequencesLast(first, before + [i]);
    assert (before + [i])[..|before|] == before;
    assert MissingIndices(have[..i + 1]) == before + if have[i] then [] else [i];
    assert before + [] == before;
    assert Sequences(first, before) + [] == Sequences(first, before);
  }

  /** The packing loop; `indices` are the positions the sequence numbers stand for. */
  method PackSequences(missing: seq<U16>, ghost first: U16, ghost indices: seq<nat>) returns (groups: seq<Group>)
    requires Positions(indices) && missing == Sequences(first, indices)
    ensures groups == Pack(missing)
  {
    hide Packed, Decode, Leaders, SetBit, Sequences;
    groups := [];
    for i := 0 to |missing|
      invariant groups == Pack(missing[..i])
    {
      var sequence := missing[i];
      assert missing[..i + 1][..i] == missing[..i];
      BitInRange(first, indices, i, groups);
      if groups == [] || Wrap16(sequence - groups[|groups| - 1].pid) > 16 {
        groups := groups + [Group(sequence, 0)];
      } else {
        var last := groups[|groups| - 1];
        var bit := Wrap16(sequence - last.pid - 1);
        assert bit < 16;
        groups := groups[|groups| - 1 := Group(last.pid, Wrap16(SetBit(last.blp, bit)))];
      }
    }
    assert missing[..|missing|] == missing;
  }

  /** In every turn of the loop the shift distance is a bit of the BLP. */
  lemma BitInRange(first: U16, indices: seq<nat>, i: nat, groups: seq<Group>)
    requires Positions(indices) && i < |indices|
    requires groups == Pack(Sequences(first, indices)[..i])
    ensures var sequence := Sequences(first, indices)[i];
      groups != [] && Wrap16(sequence - groups[|groups| - 1].pid) <= 16
      ==> 0 <= Wrap16(sequence - groups[|groups| - 1].pid - 1) < 16
  {
    hide Pack, Packed, Leaders;
    assert Sequences(first, indices)[..i] == Sequences(first, indices[..i]);
    PackFollowsLeaders(first, indices[..i]);
    AddKeepsPacked(first, indices[..i], indices[i], groups, Leaders(indices[..i]));
  }

  /** What `send_nack` puts into the message; `None` when nothing is missing. */
  method BuildNack(first: U16, have: seq<bool>) returns (nack: Option<seq<Group>>)
    requires |have| < 0x1_0000
    ensures nack == if Missing(first, have) == [] then None else Some(Pack(Missing(first, have)))
  {
    var missing := MissingSequences(first, have);
    if missing == [] {
      return None;
    }
    var groups := PackSequences(missing, first, MissingIndices(have));
    return Some(groups);
  }
}

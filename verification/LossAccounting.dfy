/** Loss from gaps in 16-bit sequence numbers, against the true numbers before wrapping. */
module LossAccounting {
  import opened Words

  datatype LossSample = LossSample(expected: nat, lost: nat)

  /** What one arrival contributes; an arrival behind the highest contributes nothing. */
  function Contribution(last: Option<U16>, sequence: U16): LossSample {
    if last.None? then LossSample(1, 0)
    else
      var delta := Signed16(Wrap16(sequence - last.value));
      if delta > 0 then LossSample(delta, delta - 1) else LossSample(0, 0)
  }

  function LastAfter(arrivals: seq<U16>): Option<U16> {
    if arrivals == [] then None
    else
      var n := |arrivals| - 1;
      var last := LastAfter(arrivals[..n]);
      if Contribution(last, arrivals[n]).expected > 0 then Some(arrivals[n]) else last
  }

  function Samples(arrivals: seq<U16>): seq<LossSample> {
    if arrivals == [] then []
    else
      var n := |arrivals| - 1;
      var c := Contribution(LastAfter(arrivals[..n]), arrivals[n]);
      Samples(arrivals[..n]) + if c.expected > 0 then [c] else []
  }

  function Expected(samples: seq<LossSample>): nat {
    if samples == [] then 0 else Expected(samples[..|samples| - 1]) + samples[|samples| - 1].expected
  }

  function Lost(samples: seq<LossSample>): nat {
    if samples == [] then 0 else Lost(samples[..|samples| - 1]) + samples[|samples| - 1].lost
  }

  /** Each sample stands for one packet that arrived. */
  predicate OneEach(samples: seq<LossSample>) {
    forall i | 0 <= i < |samples| :: samples[i].expected == samples[i].lost + 1
  }

  function Highest(xs: seq<int>): int
    requires xs != []
  {
    if |xs| == 1 then xs[0]
    else
      var h := Highest(xs[..|xs| - 1]);
      if xs[|xs| - 1] > h then xs[|xs| - 1] else h
  }

  /** True numbers that wrap to the arrivals, none more than 2^15 away from the highest before it. */
  predicate Unwraps(xs: seq<int>, arrivals: seq<U16>) {
    && |xs| == |arrivals|
    && (forall i | 0 <= i < |xs| :: Wrap16(xs[i]) == arrivals[i])
    && forall i | 0 < i < |xs| :: -0x8000 <= xs[i] - Highest(xs[..i]) < 0x8000
  }

  lemma UnwrapsPrefix(xs: seq<int>, arrivals: seq<U16>, n: nat)
    requires Unwraps(xs, arrivals) && n <= |xs|
    ensures Unwraps(xs[..n], arrivals[..n])
  {
    forall i | 0 < i < n ensures -0x8000 <= xs[..n][i] - Highest(xs[..n][..i]) < 0x8000 {
      assert xs[..n][..i] == xs[..i];
    }
  }

  /** One arrival whose true number is within reach of the highest so far. */
  lemma Reached(h: int, x: int)
    requires -0x8000 <= x - h < 0x8000
    ensures Contribution(Some(Wrap16(h)), Wrap16(x)) == if x > h then LossSample(x - h, x - h - 1) else LossSample(0, 0)
  {
    SignedDifference(x, h);
  }

  lemma SamplesStep(arrivals: seq<U16>)
    requires arrivals != []
    ensures var n := |arrivals| - 1;
      var c := Contribution(LastAfter(arrivals[..n]), arrivals[n]);
      && LastAfter(arrivals) == (if c.expected > 0 then Some(arrivals[n]) else LastAfter(arrivals[..n]))
      && |Samples(arrivals)| == |Samples(arrivals[..n])| + (if c.expected > 0 then 1 else 0)
      && Expected(Samples(arrivals)) == Expected(Samples(arrivals[..n])) + c.expected
      && Lost(Samples(arrivals)) == Lost(Samples(arrivals[..n])) + c.lost
  {
    hide Contribution;
    var n := |arrivals| - 1;
    var front := Samples(arrivals[..n]);
    var c := Contribution(LastAfter(arrivals[..n]), arrivals[n]);
    assert (front + [c])[..|front|] == front;
    NothingLost(LastAfter(arrivals[..n]), arrivals[n]);
    assert front + [] == front;
  }

  lemma NothingLost(last: Option<U16>, sequence: U16)
    ensures var c := Contribution(last, sequence); c.expected == 0 ==> c.lost == 0
  {
  }

  /**
   * Conservation: over any arrivals the expected counts add up to the span of the true numbers, from the first to the
   * highest, and every packet expected is either lost or one of the samples.
   */
  lemma {:induction false} Conservation(xs: seq<int>, arrivals: seq<U16>)
    requires Unwraps(xs, arrivals) && xs != []
    ensures LastAfter(arrivals) == Some(Wrap16(Highest(xs)))
    ensures Expected(Samples(arrivals)) == 1 + Highest(xs) - xs[0]
    ensures Expected(Samples(arrivals)) == Lost(Samples(arrivals)) + |Samples(arrivals)|
    ensures Highest(xs) >= xs[0]
  {
    hide Samples, LastAfter, Expected, Lost, Contribution;
    var n := |xs| - 1;
    UnwrapsPrefix(xs, arrivals, n);
    SamplesStep(arrivals);
    if n == 0 {
      FirstArrival(arrivals[0]);
      assert arrivals[..0] == [];
    } else {
      Conservation(xs[..n], arrivals[..n]);
      Reached(Highest(xs[..n]), xs[n]);
    }
  }

  /** Number `x` once came in ahead of everything before it. */
  predicate Record(xs: seq<int>, x: int) {
    exists i :: 0 < i < |xs| && xs[i] == x && x > Highest(xs[..i])
  }

  function Records(xs: seq<int>): set<int> {
    set x | x in xs && Record(xs, x)
  }

  /** The numbers after the first one that came in, but only behind the highest of their time. */
  function Late(xs: seq<int>): set<int>
    requires xs != []
  {
    set x | x in xs && x > xs[0] && !Record(xs, x)
  }

  /** The numbers between the first and the highest that never came in. */
  function Missing(xs: seq<int>): set<int>
    requires xs != []
  {
    set x | xs[0] < x < Highest(xs) && x !in xs
  }

  lemma RecordsNext(xs: seq<int>)
    requires |xs| > 1
    ensures var n := |xs| - 1;
      && Records(xs) == Records(xs[..n]) + (if xs[n] > Highest(xs[..n]) then {xs[n]} else {})
      && (xs[n] > Highest(xs[..n]) ==> xs[n] !in Records(xs[..n]))
  {
    hide Highest;
    var n := |xs| - 1;
    var front := xs[..n];
    Bounds(front);
    assert forall i | 0 < i < n :: front[..i] == xs[..i];
    forall x | x in Records(front) ensures Record(xs, x) {
      var i :| 0 < i < n && front[i] == x && x > Highest(front[..i]);
      assert xs[i] == x && x > Highest(xs[..i]);
    }
    forall x | x in Records(xs) ensures x in Records(front) || (x == xs[n] && x > Highest(front)) {
      var i :| 0 < i < |xs| && xs[i] == x && x > Highest(xs[..i]);
      if i < n {
        assert front[i] == x && x > Highest(front[..i]);
      }
    }
  }

  lemma {:induction false} OneSampleEach(xs: seq<int>, arrivals: seq<U16>)
    requires Unwraps(xs, arrivals) && xs != []
    ensures |Samples(arrivals)| == 1 + |Records(xs)|
  {
    hide Samples, LastAfter, Expected, Lost, Contribution, Highest, Records;
    var n := |xs| - 1;
    UnwrapsPrefix(xs, arrivals, n);
    SamplesStep(arrivals);
    if n == 0 {
      FirstArrival(arrivals[0]);
      assert arrivals[..0] == [];
      NoRecord(xs);
    } else {
      OneSampleEach(xs[..n], arrivals[..n]);
      Conservation(xs[..n], arrivals[..n]);
      Reached(Highest(xs[..n]), xs[n]);
      RecordsNext(xs);
    }
  }

  lemma NoRecord(xs: seq<int>)
    requires |xs| == 1
    ensures Records(xs) == {}
  {
  }

  function Between(low: int, high: int): set<int> {
    set x {:trigger x in Between(low, high)} | low < x <= high
  }

  lemma {:induction false} BetweenSize(low: int, high: int)
    requires low <= high
    ensures |Between(low, high)| == high - low
    decreases high - low
  {
    if low == high {
      assert Between(low, high) == {};
    } else {
      BetweenSize(low, high - 1);
      assert Between(low, high) == Between(low, high - 1) + {high};
    }
  }

  lemma RangeSplits(xs: seq<int>)
    requires xs != []
    ensures Between(xs[0], Highest(xs)) == Missing(xs) + Late(xs) + Records(xs)
    ensures Missing(xs) !! Late(xs) && (Missing(xs) + Late(xs)) !! Records(xs)
  {
    hide Highest;
    Bounds(xs);
    forall x | x in Records(xs) ensures x in Between(xs[0], Highest(xs)) {
      var i :| 0 < i < |xs| && xs[i] == x && x > Highest(xs[..i]);
      Bounds(xs[..i]);
      assert xs[..i][0] == xs[0] && xs[..i][0] in xs[..i];
      assert x in xs;
    }
    forall x | x in Between(xs[0], Highest(xs)) ensures x in Missing(xs) + Late(xs) + Records(xs) {
      if x in xs && Record(xs, x) {
        assert x in Records(xs);
      }
    }
  }

  /**
   * What is counted as lost: the numbers that never came in and, besides, those that came in late, as an arrival behind
   * the highest takes nothing back. So the count is true exactly if no number is late.
   */
  lemma LostIsMissingAndLate(xs: seq<int>, arrivals: seq<U16>)
    requires Unwraps(xs, arrivals) && xs != []
    ensures Lost(Samples(arrivals)) == |Missing(xs)| + |Late(xs)|
    ensures Lost(Samples(arrivals)) == |Missing(xs)| <==> Late(xs) == {}
  {
    hide Samples, Lost, Expected, Highest, Records, Late, Missing, Unwraps;
    Conservation(xs, arrivals);
    OneSampleEach(xs, arrivals);
    RangeSplits(xs);
    BetweenSize(xs[0], Highest(xs));
  }

  lemma FirstArrival(sequence: U16)
    ensures LastAfter([]) == None && Samples([]) == [] && Expected([]) == 0 && Lost([]) == 0
    ensures Contribution(None, sequence) == LossSample(1, 0)
  {
  }

  /** Such true numbers exist for every list of arrivals. */
  lemma {:induction false} Unwrapped(arrivals: seq<U16>) returns (xs: seq<int>)
    ensures Unwraps(xs, arrivals)
  {
    hide Unwraps, Highest;
    var n := |arrivals| - 1;
    if n <= 0 {
      xs := if arrivals == [] then [] else [arrivals[0] as int];
      UnwrapsShort(arrivals);
    } else {
      var front := Unwrapped(arrivals[..n]);
      UnwrapsLength(front, arrivals[..n]);
      var h := Highest(front);
      var d := Signed16(Wrap16(arrivals[n] as int - Wrap16(h) as int));
      xs := front + [h + d];
      ShiftedWrap(h, arrivals[n]);
      UnwrapsNext(front, arrivals, h + d);
    }
  }

  lemma UnwrapsShort(arrivals: seq<U16>)
    requires |arrivals| <= 1
    ensures Unwraps(if arrivals == [] then [] else [arrivals[0] as int], arrivals)
  {
  }

  lemma UnwrapsLength(xs: seq<int>, arrivals: seq<U16>)
    requires Unwraps(xs, arrivals)
    ensures |xs| == |arrivals|
  {
  }

  lemma UnwrapsNext(front: seq<int>, arrivals: seq<U16>, x: int)
    requires front != [] && |arrivals| == |front| + 1 && Unwraps(front, arrivals[..|front|])
    requires Wrap16(x) == arrivals[|front|] && -0x8000 <= x - Highest(front) < 0x8000
    ensures Unwraps(front + [x], arrivals)
  {
    hide Wrap16, Highest;
    var xs := front + [x];
    assert xs[..|front|] == front;
    forall i | 0 < i < |front| ensures xs[..i] == front[..i] {
    }
  }

  lemma ShiftedWrap(h: int, w: U16)
    ensures var d := Signed16(Wrap16(w as int - Wrap16(h) as int)); Wrap16(h + d) == w && -0x8000 <= d < 0x8000
  {
  }

  lemma {:induction false} SamplesOneEach(arrivals: seq<U16>)
    ensures OneEach(Samples(arrivals))
  {
    if arrivals != [] {
      SamplesOneEach(arrivals[..|arrivals| - 1]);
    }
  }

  /** In any window of samples, expected less lost is the number of samples. */
  lemma {:induction false} WindowBalance(samples: seq<LossSample>)
    requires OneEach(samples)
    ensures Expected(samples) == Lost(samples) + |samples|
  {
    if samples != [] {
      WindowBalance(samples[..|samples| - 1]);
    }
  }

  function Percent(lost: nat, expected: nat): real {
    if expected == 0 then 0.0 else lost as real * 100.0 / expected as real
  }

  lemma PercentRange(lost: nat, expected: nat)
    requires lost < expected || expected == 0
    ensures 0.0 <= Percent(lost, expected) < 100.0
  {
    if expected > 0 {
      var l, e := lost as real, expected as real;
      assert l * 100.0 < 100.0 * e;
      assert Percent(lost, expected) * e == l * 100.0;
    }
  }

  /** So the loss reported for a window is at least 0 and below 100 percent. */
  lemma WindowLossRange(samples: seq<LossSample>)
    requires OneEach(samples)
    ensures 0.0 <= Percent(Lost(samples), Expected(samples)) < 100.0
  {
    WindowBalance(samples);
    PercentRange(Lost(samples), Expected(samples));
  }

  /** The accumulation loops of `transport_loss_report` and `local_transport_loss_percent`. */
  method Totals(samples: seq<LossSample>) returns (expected: nat, lost: nat)
    ensures expected == Expected(samples) && lost == Lost(samples)
  {
    expected, lost := 0, 0;
    for i := 0 to |samples|
      invariant expected == Expected(samples[..i]) && lost == Lost(samples[..i])
    {
      assert samples[..i + 1][..i] == samples[..i];
      expected := expected + samples[i].expected;
      lost := lost + samples[i].lost;
    }
    assert samples[..|samples|] == samples;
  }

  // ---------------------------------------------------------------- local_loss_percent

  function Lowest(xs: seq<int>): int
    requires xs != []
  {
    if |xs| == 1 then xs[0]
    else
      var l := Lowest(xs[..|xs| - 1]);
      if xs[|xs| - 1] < l then xs[|xs| - 1] else l
  }

  function Distinct(sequences: seq<U16>): set<U16> {
    set s | s in sequences
  }

  /** Loss over the raw 16-bit numbers in the window; wrap-around is not allowed for. */
  function RawLoss(sequences: seq<U16>): real {
    if |sequences| < 2 then 0.0
    else
      var expected := Highest(sequences) - Lowest(sequences) + 1;
      if expected == 0 || |Distinct(sequences)| > expected then 0.0
      else (expected - |Distinct(sequences)|) as real * 100.0 / expected as real
  }

  lemma {:induction false} Bounds(xs: seq<int>)
    requires xs != []
    ensures Highest(xs) in xs && Lowest(xs) in xs && forall x | x in xs :: Lowest(xs) <= x <= Highest(xs)
  {
    if |xs| > 1 {
      Bounds(xs[..|xs| - 1]);
      assert xs == xs[..|xs| - 1] + [xs[|xs| - 1]];
    }
  }

  lemma NoneSeen(sequences: seq<U16>)
    ensures Distinct(sequences[..0]) == {}
  {
  }

  lemma SeenNext(sequences: seq<U16>, i: nat)
    requires i < |sequences|
    ensures var x, front, next := sequences[i], sequences[..i], sequences[..i + 1];
      && Highest(next) == (if i > 0 && Highest(front) > x then Highest(front) else x)
      && Lowest(next) == (if i > 0 && Lowest(front) < x then Lowest(front) else x)
      && Distinct(next) == Distinct(front) + {x}
  {
    assert sequences[..i + 1][..i] == sequences[..i];
    assert sequences[..i + 1] == sequences[..i] + [sequences[i]];
  }

  method LocalLossPercent(sequences: seq<U16>) returns (percent: real)
    ensures percent == RawLoss(sequences)
  {
    hide Highest, Lowest, Distinct;
    if |sequences| < 2 {
      return 0.0;
    }
    var low: int, high: int := sequences[0], sequences[0];
    var received: set<U16> := {};
    NoneSeen(sequences);
    for i := 0 to |sequences|
      invariant i > 0 ==> low == Lowest(sequences[..i]) && high == Highest(sequences[..i])
      invariant i == 0 ==> low == high == sequences[0]
      invariant received == Distinct(sequences[..i])
    {
      SeenNext(sequences, i);
      if sequences[i] < low {
        low := sequences[i];
      }
      if sequences[i] > high {
        high := sequences[i];
      }
      received := received + {sequences[i]};
    }
    assert sequences[..|sequences|] == sequences;
    var expected := high - low + 1;
    if expected == 0 || |received| > expected {
      return 0.0;
    }
    var lost := expected - |received|;
    return lost as real * 100.0 / expected as real;
  }

  /** The true loss among arrivals with true numbers `xs`: what is missing between the lowest and the highest. */
  function TrueLoss(xs: seq<int>): real
    requires xs != []
  {
    var expected := Highest(xs) - Lowest(xs) + 1;
    Bounds(xs);
    (expected - |Numbers(xs)|) as real * 100.0 / expected as real
  }

  /** All numbers lie in one block of 2^16, so no wrap falls inside the window. */
  predicate OneBlock(xs: seq<int>)
    requires xs != []
  {
    Lowest(xs) / 0x1_0000 == Highest(xs) / 0x1_0000
  }

  function Wrapped(xs: seq<int>): (r: seq<U16>)
    ensures |r| == |xs|
  {
    seq(|xs|, i requires 0 <= i < |xs| => Wrap16(xs[i]))
  }

  function Numbers(xs: seq<int>): set<int> {
    set x | x in xs
  }

  lemma OneMore(xs: seq<int>, x: int)
    ensures Numbers(xs + [x]) == Numbers(xs) + {x}
    ensures Distinct(Wrapped(xs + [x])) == Distinct(Wrapped(xs)) + {Wrap16(x)}
  {
    hide Wrap16;
    assert Wrapped(xs + [x]) == Wrapped(xs) + [Wrap16(x)];
  }

  lemma GrowsBy<T>(s: set<T>, x: T)
    ensures |s + {x}| == |s| + if x in s then 0 else 1
  {
    if x in s {
      assert s + {x} == s;
    }
  }

  /** Numbers closer together than 2^16 wrap to as many different 16-bit numbers. */
  lemma {:induction false} SameMany(xs: seq<int>, low: int)
    requires forall x | x in xs :: low <= x < low + 0x1_0000
    ensures |Distinct(Wrapped(xs))| == |Numbers(xs)|
  {
    if xs == [] {
      assert Distinct(Wrapped(xs)) == {};
      assert Numbers(xs) == {};
    } else {
      hide Numbers, Distinct, Wrapped, Wrap16;
      var n := |xs| - 1;
      var front, last := xs[..n], xs[n];
      assert xs == front + [last];
      assert forall x | x in front :: x in xs;
      SameMany(front, low);
      OneMore(front, last);
      SameMember(front, last, low);
      InNumbers(front, last);
      GrowsBy(Numbers(front), last);
      GrowsBy(Distinct(Wrapped(front)), Wrap16(last));
    }
  }

  lemma InNumbers(xs: seq<int>, x: int)
    ensures x in Numbers(xs) <==> x in xs
  {
  }

  lemma SameMember(xs: seq<int>, x: int, low: int)
    requires low <= x < low + 0x1_0000 && forall y | y in xs :: low <= y < low + 0x1_0000
    ensures Wrap16(x) in Distinct(Wrapped(xs)) <==> x in xs
  {
    if Wrap16(x) in Distinct(Wrapped(xs)) {
      var k :| 0 <= k < |xs| && Wrapped(xs)[k] == Wrap16(x);
      assert xs[k] in xs;
      SameNumber(xs[k], x, low);
    }
    if x in xs {
      var k :| 0 <= k < |xs| && xs[k] == x;
      assert Wrapped(xs)[k] in Wrapped(xs);
    }
  }

  lemma SameNumber(x: int, y: int, low: int)
    requires low <= x < low + 0x1_0000 && low <= y < low + 0x1_0000 && Wrap16(x) == Wrap16(y)
    ensures x == y
  {
  }

  /** Inside one block the raw extremes are the wrapped true ones. */
  lemma BlockSpan(xs: seq<int>)
    requires xs != [] && OneBlock(xs)
    ensures Highest(Wrapped(xs)) - Lowest(Wrapped(xs)) == Highest(xs) - Lowest(xs)
  {
    hide Highest, Lowest;
    Bounds(xs);
    Bounds(Wrapped(xs));
    var block := Lowest(xs) / 0x1_0000 * 0x1_0000;
    forall x | x in xs ensures Wrap16(x) == x - block {
    }
    var h :| 0 <= h < |xs| && xs[h] == Highest(xs);
    var l :| 0 <= l < |xs| && xs[l] == Lowest(xs);
    assert Wrapped(xs)[h] in Wrapped(xs) && Wrapped(xs)[l] in Wrapped(xs);
    var h' :| 0 <= h' < |xs| && Wrapped(xs)[h'] == Highest(Wrapped(xs));
    var l' :| 0 <= l' < |xs| && Wrapped(xs)[l'] == Lowest(Wrapped(xs));
    assert xs[h'] in xs && xs[l'] in xs;
  }

  /** Across a wrap the raw extremes are too far apart. */
  lemma WrapSpan(xs: seq<int>)
    requires xs != [] && !OneBlock(xs) && Highest(xs) - Lowest(xs) < 0x8000
    ensures Highest(Wrapped(xs)) - Lowest(Wrapped(xs)) > Highest(xs) - Lowest(xs)
  {
    Bounds(xs);
    Bounds(Wrapped(xs));
    var h :| 0 <= h < |xs| && xs[h] == Highest(xs);
    var l :| 0 <= l < |xs| && xs[l] == Lowest(xs);
    assert Wrapped(xs)[h] in Wrapped(xs) && Wrapped(xs)[l] in Wrapped(xs);
    AcrossWrap(xs[l], xs[h]);
  }

  lemma AcrossWrap(low: int, high: int)
    requires low <= high < low + 0x8000 && low / 0x1_0000 != high / 0x1_0000
    ensures Wrap16(low) - Wrap16(high) > high - low
  {
  }

  lemma CancelFactor(x: real, y: real, c: real)
    requires c > 0.0 && x * c < y * c
    ensures x < y
  {
  }

  lemma MoreExpectedMoreLoss(n: nat, few: nat, many: nat)
    requires 0 < n <= few < many
    ensures (few - n) as real * 100.0 / few as real < (many - n) as real * 100.0 / many as real
  {
    var a, b, k := few as real, many as real, n as real;
    var x, y := (a - k) * 100.0 / a, (b - k) * 100.0 / b;
    assert x * a == (a - k) * 100.0 && y * b == (b - k) * 100.0;
    assert x * (a * b) == (x * a) * b == 100.0 * (a * b) - 100.0 * (k * b);
    assert y * (a * b) == (y * b) * a == 100.0 * (a * b) - 100.0 * (k * a);
    assert k * a < k * b;
    CancelFactor(x, y, a * b);
  }

  function Spread(xs: seq<int>): int
    requires xs != []
  {
    Highest(xs) - Lowest(xs)
  }

  /** As many different raw numbers as true ones, and no more than the raw spread has room for. */
  lemma RawFew(xs: seq<int>)
    requires xs != [] && Spread(xs) < 0x1_0000
    ensures |Distinct(Wrapped(xs))| == |Numbers(xs)| && 0 < |Numbers(xs)|
    ensures |Numbers(xs)| <= Spread(xs) + 1 && |Numbers(xs)| <= Spread(Wrapped(xs)) + 1
  {
    hide Highest, Lowest, Distinct;
    var raw := Wrapped(xs);
    Bounds(xs);
    Bounds(raw);
    SameMany(xs, Lowest(xs));
    SameMany(raw, 0);
    assert Wrapped(raw) == raw;
    DistinctFew(xs, Lowest(xs), Highest(xs));
    DistinctFew(raw, Lowest(raw), Highest(raw));
  }

  /**
   * The locally computed loss is the true loss exactly when the raw numbers spread as far as the true ones. For numbers
   * less than 2^15 apart that is when no wrap of the 16-bit numbers falls inside the window; otherwise it is too high.
   */
  lemma RawLossExact(xs: seq<int>)
    requires |xs| >= 2 && Spread(xs) < 0x1_0000
    ensures RawLoss(Wrapped(xs)) == TrueLoss(xs) <==> Spread(Wrapped(xs)) == Spread(xs)
    ensures Spread(xs) < 0x8000 ==> (RawLoss(Wrapped(xs)) == TrueLoss(xs) <==> OneBlock(xs))
    ensures Spread(xs) < 0x8000 && !OneBlock(xs) ==> RawLoss(Wrapped(xs)) > TrueLoss(xs)
  {
    hide Highest, Lowest, OneBlock, Distinct, Numbers, Wrapped;
    RawFew(xs);
    var n := |Numbers(xs)|;
    var span, raw := Spread(xs) + 1, Spread(Wrapped(xs)) + 1;
    if raw < span {
      MoreExpectedMoreLoss(n, raw, span);
    } else if span < raw {
      MoreExpectedMoreLoss(n, span, raw);
    }
    if OneBlock(xs) {
      BlockSpan(xs);
    } else if Spread(xs) < 0x8000 {
      WrapSpan(xs);
    }
  }

  /** No more different numbers than the span has room for. */
  lemma DistinctFew(xs: seq<int>, low: int, high: int)
    requires xs != [] && forall x | x in xs :: low <= x <= high
    ensures 0 < |Numbers(xs)| <= high - low + 1
  {
    var s := Numbers(xs);
    assert xs[0] in s;
    RangeSize(s, low, high);
  }

  lemma {:induction false} RangeSize(s: set<int>, low: int, high: int)
    requires forall x | x in s :: low <= x <= high
    ensures |s| <= if low <= high then high - low + 1 else 0
    decreases high - low + 1
  {
    if low > high {
      if s != {} {
        var x :| x in s;
        assert false;
      }
    } else {
      RangeSize(s - {high}, low, high - 1);
      if high in s {
        assert s == s - {high} + {high};
      } else {
        assert s == s - {high};
      }
    }
  }
}

/** The adaptation controller: quick to step down, slow to step back up. */
module VideoAdaptation {

  datatype Quality = Quality(lossPercent: real, transportLossPercent: real, rttMs: real, jitterMs: real)

  datatype Profile = Profile(level: int, bitrateKbps: int, fps: int, width: int, height: int)

  const PROFILES: seq<Profile> := [
    Profile(0, 2000, 30, 1280, 720),
    Profile(1, 1200, 24, 960, 540),
    Profile(2, 600, 15, 640, 360),
    Profile(3, 300, 10, 426, 240),
    Profile(4, 150, 5, 320, 180)
  ]

  const RECOVERY_LOSS_THRESHOLD: seq<real> := [0.0, 1.0, 7.0, 25.0, 50.0]
  const RECOVERY_WINDOWS := 5
  const WORST := 4

  type Level = l: int | 0 <= l <= WORST

  /** Level and the count of good updates since the last change. */
  datatype State = State(level: Level, windows: nat)

  predicate Valid(s: State) { s.windows < RECOVERY_WINDOWS && (s.level == 0 ==> s.windows == 0) }

  function Max(a: int, b: int): int { if a < b then b else a }

  function Loss(q: Quality): real {
    if q.lossPercent < q.transportLossPercent then q.transportLossPercent else q.lossPercent
  }

  /** The level the present quality demands. */
  function Required(q: Quality): Level {
    var loss := Loss(q);
    var byLoss :=
      if loss > 60.0 then 4 else if loss > 30.0 then 3 else if loss > 10.0 then 2 else if loss > 3.0 then 1 else 0;
    var byRtt := if q.rttMs > 350.0 then Max(byLoss, 3) else if q.rttMs > 180.0 then Max(byLoss, 2) else byLoss;
    if q.jitterMs > 50.0 then Max(byRtt, 1) else byRtt
  }

  /** Good enough to count towards leaving `level`. */
  predicate Recovering(level: Level, q: Quality) {
    level > 0 && Loss(q) < RECOVERY_LOSS_THRESHOLD[level] && q.rttMs < 150.0 && q.jitterMs < 40.0
  }

  function Next(s: State, q: Quality): (r: State) {
    if Required(q) > s.level then State(Required(q), 0)
    else if !Recovering(s.level, q) then State(s.level, 0)
    else if s.windows + 1 >= RECOVERY_WINDOWS then State(s.level - 1, 0)
    else State(s.level, s.windows + 1)
  }

  function Clamp(x: int, low: int, high: int): int {
    if x < low then low else if x > high then high else x
  }

  function ProfileFor(level: int, maxKbps: int): Profile {
    var p := PROFILES[Clamp(level, 0, 4)];
    p.(bitrateKbps := if p.bitrateKbps < maxKbps then p.bitrateKbps else maxKbps)
  }

  class VideoAdaptationController {
    const maxVideoKbps: int
    var level: int
    var recoveryWindows: int
    var profile: Profile

    ghost predicate Inv()
      reads this
    {
      && 150 <= maxVideoKbps <= 2000 && 0 <= level <= WORST && 0 <= recoveryWindows && Valid(Abstract())
      && profile == ProfileFor(level, maxVideoKbps)
    }

    ghost function Abstract(): State
      requires 0 <= level <= WORST && 0 <= recoveryWindows
      reads this
    {
      State(level, recoveryWindows)
    }

    constructor (maxKbps: int)
      ensures Inv() && Abstract() == State(0, 0)
      ensures maxVideoKbps == if maxKbps < 150 then 150 else if maxKbps > 2000 then 2000 else maxKbps
    {
      maxVideoKbps := Clamp(maxKbps, 150, 2000);
      level, recoveryWindows := 0, 0;
      profile := ProfileFor(0, Clamp(maxKbps, 150, 2000));
    }

    method Update(q: Quality) returns (r: Profile)
      requires Inv()
      modifies this
      ensures Inv() && Abstract() == Next(old(Abstract()), q)
      ensures r == profile == ProfileFor(Next(old(Abstract()), q).level, maxVideoKbps)
    {
      var loss := if q.lossPercent < q.transportLossPercent then q.transportLossPercent else q.lossPercent;
      var required := 0;
      if loss > 60.0 {
        required := 4;
      } else if loss > 30.0 {
        required := 3;
      } else if loss > 10.0 {
        required := 2;
      } else if loss > 3.0 {
        required := 1;
      }
      if q.rttMs > 350.0 {
        required := Max(required, 3);
      } else if q.rttMs > 180.0 {
        required := Max(required, 2);
      }
      if q.jitterMs > 50.0 {
        required := Max(required, 1);
      }
      if required > level {
        level, recoveryWindows := required, 0;
      } else if level > 0 && loss < RECOVERY_LOSS_THRESHOLD[level] && q.rttMs < 150.0 && q.jitterMs < 40.0 {
        recoveryWindows := recoveryWindows + 1;
        if recoveryWindows >= RECOVERY_WINDOWS {
          level, recoveryWindows := level - 1, 0;
        }
      } else {
        recoveryWindows := 0;
      }
      profile := ProfileFor(level, maxVideoKbps);
      r := profile;
    }
  }

  // ---------------------------------------------------------------- what every update keeps

  /** Quality that lets a level recover does not demand that level. */
  lemma RecoveringNotRequired(level: Level, q: Quality)
    requires Recovering(level, q)
    ensures Required(q) < level
  {
  }

  lemma NextKeeps(s: State, q: Quality)
    requires Valid(s)
    ensures Valid(Next(s, q)) && Next(s, q).level >= Required(q)
    ensures Next(s, q).level >= s.level - 1
  {
    if Recovering(s.level, q) {
      RecoveringNotRequired(s.level, q);
    }
  }

  function After(s: State, qs: seq<Quality>): State {
    if qs == [] then s else Next(After(s, qs[..|qs| - 1]), qs[|qs| - 1])
  }

  /** Over any run the level stays in range and never below what the last update demanded. */
  lemma {:induction false} RunKeeps(s: State, qs: seq<Quality>)
    requires Valid(s)
    ensures Valid(After(s, qs)) && 0 <= After(s, qs).level <= WORST
    ensures qs != [] ==> After(s, qs).level >= Required(qs[|qs| - 1])
  {
    if qs != [] {
      RunKeeps(s, qs[..|qs| - 1]);
      NextKeeps(After(s, qs[..|qs| - 1]), qs[|qs| - 1]);
    }
  }

  // ---------------------------------------------------------------- what one update means

  /** Some measurement is over the limit above which level `l` is the least that will do. */
  predicate Demands(q: Quality, l: int) {
    || (l == 4 && (q.lossPercent > 60.0 || q.transportLossPercent > 60.0))
    || (l == 3 && (q.lossPercent > 30.0 || q.transportLossPercent > 30.0 || q.rttMs > 350.0))
    || (l == 2 && (q.lossPercent > 10.0 || q.transportLossPercent > 10.0 || q.rttMs > 180.0))
    || (l == 1 && (q.lossPercent > 3.0 || q.transportLossPercent > 3.0 || q.jitterMs > 50.0))
  }

  /** All measurements are clearly below what level `l` was meant for. */
  predicate Relaxed(q: Quality, l: int) {
    && q.rttMs < 150.0 && q.jitterMs < 40.0
    && var limit := if l == 1 then 1.0 else if l == 2 then 7.0 else if l == 3 then 25.0 else 50.0;
       q.lossPercent < limit && q.transportLossPercent < limit
  }

  /**
   * One update: the level rises if and only if a higher one is demanded, and then to the highest demanded; it falls, by
   * one, if and only if the quality has been relaxed for the fifth time in a row.
   */
  lemma UpdateMeans(s: State, q: Quality)
    requires Valid(s)
    ensures var r := Next(s, q);
      && (forall l | 1 <= l <= 4 && Demands(q, l) :: r.level >= l)
      && (r.level > s.level <==> exists l :: s.level < l <= 4 && Demands(q, l))
      && (r.level > s.level ==> Demands(q, r.level) && r.windows == 0)
      && (r.level < s.level <==> s.level > 0 && Relaxed(q, s.level) && s.windows == 4)
      && (r.level < s.level ==> r == State(s.level - 1, 0))
      && (r.level == s.level ==> r.windows == if s.level > 0 && Relaxed(q, s.level) then s.windows + 1 else 0)
  {
    if exists l :: s.level < l <= 4 && Demands(q, l) {
      var l :| s.level < l <= 4 && Demands(q, l);
      assert Required(q) >= l;
      assert Demands(q, Required(q));
    } else if Required(q) > s.level {
      assert Demands(q, Required(q));
    }
  }

  /** Where a fresh controller stands after `qs`. */
  function Standing(qs: seq<Quality>): State {
    After(State(0, 0), qs)
  }

  lemma StandingNext(qs: seq<Quality>)
    requires qs != []
    ensures Standing(qs) == Next(Standing(qs[..|qs| - 1]), qs[|qs| - 1])
  {
    hide Next;
  }

  lemma StandingStart()
    ensures Standing([]) == State(0, 0) && Valid(State(0, 0))
  {
  }

  /** As many updates as the state has counted have left the level where it is, and have all been relaxed. */
  predicate Counted(qs: seq<Quality>, s: State) {
    && s.windows <= |qs|
    && (forall i | |qs| - s.windows <= i < |qs| :: Relaxed(qs[i], s.level))
    && (forall i | |qs| - s.windows <= i <= |qs| :: Standing(qs[..i]).level == s.level)
  }

  lemma {:induction false} WindowsCount(qs: seq<Quality>)
    ensures Valid(Standing(qs)) && Counted(qs, Standing(qs))
  {
    hide Next, Valid, Relaxed, Standing;
    assert qs[..|qs|] == qs;
    if qs == [] {
      StandingStart();
    } else {
      var n := |qs| - 1;
      WindowsCount(qs[..n]);
      StandingNext(qs);
      NextKeeps(Standing(qs[..n]), qs[n]);
      UpdateMeans(Standing(qs[..n]), qs[n]);
      forall i | 0 <= i <= n ensures qs[..n][..i] == qs[..i] {
      }
    }
  }

  /** Over any run: before the level falls it has stood still through five updates in a row, all of them relaxed. */
  lemma FallsAfterFive(qs: seq<Quality>)
    requires qs != [] && Standing(qs).level < Standing(qs[..|qs| - 1]).level
    ensures |qs| >= 5 && Standing(qs).level == Standing(qs[..|qs| - 1]).level - 1
    ensures forall i | |qs| - 5 <= i < |qs| ::
      Relaxed(qs[i], Standing(qs[..|qs| - 1]).level) && Standing(qs[..i]).level == Standing(qs[..|qs| - 1]).level
  {
    hide Next, Relaxed, Standing, Valid;
    var n := |qs| - 1;
    var before := Standing(qs[..n]);
    WindowsCount(qs[..n]);
    StandingNext(qs);
    UpdateMeans(before, qs[n]);
    forall i | n - 4 <= i < |qs|
      ensures Relaxed(qs[i], before.level) && Standing(qs[..i]).level == before.level
    {
      assert qs[..n][..i] == qs[..i];
      assert i < n ==> qs[..n][i] == qs[i];
    }
  }

  /** The ladder, and the configured limit on its bit rates. */
  lemma LadderIs(maxKbps: int)
    requires 150 <= maxKbps <= 2000
    ensures forall level | 0 <= level <= 4 ::
      var p := ProfileFor(level, maxKbps);
      && p.level == level && p.bitrateKbps <= maxKbps
      && (p.bitrateKbps == maxKbps || p.bitrateKbps == [2000, 1200, 600, 300, 150][level])
      && p.bitrateKbps <= [2000, 1200, 600, 300, 150][level] && p.fps == [30, 24, 15, 10, 5][level]
      && p.width == [1280, 960, 640, 426, 320][level] && p.height == [720, 540, 360, 240, 180][level]
  {
  }

  // ---------------------------------------------------------------- a worse network

  predicate NoBetter(worse: Quality, better: Quality) {
    worse.lossPercent >= better.lossPercent && worse.transportLossPercent >= better.transportLossPercent
    && worse.rttMs >= better.rttMs && worse.jitterMs >= better.jitterMs
  }

  /** The worse-off controller is lower on the ladder, or on the same rung and no nearer to leaving it. */
  predicate Behind(worse: State, better: State) {
    worse.level > better.level || (worse.level == better.level && worse.windows <= better.windows)
  }

  lemma RequiredMonotone(worse: Quality, better: Quality)
    requires NoBetter(worse, better)
    ensures Required(worse) >= Required(better)
    ensures forall l: Level | Recovering(l, worse) :: Recovering(l, better)
  {
  }

  lemma NextBehind(worse: State, better: State, qWorse: Quality, qBetter: Quality)
    requires Valid(worse) && Valid(better) && Behind(worse, better) && NoBetter(qWorse, qBetter)
    ensures Behind(Next(worse, qWorse), Next(better, qBetter))
  {
    hide Required, Recovering;
    RequiredMonotone(qWorse, qBetter);
    if Recovering(worse.level, qWorse) {
      RecoveringNotRequired(worse.level, qWorse);
    }
    if Recovering(better.level, qBetter) {
      RecoveringNotRequired(better.level, qBetter);
    }
  }

  predicate PointwiseNoBetter(worse: seq<Quality>, better: seq<Quality>) {
    |worse| == |better| && forall i | 0 <= i < |worse| :: NoBetter(worse[i], better[i])
  }

  /** From the same start, a network that is never better never yields a better level. */
  lemma {:induction false} WorseNetworkBehind(s: State, worse: seq<Quality>, better: seq<Quality>)
    requires Valid(s) && PointwiseNoBetter(worse, better)
    ensures Behind(After(s, worse), After(s, better))
    ensures After(s, worse).level >= After(s, better).level
  {
    if worse != [] {
      var n := |worse| - 1;
      WorseNetworkBehind(s, worse[..n], better[..n]);
      RunKeeps(s, worse[..n]);
      RunKeeps(s, better[..n]);
      NextBehind(After(s, worse[..n]), After(s, better[..n]), worse[n], better[n]);
    }
  }

  predicate NoBetterProfile(worse: Profile, better: Profile) {
    worse.bitrateKbps <= better.bitrateKbps && worse.fps <= better.fps
    && worse.width <= better.width && worse.height <= better.height
  }

  /** So after every update its bit rate, frame rate and picture size are at most the other's. */
  lemma WorseNetworkWorseProfile(s: State, worse: seq<Quality>, better: seq<Quality>, maxKbps: int, n: nat)
    requires Valid(s) && PointwiseNoBetter(worse, better) && n <= |worse|
    ensures NoBetterProfile(ProfileFor(After(s, worse[..n]).level, maxKbps),
                            ProfileFor(After(s, better[..n]).level, maxKbps))
  {
    WorseNetworkBehind(s, worse[..n], better[..n]);
    LadderDescends(After(s, worse[..n]).level, After(s, better[..n]).level);
  }

  lemma LadderDescends(low: Level, high: Level)
    requires low >= high
    ensures NoBetterProfile(PROFILES[low], PROFILES[high])
  {
  }

  // ---------------------------------------------------------------- constant quality

  function Repeat(s: State, q: Quality, n: nat): State {
    if n == 0 then s else Next(Repeat(s, q, n - 1), q)
  }

  /** The rung where recovery under `q` ends, coming from `level`. */
  function Rest(level: Level, q: Quality): (r: Level)
    ensures r <= level && !Recovering(r, q)
  {
    if Recovering(level, q) then Rest(level - 1, q) else level
  }

  /** Where constant quality leads in the end. */
  function Settled(s: State, q: Quality): State {
    State(if Required(q) > s.level then Required(q) else Rest(s.level, q), 0)
  }

  /** Updates until the state no longer changes. */
  function Delay(s: State, q: Quality): nat
    requires Valid(s)
  {
    if Required(q) > s.level then 1
    else if Recovering(s.level, q) then RECOVERY_WINDOWS * (s.level - Rest(s.level, q)) - s.windows
    else if s.windows > 0 then 1 else 0
  }

  lemma DelayBounded(s: State, q: Quality)
    requires Valid(s)
    ensures Delay(s, q) <= 20
  {
  }

  lemma SettledFixed(s: State, q: Quality)
    requires Valid(s)
    ensures Next(Settled(s, q), q) == Settled(s, q) && Settled(Next(s, q), q) == Settled(s, q)
    ensures Delay(s, q) == 0 ==> s == Settled(s, q)
    ensures Delay(s, q) > 0 ==> Valid(Next(s, q)) && Delay(Next(s, q), q) == Delay(s, q) - 1
  {
    NextKeeps(s, q);
    if Recovering(s.level, q) {
      RecoveringNotRequired(s.level, q);
      RestNotRequired(s.level, q);
    }
    if Recovering(Required(q), q) {
      RecoveringNotRequired(Required(q), q);
    }
  }

  lemma {:induction false} RestNotRequired(level: Level, q: Quality)
    requires Required(q) <= level
    ensures Rest(level, q) >= Required(q)
  {
    if Recovering(level, q) {
      RecoveringNotRequired(level, q);
      RestNotRequired(level - 1, q);
    }
  }

  lemma {:induction false} RepeatFirst(s: State, q: Quality, n: nat)
    requires n > 0
    ensures Repeat(s, q, n) == Repeat(Next(s, q), q, n - 1)
  {
    if n > 1 {
      RepeatFirst(s, q, n - 1);
    }
  }

  /** Constant quality settles after at most 20 updates, at a rung known in advance, and then nothing changes. */
  lemma {:induction false} Converges(s: State, q: Quality, n: nat)
    requires Valid(s) && n >= Delay(s, q)
    ensures Repeat(s, q, n) == Settled(s, q) && Delay(s, q) <= 20
    decreases n
  {
    DelayBounded(s, q);
    SettledFixed(s, q);
    if n > 0 {
      RepeatFirst(s, q, n);
      if Delay(s, q) > 0 {
        Converges(Next(s, q), q, n - 1);
      } else {
        Converges(s, q, n - 1);
      }
    }
  }

  /** It settles no sooner than that. */
  lemma {:induction false} ConvergesLast(s: State, q: Quality, n: nat)
    requires Valid(s) && n < Delay(s, q)
    ensures Repeat(s, q, n) != Settled(s, q)
    decreases n
  {
    SettledFixed(s, q);
    if n == 0 {
      SettledFixed(Settled(s, q), q);
    } else {
      RepeatFirst(s, q, n);
      ConvergesLast(Next(s, q), q, n - 1);
    }
  }

  /** On the way the level rises at the first update and stays, or only falls: it never turns round. */
  lemma {:induction false} NeverOscillates(s: State, q: Quality, n: nat)
    requires Valid(s)
    ensures Valid(Repeat(s, q, n))
    ensures Required(q) > s.level && n > 0 ==> Repeat(s, q, n).level == Required(q)
    ensures Required(q) <= s.level ==>
      Required(q) <= Repeat(s, q, n + 1).level <= Repeat(s, q, n).level <= s.level
      && Repeat(s, q, n).level - Repeat(s, q, n + 1).level <= 1
  {
    if n > 0 {
      NeverOscillates(s, q, n - 1);
    }
    var r := Repeat(s, q, n);
    NextKeeps(r, q);
    if Recovering(Required(q), q) {
      RecoveringNotRequired(Required(q), q);
    }
  }

  /** While recovering, each rung takes five updates, the first one as many as were still wanted. */
  lemma {:induction false} FiveUpdatesPerRung(s: State, q: Quality, n: nat)
    requires Valid(s) && Recovering(s.level, q) && n <= RECOVERY_WINDOWS - s.windows
    ensures Repeat(s, q, n) ==
      if n < RECOVERY_WINDOWS - s.windows then State(s.level, s.windows + n) else State(s.level - 1, 0)
  {
    RecoveringNotRequired(s.level, q);
    if n > 0 {
      FiveUpdatesPerRung(s, q, n - 1);
    }
  }
}

/** Compact NTP timestamps (section 6.4.1 of RFC 3550) and the round-trip time computed from them. */
module CompactNtp {
  import opened Words

  const NTP_UNIX_EPOCH_DELTA := 2_208_988_800

  /** `compact_ntp_now` at `us` microseconds of Unix time, in 64-bit arithmetic. */
  function Compact(us: nat): U32 {
    var seconds := (us / 1_000_000 + NTP_UNIX_EPOCH_DELTA) % 0x1_0000_0000_0000_0000;
    var fraction := us % 1_000_000 * 0x1_0000_0000 / 1_000_000;
    var ntp := seconds * 0x1_0000_0000 % 0x1_0000_0000_0000_0000 + fraction;
    ntp / 0x1_0000 % 0x1_0000_0000
  }

  /** Whole ticks of 1/65536 s in `us` microseconds. */
  function Ticks(us: nat): nat {
    us * 0x1_0000 / 1_000_000
  }

  lemma TicksSplit(us: nat)
    ensures Ticks(us) == us / 1_000_000 * 0x1_0000 + us % 1_000_000 * 0x1_0000 / 1_000_000
  {
  }

  lemma FractionTicks(u: nat)
    requires u < 1_000_000
    ensures u * 0x1_0000_0000 / 1_000_000 / 0x1_0000 == u * 0x1_0000 / 1_000_000
    ensures u * 0x1_0000_0000 / 1_000_000 < 0x1_0000_0000
  {
  }

  lemma ShiftedSum(seconds: nat, fraction: nat)
    requires fraction < 0x1_0000_0000
    ensures (seconds * 0x1_0000_0000 % 0x1_0000_0000_0000_0000 + fraction) / 0x1_0000 % 0x1_0000_0000
         == (seconds * 0x1_0000 + fraction / 0x1_0000) % 0x1_0000_0000
  {
    var low, turns := seconds % 0x1_0000_0000, seconds / 0x1_0000_0000;
    LowHalf(seconds);
    assert (low * 0x1_0000_0000 + fraction) / 0x1_0000 == low * 0x1_0000 + fraction / 0x1_0000;
    WholeTurns(low * 0x1_0000 + fraction / 0x1_0000, turns * 0x1_0000);
  }

  lemma LowHalf(seconds: nat)
    ensures seconds * 0x1_0000_0000 % 0x1_0000_0000_0000_0000 == seconds % 0x1_0000_0000 * 0x1_0000_0000
  {
  }

  lemma WrapSeconds(s: nat, f: nat)
    ensures Wrap32(s % 0x1_0000_0000_0000_0000 * 0x1_0000 + f) == Wrap32(s * 0x1_0000 + f)
  {
    var q, r := s / 0x1_0000_0000_0000_0000, s % 0x1_0000_0000_0000_0000;
    WholeTurns(r * 0x1_0000 + f, q * 0x1_0000_0000_0000);
  }

  lemma WholeTurns(x: int, n: int)
    ensures Wrap32(x + n * 0x1_0000_0000) == Wrap32(x)
  {
  }

  /** The middle 32 bits of the NTP timestamp are the whole ticks since 1900, modulo 2^32. */
  lemma CompactCountsTicks(us: nat)
    ensures Compact(us) == Wrap32(Ticks(us) + 2_208_988_800 * 0x1_0000)
  {
    hide Ticks, Wrap32;
    var s, u := us / 1_000_000, us % 1_000_000;
    FractionTicks(u);
    TicksSplit(us);
    CompactParts(us);
    WrapSeconds(s + NTP_UNIX_EPOCH_DELTA, u * 0x1_0000 / 1_000_000);
  }

  lemma CompactParts(us: nat)
    ensures var seconds := us / 1_000_000 + NTP_UNIX_EPOCH_DELTA;
      Compact(us) ==
        Wrap32(seconds % 0x1_0000_0000_0000_0000 * 0x1_0000 + us % 1_000_000 * 0x1_0000_0000 / 1_000_000 / 0x1_0000)
  {
    FractionTicks(us % 1_000_000);
    ShiftedSum((us / 1_000_000 + NTP_UNIX_EPOCH_DELTA) % 0x1_0000_0000_0000_0000,
               us % 1_000_000 * 0x1_0000_0000 / 1_000_000);
  }

  /** `arrival - last_sr - delay_since_last_sr` in 32-bit arithmetic. */
  function RttTicks(arrival: U32, lastSr: U32, delay: U32): U32 {
    Wrap32(Wrap32(arrival - lastSr) - delay)
  }

  lemma RttIsDifference(a: int, b: int, c: int)
    ensures Wrap32(Wrap32(Wrap32(a) - Wrap32(b)) - c) == Wrap32(a - b - c)
  {
  }

  lemma TickDifference(sent: nat, received: nat)
    requires sent <= received
    ensures -1_000_000 < (Ticks(received) - Ticks(sent)) * 1_000_000 - (received - sent) * 0x1_0000 < 1_000_000
  {
  }

  lemma WrapSmall(x: int)
    requires 0 <= x < 0x1_0000_0000
    ensures Wrap32(x) == x
  {
  }

  /**
   * With the sender report stamped at `sent` and the report received at `received`, both by the same clock, the wrapped
   * difference is within one tick of the true round-trip time, wherever the 32-bit timestamps wrap. Times a million,
   * the true time is `(received - sent) * 65536 - delay * 1000000` ticks.
   */
  lemma RttWithinOneTick(sent: nat, received: nat, delay: U32)
    requires sent <= received
    requires 0 <= (received - sent) * 0x1_0000 - delay * 1_000_000 <= 0xFFFF_FFFE * 1_000_000
    ensures var truth := (received - sent) * 0x1_0000 - delay * 1_000_000;
      -1_000_000 < RttTicks(Compact(received), Compact(sent), delay) * 1_000_000 - truth < 1_000_000
  {
    hide Compact, Ticks, Wrap32;
    CompactCountsTicks(sent);
    CompactCountsTicks(received);
    RttIsDifference(Ticks(received) + NTP_UNIX_EPOCH_DELTA * 0x1_0000,
                    Ticks(sent) + NTP_UNIX_EPOCH_DELTA * 0x1_0000, delay);
    TickDifference(sent, received);
    var ticks := Ticks(received) - Ticks(sent) - delay;
    assert 0 <= ticks < 0x1_0000_0000;
    WrapSmall(ticks);
  }

  const MAX_RTT_MS := 60_000.0

  /** The round-trip time a receiver report yields; no sender report, or more than a minute, counts as none. */
  function RttMs(arrival: U32, lastSr: U32, delay: U32): real {
    if lastSr == 0 then 0.0
    else
      var ms := RttTicks(arrival, lastSr, delay) as real * 1000.0 / 65536.0;
      if ms > MAX_RTT_MS then 0.0 else ms
  }

  /** The milliseconds are those of the tick count, unless there was no sender report or they come to over a minute. */
  lemma RttMsGuarded(arrival: U32, lastSr: U32, delay: U32)
    ensures var ticks, ms := RttTicks(arrival, lastSr, delay), RttMs(arrival, lastSr, delay);
      if lastSr == 0 || ticks > 60 * 65536 then ms == 0.0 else ms * 65536.0 == ticks as real * 1000.0
    ensures 0.0 <= RttMs(arrival, lastSr, delay) <= 60_000.0
  {
    hide RttTicks;
    var ticks := RttTicks(arrival, lastSr, delay);
    assert ticks as real * 1000.0 / 65536.0 * 65536.0 == ticks as real * 1000.0;
  }

  /** So the reported milliseconds are within 1000/65536 of the truth, or 0 for less than a tick or over a minute. */
  lemma RttMsAccurate(sent: nat, received: nat, delay: U32)
    requires sent <= received && Compact(sent) != 0
    requires 0 <= (received - sent) * 0x1_0000 - delay * 1_000_000 <= 0xFFFF_FFFE * 1_000_000
    ensures var truth := ((received - sent) * 0x1_0000 - delay * 1_000_000) as real / 65536.0 / 1000.0;
      var ms := RttMs(Compact(received), Compact(sent), delay);
      && (truth >= 60_000.0 + 1000.0 / 65536.0 ==> ms == 0.0)
      && (truth <= 60_000.0 - 1000.0 / 65536.0 ==> -1000.0 / 65536.0 < ms - truth < 1000.0 / 65536.0)
      && (ms != 0.0 ==> -1000.0 / 65536.0 < ms - truth < 1000.0 / 65536.0)
  {
    hide Compact;
    RttWithinOneTick(sent, received, delay);
    var ticks := RttTicks(Compact(received), Compact(sent), delay);
    var millionths := (received - sent) * 0x1_0000 - delay * 1_000_000;
    assert (ticks * 1_000_000 - millionths) as real == ticks as real * 1000000.0 - millionths as real;
  }
}

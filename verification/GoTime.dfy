/** The part of Go's package time that the protocol relies on. Every instant is in
    nanoseconds: `wall` since 1 January 1970, `mono` on the process's monotonic clock,
    which a time read back from storage lacks. */
module GoTime {
  import opened Primitives

  datatype Time = Time(wall: int, mono: Option<int>)

  const SECOND := 1_000_000_000
  const YEAR_IN_SECONDS := 365 * 24 * 60 * 60

  /** The zero time, 1 January of year 1. */
  const ZERO_TIME := Time(-62_135_596_800 * SECOND, None)

  function Unix(t: Time): int {
    t.wall / SECOND
  }

  predicate IsZero(t: Time) {
    t.wall == ZERO_TIME.wall
  }

  function Add(t: Time, d: int): Time {
    Time(t.wall + d, if t.mono.Some? then Some(t.mono.value + d) else None)
  }

  /** time.Duration is an int64; Sub saturates. */
  function Saturate(d: int): int {
    if d > MAX_I64 then MAX_I64 else if d < MIN_I64 then MIN_I64 else d
  }

  /** The monotonic clock is used if and only if both times carry it. */
  function Sub(t: Time, u: Time): int {
    Saturate(if t.mono.Some? && u.mono.Some? then t.mono.value - u.mono.value else t.wall - u.wall)
  }

  predicate After(t: Time, u: Time) {
    if t.mono.Some? && u.mono.Some? then t.mono.value > u.mono.value else t.wall > u.wall
  }

  /** Peer.timestamp: whole seconds since timeZero, truncated to 32 bits. */
  function Timestamp(timeZero: Time, now: Time): u32 {
    ToU32(TruncDiv(Sub(now, timeZero), SECOND))
  }

  /** The expiration time a Signer puts into a message. */
  function ExpiresAt(timeZero: Time, now: Time, expiresIn: int): u32 {
    ToU32(TruncDiv(Sub(Add(now, expiresIn), timeZero), SECOND))
  }

  /** crypto.go, epochStartTime. */
  function EpochStartTime(now: Time, epochTime: u32): Time {
    Add(now, -(SECOND * epochTime))
  }

  /** A duration that fits is kept, any other is the nearest that fits. */
  lemma SaturateExactly(d: int)
    ensures MIN_I64 <= Saturate(d) <= MAX_I64
    ensures Saturate(d) == d <==> MIN_I64 <= d <= MAX_I64
    ensures d > MAX_I64 ==> Saturate(d) == 0x7FFF_FFFF_FFFF_FFFF
    ensures d < MIN_I64 ==> Saturate(d) == -0x8000_0000_0000_0000
  {
  }

  /** One time is after another exactly if the difference is positive. */
  lemma AfterIsPositive(t: Time, u: Time)
    ensures After(t, u) <==> Sub(t, u) > 0
  {
  }
}

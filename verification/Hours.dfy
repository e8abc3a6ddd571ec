/** Ages in hours to one decimal, as counts of tenths of an hour. */
module Hours {

  const MS_PER_HOUR := 3600000
  const MS_PER_TENTH := 360000

  /** The nearest tenth of an hour, halves away from zero. */
  function Tenths(ms: int): int {
    if ms >= 0 then (2 * ms + MS_PER_TENTH) / (2 * MS_PER_TENTH) else -((2 * -ms + MS_PER_TENTH) / (2 * MS_PER_TENTH))
  }

  /** An age is never negative. */
  function AgeTenths(now: int, built: int): nat {
    if Tenths(now - built) < 0 then 0 else Tenths(now - built)
  }

  /** The nearest tenth, and of two the one away from zero. */
  lemma TenthsExactly(ms: int)
    ensures -180_000 <= 360_000 * Tenths(ms) - ms <= 180_000
    ensures ms >= 0 ==> 360_000 * Tenths(ms) - ms > -180_000
    ensures Tenths(-ms) == -Tenths(ms)
  {
  }

  /** Rounding keeps order, and lets an age within half a tenth over a limit of h hours pass. */
  lemma AgeExactly(now: int, built: int, later: int, hours: nat)
    ensures built <= later ==> AgeTenths(now, later) <= AgeTenths(now, built)
    ensures AgeTenths(now, built) <= 10 * hours <==> now - built < hours * 3_600_000 + 180_000
    ensures now - built <= 0 ==> AgeTenths(now, built) == 0
  {
  }
}

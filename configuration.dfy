/** The SmartBeaconing settings of the tracker: speeds in km/h, rates and times in seconds. */
module Configuration {

  const LOW_SPEED: int := 5
  const HIGH_SPEED: int := 90

  const SLOW_RATE: int := 300
  const FAST_BEACON_RATE: int := 30

  const TURN_MIN: int := 30
  const TURN_SLOPE: int := 240
  const MIN_TURN_TIME: int := 20

  /** The low and high speeds split every non-negative speed into exactly one of three bands:
      below LOW_SPEED, above HIGH_SPEED, or in between (bounds included). */
  lemma SpeedBands(speed: real)
    requires speed >= 0.0
    ensures 0 < LOW_SPEED < HIGH_SPEED
    ensures (speed < LOW_SPEED as real) != (speed > HIGH_SPEED as real)
      || (LOW_SPEED as real <= speed <= HIGH_SPEED as real)
    ensures !(speed < LOW_SPEED as real && speed > HIGH_SPEED as real)
    ensures (LOW_SPEED as real <= speed <= HIGH_SPEED as real)
      <==> !(speed < LOW_SPEED as real) && !(speed > HIGH_SPEED as real)
  {
  }

  /** The in-between formula FAST_BEACON_RATE * HIGH_SPEED / speed meets the fast rate at
      HIGH_SPEED but gives 540 s, not SLOW_RATE, at LOW_SPEED; the turn limit is shorter
      than the fastest periodic rate. */
  lemma RateConstants()
    ensures MIN_TURN_TIME < FAST_BEACON_RATE < SLOW_RATE
    ensures FAST_BEACON_RATE * HIGH_SPEED / HIGH_SPEED == FAST_BEACON_RATE
    ensures FAST_BEACON_RATE * HIGH_SPEED / LOW_SPEED == 540 > SLOW_RATE
  {
  }
}

/** The SmartBeaconing decision of the tracker's main loop: for each GPS fix it works out how
    far the course has turned, how long the beacon interval is at the current speed and how
    sharp a turn must be to deserve a beacon of its own, and fires a turn beacon, a periodic
    beacon or none. Times are milliseconds on the 32-bit millis() clock. */
module SmartBeaconing {
  import opened Configuration
  import opened Decimal

  datatype Option<T> = None | Some(value: T)

  /** unsigned long on the AVR: 32 bits, arithmetic modulo 2^32. */
  const TIME_MODULUS: int := 0x1_0000_0000
  type Millis = x: int | 0 <= x < TIME_MODULUS

  /** int on the AVR: 16 bits. */
  const INT16_MAX: int := 32767

  /** A fix older than this many milliseconds is reported as possibly stale. */
  const STALE_AGE: nat := 5000

  /** millis() - since, computed in unsigned long: correct across one wrap of the clock. */
  function Elapsed(now: Millis, since: Millis): (e: Millis)
    ensures since <= now ==> e == now - since
    ensures now < since ==> e == TIME_MODULUS - since + now
  {
    (now - since) % TIME_MODULUS
  }

  /** Difference between the previous and the current course, folded once into a turn. */
  function CourseDelta(previous: int, current: int): (d: int)
    ensures IsCourse(previous) && IsCourse(current) ==> 0 <= d <= 180
  {
    var delta := Abs(previous - current);
    Abs(if delta > 180 then delta - 360 else delta)
  }

  predicate IsCourse(c: int) { 0 <= c < 360 }

  /** For two courses the delta is the smaller of the two angles between them, whichever
      way round they are taken. */
  lemma CourseDeltaIsSmallestTurn(previous: int, current: int)
    requires IsCourse(previous) && IsCourse(current)
    ensures var d, raw := CourseDelta(previous, current), Abs(previous - current);
      && 0 <= d <= 180
      && d == (if raw <= 360 - raw then raw else 360 - raw)
      && d == CourseDelta(current, previous)
  {
  }

  lemma CourseDeltaExample()
    ensures CourseDelta(350, 10) == 20 && CourseDelta(10, 350) == 20
  {
  }

  /** The periodic beacon interval in milliseconds (tx_interval): the slow rate below
      LOW_SPEED, the fast rate above HIGH_SPEED and FAST_BEACON_RATE * HIGH_SPEED / speed
      seconds in between, truncated to whole milliseconds. */
  function BeaconInterval(speed: real): (ms: nat)
    requires speed >= 0.0
    ensures FAST_BEACON_RATE * 1000 <= ms <= FAST_BEACON_RATE * HIGH_SPEED * 1000 / LOW_SPEED
  {
    if speed < LOW_SPEED as real then SLOW_RATE * 1000
    else if speed > HIGH_SPEED as real then FAST_BEACON_RATE * 1000
    else MiddleBandInterval(speed)
  }

  function MiddleBandInterval(speed: real): (ms: nat)
    requires LOW_SPEED as real <= speed <= HIGH_SPEED as real
    ensures 30000 <= ms <= 540000
  {
    var x := (FAST_BEACON_RATE * HIGH_SPEED) as real / speed * 1000.0;
    MiddleBandBounds(speed);
    x.Floor
  }

  lemma MiddleBandBounds(speed: real)
    requires LOW_SPEED as real <= speed <= HIGH_SPEED as real
    ensures 30000.0 <= (FAST_BEACON_RATE * HIGH_SPEED) as real / speed * 1000.0 <= 540000.0
  {
    var q := 2700.0 / speed;
    assert q * speed == 2700.0;
  }

  /** TURN_MIN + TURN_SLOPE / speed in exact arithmetic: the value the loop converts to int
      for turn_threshold. It only exists for a moving tracker. */
  function ExactThreshold(speed: real): (t: real)
    requires speed > 0.0
    ensures t > TURN_MIN as real
  {
    TURN_MIN as real + (TURN_SLOPE as real) / speed
  }

  /** The conversion of the loop has no int to produce at speed 0, where the division is by
      zero, nor at 0.005 km/h, where the value is 48030 and a 16-bit int ends at 32767. */
  lemma ThresholdOutOfRange()
    ensures ExactThreshold(0.005) == 48030.0 > INT16_MAX as real
    ensures TurnThreshold(0.005) == None && TurnThreshold(0.0) == None
  {
    assert (TURN_SLOPE as real) / 0.005 == 48000.0;
  }

  /** The turn threshold in degrees (turn_threshold): TURN_MIN + TURN_SLOPE / speed,
      truncated to a 16-bit int. Where that has no int value the model has no threshold,
      and so no turn beacon. */
  function TurnThreshold(speed: real): (t: Option<int>)
    requires speed >= 0.0
    ensures t.Some? ==> speed > 0.0 && TURN_MIN <= t.value <= INT16_MAX
    ensures t.Some? ==> t.value as real <= ExactThreshold(speed) < t.value as real + 1.0
    ensures t.None? <==> speed == 0.0 || ExactThreshold(speed) >= (INT16_MAX + 1) as real
  {
    if speed == 0.0 then None
    else
      var v := TURN_MIN + ((TURN_SLOPE as real) / speed).Floor;
      if v > INT16_MAX then None else Some(v)
  }

  /** Below 1.6 km/h the threshold, where there is one, is at least 180 degrees. */
  lemma ThresholdAtLowSpeed(speed: real)
    requires 0.0 < speed < 1.6
    ensures TurnThreshold(speed).Some? ==> TurnThreshold(speed).value >= 180
  {
    var q := (TURN_SLOPE as real) / speed;
    assert q * speed == 240.0;
  }

  datatype AutoBeacon = NoBeacon | TurnBeacon | PeriodicBeacon

  /** The automatic beacon decision of one evaluated fix: a turn beacon when the course has
      turned past the threshold and the last beacon is more than MIN_TURN_TIME old; failing
      that, a periodic beacon when the last beacon is older than the interval. */
  function AutoDecision(lastTX: Millis, delta: int, speed: real, now: Millis): (b: AutoBeacon)
    requires speed >= 0.0
    ensures b == TurnBeacon ==>
      && speed > 0.0
      && delta > TURN_MIN + ((TURN_SLOPE as real) / speed).Floor
      && Elapsed(now, lastTX) > MIN_TURN_TIME * 1000
    ensures b == TurnBeacon <==>
      && TurnThreshold(speed).Some?
      && delta > TurnThreshold(speed).value
      && Elapsed(now, lastTX) > MIN_TURN_TIME * 1000
    ensures b == PeriodicBeacon <==> b != TurnBeacon && Elapsed(now, lastTX) > BeaconInterval(speed)
    ensures b == NoBeacon ==> Elapsed(now, lastTX) <= BeaconInterval(speed)
  {
    var threshold := TurnThreshold(speed);
    if threshold.Some? && delta > threshold.value && Elapsed(now, lastTX) > MIN_TURN_TIME * 1000 then
      TurnBeacon
    else if Elapsed(now, lastTX) > BeaconInterval(speed) then
      PeriodicBeacon
    else
      NoBeacon
  }

  /** No turn beacon below 1.6 km/h: the threshold is then at least 180 degrees and no
      course delta exceeds 180. */
  lemma NoTurnBeaconAtWalkingPace(lastTX: Millis, previous: int, current: int, speed: real, now: Millis)
    requires IsCourse(previous) && IsCourse(current) && 0.0 <= speed < 1.6
    ensures AutoDecision(lastTX, CourseDelta(previous, current), speed, now) != TurnBeacon
  {
    CourseDeltaIsSmallestTurn(previous, current);
    if speed > 0.0 {
      ThresholdAtLowSpeed(speed);
    }
  }

  /** The turn limit is shorter than every periodic interval. */
  lemma TurnLimitBelowInterval(speed: real)
    requires speed >= 0.0
    ensures MIN_TURN_TIME * 1000 < BeaconInterval(speed)
  {
  }

  /** In the middle band the interval does not grow with speed. */
  lemma IntervalNonIncreasing(s1: real, s2: real)
    requires LOW_SPEED as real <= s1 <= s2 <= HIGH_SPEED as real
    ensures BeaconInterval(s2) <= BeaconInterval(s1)
  {
    var q1, q2 := 2700.0 / s1, 2700.0 / s2;
    assert q1 * s1 == 2700.0 && q2 * s2 == 2700.0;
    assert q2 * 1000.0 <= q1 * 1000.0;
  }

  /** The three bands: slow below LOW_SPEED, fast from HIGH_SPEED on, and a jump at
      LOW_SPEED from 300 s up to 540 s, so speeds just above LOW_SPEED beacon less often
      than standing still. */
  lemma IntervalBands(speed: real)
    requires speed >= 0.0
    ensures speed < LOW_SPEED as real ==> BeaconInterval(speed) == SLOW_RATE * 1000
    ensures speed >= HIGH_SPEED as real ==> BeaconInterval(speed) == FAST_BEACON_RATE * 1000
    ensures BeaconInterval(LOW_SPEED as real) == 540000 > SLOW_RATE * 1000
  {
    assert (2700.0 / 90.0 * 1000.0).Floor == 30000;
    assert (2700.0 / 5.0 * 1000.0).Floor == 540000;
  }

  /** After start-up lastTX is 0, so the first periodic beacon waits until the clock has
      passed the interval: standing still, nothing is sent in the first five minutes. */
  lemma FirstBeaconWaits(delta: int, speed: real, now: Millis)
    requires speed >= 0.0
    ensures AutoDecision(0, delta, speed, now) == PeriodicBeacon ==> now > BeaconInterval(speed)
    ensures now <= SLOW_RATE * 1000 ==> AutoDecision(0, delta, 0.0, now) == NoBeacon
  {
  }

  /** A 90 degree turn at 50 km/h, 30 s after the last beacon: the threshold is
      30 + 240 / 50 = 34.8, truncated to 34, and a turn beacon goes out. */
  lemma SharpTurnSendsBeacon(lastTX: Millis, now: Millis)
    requires Elapsed(now, lastTX) == 30000
    ensures AutoDecision(lastTX, 90, 50.0, now) == TurnBeacon
  {
    assert TurnThreshold(50.0) == Some(34);
  }

  /** Driving fast and straight, ten seconds after the last beacon: nothing is sent. */
  lemma FastStraightRecent(lastTX: Millis, now: Millis)
    requires Elapsed(now, lastTX) == 10000
    ensures AutoDecision(lastTX, 5, 100.0, now) == NoBeacon
  {
    assert TurnThreshold(100.0) == Some(32);
  }

  datatype FixStatus = NoFix | Stale | Current

  /** How the loop classifies a fix: no fix, a stale one (only a warning), or a current one
      (which also toggles the fix LED). */
  function Classify(valid: bool, age: nat): (s: FixStatus)
    ensures s == NoFix <==> !valid
    ensures s == Stale <==> valid && age > STALE_AGE
    ensures s == Current <==> valid && age <= STALE_AGE
  {
    if !valid then NoFix else if age > STALE_AGE then Stale else Current
  }

  /** What one pass of the loop did: how it classified the fix, whether a manual beacon went
      out, which automatic beacon went out, and how many times locationUpdate was called. */
  datatype Outcome = Outcome(status: FixStatus, manual: bool, auto: AutoBeacon, transmissions: nat)

  /** The loop's beaconing state: the globals lastTX, previouscourse, courseDelta,
      tx_interval and turn_threshold. */
  class Beaconer {
    var lastTX: Millis
    var previousCourse: int
    var courseDelta: int
    var txInterval: nat
    var turnThreshold: Option<int>

    ghost predicate Valid()
      reads this
    {
      && IsCourse(previousCourse)
      && 0 <= courseDelta <= 180
      && (txInterval == 0 || FAST_BEACON_RATE * 1000 <= txInterval <= 540000)
    }

    /** Start-up: nothing sent yet, everything zero. */
    constructor ()
      ensures Valid()
      ensures lastTX == 0 && previousCourse == 0 && courseDelta == 0 && txInterval == 0
      ensures turnThreshold == Some(0)
    {
      lastTX, previousCourse, courseDelta, txInterval := 0, 0, 0, 0;
      turnThreshold := Some(0);
    }

    /** One pass of the loop with a newly decoded fix, read at clock time now. An invalid fix
        only refreshes courseDelta; a valid one, stale or not, is evaluated: a held button
        sends a manual beacon without touching lastTX, then a turn or periodic beacon may
        fire and moves lastTX to now, and the course is remembered for the next pass. */
    method Step(valid: bool, age: nat, speed: real, course: int, now: Millis, buttonPressed: bool)
      returns (outcome: Outcome)
      requires Valid() && speed >= 0.0 && IsCourse(course)
      modifies this
      ensures Valid()
      ensures outcome.status == Classify(valid, age)
      ensures courseDelta == CourseDelta(old(previousCourse), course)
      ensures !valid ==>
        && outcome == Outcome(NoFix, false, NoBeacon, 0)
        && lastTX == old(lastTX) && previousCourse == old(previousCourse)
        && txInterval == old(txInterval) && turnThreshold == old(turnThreshold)
      ensures valid ==>
        && outcome.manual == buttonPressed
        && outcome.transmissions == (if buttonPressed then 1 else 0) + (if outcome.auto == NoBeacon then 0 else 1)
        && outcome.auto == AutoDecision(old(lastTX), courseDelta, speed, now)
        && lastTX == (if outcome.auto == NoBeacon then old(lastTX) else now)
        && previousCourse == course
        && txInterval == BeaconInterval(speed)
        && turnThreshold == TurnThreshold(speed)
    {
      courseDelta := CourseDelta(previousCourse, course);
      CourseDeltaIsSmallestTurn(previousCourse, course);
      var status := Classify(valid, age);
      if !valid {
        return Outcome(status, false, NoBeacon, 0);
      }

      // the manual beacon goes out first and leaves lastTX alone
      var manual := buttonPressed;
      var sent := if manual then 1 else 0;

      txInterval := BeaconInterval(speed);
      turnThreshold := TurnThreshold(speed);

      var auto := NoBeacon;
      if turnThreshold.Some? && courseDelta > turnThreshold.value {
        if Elapsed(now, lastTX) > MIN_TURN_TIME * 1000 {
          auto := TurnBeacon;
          sent := sent + 1;
          lastTX := now;
        }
      }

      previousCourse := course;

      if Elapsed(now, lastTX) > txInterval {
        auto := PeriodicBeacon;
        sent := sent + 1;
        lastTX := now;
      }
      outcome := Outcome(status, manual, auto, sent);
    }
  }
}

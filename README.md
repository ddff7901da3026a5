# Arduino APRS Tracker: position text and SmartBeaconing in Dafny

A model of the core of the Arduino APRS Tracker. The tracker reads a GPS receiver and sends
APRS position reports through a software modem. Three of its jobs are modelled:

- **Coordinate text (`deg_to_nmea`).** A signed coordinate in millionths of a degree is
  encoded as the fixed-width APRS text `DDMM.hhN`/`DDMM.hhS` for a latitude, or
  `DDDMM.hhE`/`DDDMM.hhW` for a longitude (chapter 6 of the APRS Protocol Reference 1.0.1).
  It is written at fixed offsets into the shared 16-character conversion buffer.
- **Altitude comment (`locationUpdate`).** The comment of a report is built in a
  36-character buffer with `sprintf` and two `strcat` calls: `"/A="`, the altitude in feet
  as `%06d`, then `"Arduino APRS Tracker"`.
- **SmartBeaconing step (`loop()`).** For every newly decoded fix, the loop:
  - computes the course change;
  - computes the periodic beacon interval for the current speed, and the turn threshold;
  - decides whether a turn beacon or a periodic beacon goes out;
  - updates its state: `lastTX`, `previouscourse`, `courseDelta`, `tx_interval` and
    `turn_threshold`.
- **Settings.** The SmartBeaconing constants of `configuration.h`.

The target is an AVR board:

- `int` is 16 bits, and `long` and `unsigned long` are 32 bits.
- `millis()` differences are taken modulo 2^32 (`Elapsed`).
- The turn threshold is a 16-bit `int`.
- Speeds are exact `real`s, and the float-to-integer truncations are `.Floor`.

Modules:

- `Decimal` (decimal.dfy) holds the printf conversions `%0<w>lu` and `%0<w>d`, and their
  read-back `ValueOf`.
- `CStrings` (cstrings.dfy) holds the C buffer operations on `array<char>`: a string
  literal initialiser, `snprintf`/`sprintf` of already-formatted text, `strlen` and
  `strcat`.
- `Configuration` (configuration.dfy) holds the settings.
- `Position` (position.dfy) holds `deg_to_nmea` and the comment builder.
- `SmartBeaconing` (beaconing.dfy) holds the loop step, as the class `Beaconer`, whose
  fields are the loop's globals.

Where the code's behaviour differs from what a reader might expect, the model follows the
code:

- A manual (button) beacon does not move `lastTX`, so it does not postpone the next
  automatic beacon.
- `lastTX` starts at 0, so the first periodic beacon waits until the clock passes the
  interval. Standing still, nothing is sent during the first five minutes.
- Speeds from 5 km/h up to about 9 km/h get a longer interval (540 s down to 300 s) than
  standing still (300 s).

## Model

| member | source | states |
|---|---|---|
| Configuration.SpeedBands | arduino-aprs-tracker/configuration.h:12-13 | LOW_SPEED < HIGH_SPEED, so the three interval branches are disjoint and every non-negative speed falls in exactly one |
| Configuration.RateConstants | arduino-aprs-tracker/configuration.h:12-20 | MIN_TURN_TIME < FAST_BEACON_RATE < SLOW_RATE; the in-between formula gives FAST_BEACON_RATE at HIGH_SPEED and 540 s, more than SLOW_RATE, at LOW_SPEED |
| Decimal.FormatUnsigned | arduino-aprs-tracker/arduino-aprs-tracker.cpp:284-290 | `%0<w>lu` text: max(w, digit count) decimal digits that read back as the value; for a value below 10^w it is exactly the last w digits |
| Decimal.FormatSigned | arduino-aprs-tracker/arduino-aprs-tracker.cpp:236 | `%0<w>d` text: it starts with '-' exactly when the value is negative; the rest is decimal digits that read back as the magnitude; its length is max(w, digit count of the magnitude, plus one for the sign) |
| CStrings.CString | arduino-aprs-tracker/arduino-aprs-tracker.cpp:254 | the string a buffer holds is the prefix before the first NUL; it holds no NUL, and it is shorter than the buffer whenever the buffer contains a NUL |
| CStrings.InitBuffer | arduino-aprs-tracker/arduino-aprs-tracker.cpp:231-233 | `char b[n] = "lit"`: a fresh n-character array holding the literal and then NULs, which reads back as the literal |
| CStrings.PutString | arduino-aprs-tracker/arduino-aprs-tracker.cpp:284-290 | snprintf into buf + off with a size limit: the first min(len, size - 1) characters of the text, then NUL; every other cell unchanged; returns the length of the whole text, as snprintf does |
| CStrings.Sprintf | arduino-aprs-tracker/arduino-aprs-tracker.cpp:236 | sprintf of a text that fits: the text, then NUL, then the old contents |
| CStrings.StrLen | arduino-aprs-tracker/arduino-aprs-tracker.cpp:254 | strlen: the length of the buffer's string, and the index of its terminator |
| CStrings.StrCat | arduino-aprs-tracker/arduino-aprs-tracker.cpp:237-238 | strcat: the source string and its NUL overwrite the destination's terminator, the rest is untouched, and the destination's string becomes the concatenation |
| Position.AprsCoordinate | arduino-aprs-tracker/arduino-aprs-tracker.cpp:264-268 | the APRS coordinate is 8 (latitude) or 9 (longitude) characters: digits, '.' fourth from the end, two digits, then the hemisphere letter N/S or E/W chosen by the sign |
| Position.DegToNmea | arduino-aprs-tracker/arduino-aprs-tracker.cpp:270-303 | the returned string is the APRS coordinate; the buffer holds it from offset 1 after a pad '0' (latitude) or from offset 0 (longitude), NUL-terminated at 9, with offsets 10-15 unchanged |
| Position.FillConvBuf | arduino-aprs-tracker/arduino-aprs-tracker.cpp:281-291 | the buffer writes: five digits of a, '.', two digits of b, the hemisphere letter, NUL; offsets 10-15 unchanged |
| Position.PutDegreesMinutes | arduino-aprs-tracker/arduino-aprs-tracker.cpp:281-287 | after the pad digit and the `%04lu` snprintf at offset 0 or 1, the first five characters are the five-digit text of a |
| Position.FourDigitFormat | arduino-aprs-tracker/arduino-aprs-tracker.cpp:283-287 | `%04lu` of a number below 100000 prints five digits when it exceeds 9999, else four |
| Position.DigitsLeadingZero | arduino-aprs-tracker/arduino-aprs-tracker.cpp:281-286 | for a ≤ 9999 the five-digit text is the pad '0' followed by the four-digit text, so writing at offset 1 after the pad gives the same buffer |
| Position.DegreeMinuteValue | arduino-aprs-tracker/arduino-aprs-tracker.cpp:277-278 | a = degrees * 100 + minutes is at most 18059, with a / 100 the whole degrees and a % 100 the minutes, below 60 |
| Position.DegreeMinuteDigits | arduino-aprs-tracker/arduino-aprs-tracker.cpp:278-287 | the five digits of a are three degree digits and two minute digits; the four digits are two degree digits and the two minute digits |
| Position.MinuteFraction | arduino-aprs-tracker/arduino-aprs-tracker.cpp:277-279 | for a fraction f of a degree: minutes < 60, hundredths < 100, and minutes * 100 + hundredths = floor(6 f / 1000) |
| Position.CoordinateFields | arduino-aprs-tracker/arduino-aprs-tracker.cpp:277-279 | read back, the three digit fields are the whole degrees, the minutes (below 60) and the hundredths; together the minute fields are 6 (deg mod 10^6) / 1000 |
| Position.LongitudePadding | arduino-aprs-tracker/arduino-aprs-tracker.cpp:281-287 | a longitude under 100 degrees starts with '0' |
| Position.SignOnlyChangesHemisphere | arduino-aprs-tracker/arduino-aprs-tracker.cpp:271-300 | for d > 0, the texts of d and -d differ only in the last character: N/S for latitude, E/W for longitude |
| Position.LatitudeExample | arduino-aprs-tracker/arduino-aprs-tracker.cpp:264-268 | 45123400 as a latitude is "4507.40N" |
| Position.LongitudeExample | arduino-aprs-tracker/arduino-aprs-tracker.cpp:264-268 | -122419400 as a longitude is "12225.16W" |
| Position.AltitudeTextWidth | arduino-aprs-tracker/arduino-aprs-tracker.cpp:232-236 | for altitudes from -999999 to 9999999 the `%06d` text has 6 or 7 characters, fitting temp[8] with its NUL |
| Position.AltitudeSixChars | arduino-aprs-tracker/arduino-aprs-tracker.cpp:236 | from -99999 to 999999, `%06d` is six digits, or a minus sign and five digits of the magnitude |
| Position.AltitudeComment | arduino-aprs-tracker/arduino-aprs-tracker.cpp:226-238 | the comment starts with "/A=", ends with "Arduino APRS Tracker", contains no NUL and fits the 36-character buffer |
| Position.AltitudeCommentLayout | arduino-aprs-tracker/arduino-aprs-tracker.cpp:226-238 | for 0..999999 feet the comment is 29 characters: "/A=", six digits reading back as the altitude, then the comment text; for -99999..-1, '-' and five digits of the magnitude |
| Position.LocationComment | arduino-aprs-tracker/arduino-aprs-tracker.cpp:231-238 | the sprintf/strcat sequence on the three arrays leaves exactly the altitude comment as the string of APRS_comment |
| SmartBeaconing.Elapsed | arduino-aprs-tracker/arduino-aprs-tracker.cpp:197-208 | `millis() - lastTX` in unsigned long: now - since, or 2^32 - since + now across a clock wrap |
| SmartBeaconing.CourseDelta | arduino-aprs-tracker/arduino-aprs-tracker.cpp:135-140 | for two courses the delta lies in 0..180; CourseDeltaIsSmallestTurn proves it is the smaller angle between them and symmetric |
| SmartBeaconing.CourseDeltaIsSmallestTurn | arduino-aprs-tracker/arduino-aprs-tracker.cpp:135-140 | for courses 0..359 the delta is in 0..180, equals min(abs(p - c), 360 - abs(p - c)), and is symmetric |
| SmartBeaconing.CourseDeltaExample | arduino-aprs-tracker/arduino-aprs-tracker.cpp:135-140 | courses 350 and 10 give 20, in either order |
| SmartBeaconing.BeaconInterval | arduino-aprs-tracker/arduino-aprs-tracker.cpp:183-192 | the interval is always between 30000 ms (FAST_BEACON_RATE) and 540000 ms |
| SmartBeaconing.MiddleBandInterval | arduino-aprs-tracker/arduino-aprs-tracker.cpp:191 | between LOW_SPEED and HIGH_SPEED, floor(2700 / speed * 1000) lies in 30000..540000 ms |
| SmartBeaconing.MiddleBandBounds | arduino-aprs-tracker/arduino-aprs-tracker.cpp:191 | in exact arithmetic 2700 / speed * 1000 lies between 30000 and 540000 in the middle band |
| SmartBeaconing.IntervalBands | arduino-aprs-tracker/arduino-aprs-tracker.cpp:183-192 | 300000 ms below LOW_SPEED, 30000 ms from HIGH_SPEED on, and 540000 ms at LOW_SPEED itself: a jump upward |
| SmartBeaconing.IntervalNonIncreasing | arduino-aprs-tracker/arduino-aprs-tracker.cpp:189-192 | in the middle band a higher speed never gives a longer interval |
| SmartBeaconing.TurnLimitBelowInterval | arduino-aprs-tracker/arduino-aprs-tracker.cpp:183-197 | MIN_TURN_TIME (20000 ms) is below every interval |
| SmartBeaconing.ExactThreshold | arduino-aprs-tracker/arduino-aprs-tracker.cpp:194 | the exact value TURN_MIN + TURN_SLOPE / speed exceeds TURN_MIN for a moving tracker |
| SmartBeaconing.ThresholdOutOfRange | arduino-aprs-tracker/arduino-aprs-tracker.cpp:194 | at 0.005 km/h the value is 48030, beyond a 16-bit int; at 0.005 and at 0 the model has no threshold |
| SmartBeaconing.TurnThreshold | arduino-aprs-tracker/arduino-aprs-tracker.cpp:194 | when it exists the threshold is the floor of TURN_MIN + TURN_SLOPE / speed, in TURN_MIN..32767; it is absent exactly at speed 0 or when that value reaches 32768 |
| SmartBeaconing.ThresholdAtLowSpeed | arduino-aprs-tracker/arduino-aprs-tracker.cpp:194 | below 1.6 km/h the threshold is at least 180 degrees |
| SmartBeaconing.AutoDecision | arduino-aprs-tracker/arduino-aprs-tracker.cpp:194-214 | a turn beacon exactly when there is a threshold, the delta exceeds it and more than 20 s have passed since the last beacon; otherwise a periodic beacon exactly when the interval has passed; no beacon only within the interval |
| SmartBeaconing.SharpTurnSendsBeacon | arduino-aprs-tracker/arduino-aprs-tracker.cpp:194-204 | a 90 degree turn at 50 km/h (threshold 34), 30 s after the last beacon, sends a turn beacon |
| SmartBeaconing.NoTurnBeaconAtWalkingPace | arduino-aprs-tracker/arduino-aprs-tracker.cpp:194-204 | below 1.6 km/h no course change can trigger a turn beacon |
| SmartBeaconing.FirstBeaconWaits | arduino-aprs-tracker/arduino-aprs-tracker.cpp:208-214 | with lastTX = 0 at start-up, a periodic beacon needs now > interval; standing still, nothing is sent in the first 300 s |
| SmartBeaconing.FastStraightRecent | arduino-aprs-tracker/arduino-aprs-tracker.cpp:194-214 | at 100 km/h with a 5 degree turn, 10 s after the last beacon, nothing is sent |
| SmartBeaconing.Classify | arduino-aprs-tracker/arduino-aprs-tracker.cpp:142-157 | no fix exactly when the location is invalid; stale exactly when it is valid and older than 5000 ms; current otherwise |
| SmartBeaconing.Beaconer.constructor | arduino-aprs-tracker/arduino-aprs-tracker.cpp:52-54 | start-up state: lastTX, previouscourse, courseDelta, tx_interval and turn_threshold all zero |
| SmartBeaconing.Beaconer.Step | arduino-aprs-tracker/arduino-aprs-tracker.cpp:132-216 | keeps the state invariant; courseDelta is always refreshed; an invalid fix sends nothing and leaves lastTX, previouscourse, tx_interval and turn_threshold unchanged; a valid fix, stale or current, sends a manual beacon exactly when the button is held, sends the automatic beacon AutoDecision chooses, counts at most one automatic transmission, moves lastTX to now only for an automatic beacon, and remembers the course |

## Left out

- GPS input: the serial read loop, the NMEA parsing in TinyGPS++ and the scaling of latitude and longitude to millionths are left out. `DegToNmea` takes the scaled coordinate, within 90 or 180 degrees.
- Date, time, metre altitude, the fix LED, the serial log and every `Serial` print: output only, left out. The fix status is still reported by `Step`.
- Radio and modem: `APRS_init`, callsign, SSID and symbol setup, `APRS_setLat`/`Lon`/`Speed`/`Course`, `APRS_sendLoc` and the empty message callback are left out. A transmission is modelled as a count in `Step`'s outcome. The callsign, SSID and symbol settings are not modelled.
- Busy-waits: the button debounce, the wait for the end of transmission and the SoftwareSerial restart are left out.
- A loop pass without a newly decoded sentence does nothing, so it is not modelled; `Step` models a pass that has one.
- SmartBeaconing.Beaconer.Step: reads the clock once, as `now`. In the source the clock moves on during a step: `locationUpdate` waits until the modem has finished sending, so each transmission takes its full duration, and a manual beacon also waits while the button is held. The `millis()` reads after a manual beacon and after each automatic beacon, which decide the turn test and set `lastTX`, therefore come that much later than the model's `now`.
- SmartBeaconing.Beaconer.Step: requires the course in 0..359 and a non-negative speed, which the GPS library delivers.
- SmartBeaconing.TurnThreshold: where the source's float-to-int conversion is undefined (speed 0, or speed below about 0.0073 km/h), the model has no threshold and therefore no turn beacon. It does not claim what the hardware actually computes there.
- Floating point: speed is an exact real, so float rounding in the interval and threshold divisions is not modelled.
- Position.LocationComment: requires an altitude from -999999 to 9999999 feet, the range whose `%06d` text fits `temp[8]`. The 16-bit `int ialt` always lies in it, and the double-to-int conversion of the altitude is left out.
- The shared static `conv_buf` is passed to `DegToNmea` as an array. Two calls in one expression, which overwrite each other's result in C, are not modelled.

## Findings

| source | as written | input that shows it | evidently intended | confidence | as-written member | corrected member |
|---|---|---|---|---|---|---|
| arduino-aprs-tracker/arduino-aprs-tracker.cpp:194 | `turn_threshold = TURN_MIN + TURN_SLOPE / fkmph` divides by the speed and converts the float result to a 16-bit int | speed 0 (standing still: division by zero), or speed 0.005 km/h (value 48030, beyond 32767); both conversions are undefined behaviour | no turn threshold, hence no turn beacon, when the tracker is not moving | not executed | SmartBeaconing.ThresholdOutOfRange | SmartBeaconing.TurnThreshold |

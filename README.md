# Thrust-imbalance detector

A model of the thrust-imbalance detector of the Betaflight flight controller
(`src/main/flight/flight_health.c`), with proofs of its timing behaviour.

The detector runs once per control-loop tick. It is switched on only while the
craft is armed, is not a fixed-wing, has a positive I-sum threshold configured,
is not in crash-flip recovery and does not have low throttle. While switched
on, it adds up the magnitudes of the roll, pitch and yaw I terms. A trigger
deadline is armed the first time the sum reaches the threshold and is kept
until the sum falls below it. When a still-above-threshold tick reaches the
deadline, the detector raises its flag and sets the untrigger deadline to the
untrigger delay after that tick. Below the threshold the trigger deadline is
dropped at once, and the flag falls only when a pending untrigger deadline
has been reached. When the detector is switched off, all three state variables
are reset on the same tick. A deadline of 0 means "none pending".

`flight_health.dfy` (module `FlightHealth`) holds the data model:
- the pid-profile settings, the per-tick inputs and the state;
- `Step`, the effect of one tick as a function;
- `Run`, which applies a sequence of ticks;
- the class `ThrustImbalanceDetector`, whose fields are the three persistent
  variables of the C file. Its `Process` method makes the same in-place
  updates, branch for branch, and is proved to agree with `Step`.

`thrust_imbalance_properties.dfy` (module `ThrustImbalanceProperties`) proves
what holds across sequences of ticks: reset while switched off, debounce of
the trigger, hysteresis of the untrigger, and when the flag and the untrigger
deadline agree.

Modelling choices:
- Time is an unbounded natural number of microseconds. `cmpTimeUs(a, b) >= 0`
  becomes `a >= b` (`FlightHealth.Reached`).
- The I terms are `real`, and the absolute value is exact.
- The threshold setting is an integer. It is compared with 0 as an integer and
  with the I sum as a real, as the C code converts it to `float`.
- The inputs the C code reads from globals are parameters of `Process`: the
  arming flag, fixed-wing, crash-flip, throttle status, the pid I terms and the
  current pid profile.

The code and some descriptions of the detector disagree in one place. Those
descriptions say the untrigger deadline is handled only on below-threshold ticks.
The code (lines 85-87) also sets it again on every above-threshold tick that
has reached the trigger deadline. The model follows the code. This is why
hysteresis is measured from the LAST confirming tick
(`DetectionHoldsUntilUntrigger`, `HysteresisAfterDrop`).

The flag is up exactly while an untrigger deadline is pending
(`RunKeepsCoherent`), but only if no tick happens at time 0. At time 0, with
both delays set to 0, the untrigger deadline computed on triggering is 0, which
is the "unset" value. The flag then stays up however long the signal stays
below the threshold (`TimeZeroLatch`). In the firmware the same collision
happens whenever `now + untriggerDelay` wraps to exactly 0 in 32 bits. That
case is outside this model (see below).

## Model

| member | source | states |
|---|---|---|
| `FlightHealth.TenthsToUs` | src/main/flight/flight_health.c:72-73 | a delay in tenths of a second becomes a whole multiple of 100000 microseconds, and dividing it back by 100000 gives the configured tenths |
| `FlightHealth.ISum` | src/main/flight/flight_health.c:76-79 | the signal is at least the magnitude of each single axis's I term (hence never negative) |
| `FlightHealth.ThrustImbalanceDetector.constructor` | src/main/flight/flight_health.c:48-63 | at start-up the flag is down and neither deadline is set |
| `FlightHealth.ThrustImbalanceDetector.IsDetected` | src/main/flight/flight_health.c:50-57 | returns exactly the stored flag when the detector is compiled in and false when it is compiled out; it only reads the state |
| `FlightHealth.ThrustImbalanceDetector.Process` | src/main/flight/flight_health.c:60-109 | the new state equals `Step` of the old one; gated off means everything is reset on this tick; above threshold, an unset trigger deadline is armed at now + trigger delay and a pending one is kept; on reaching it, the flag rises and the untrigger deadline becomes now + untrigger delay, otherwise flag and untrigger are unchanged; below threshold, the trigger deadline is cleared, and the flag and untrigger deadline are cleared if a pending untrigger deadline has been reached and are otherwise unchanged |
| `ThrustImbalanceProperties.ISumZeroIffBalanced` | src/main/flight/flight_health.c:76-79 | the signal is 0 exactly when all three I terms are 0 |
| `ThrustImbalanceProperties.ISumIgnoresSigns` | src/main/flight/flight_health.c:76-79 | flipping the sign of any or all I terms leaves the signal unchanged |
| `ThrustImbalanceProperties.DisarmClearsDetection` | src/main/flight/flight_health.c:65-69 | a disarmed tick resets flag and both deadlines, whatever the prior state |
| `ThrustImbalanceProperties.GateClosedResets` | src/main/flight/flight_health.c:100-103 | any non-empty run of gated-off ticks (not armed, fixed wing, threshold <= 0, crash-flip or throttle low) ends with the flag down and both deadlines 0, whatever the prior state |
| `ThrustImbalanceProperties.QuietRunStaysReset` | src/main/flight/flight_health.c:89-103 | from the reset state, ticks that are gated off or below threshold keep the detector reset |
| `ThrustImbalanceProperties.PendingTriggerIsStable` | src/main/flight/flight_health.c:81-85 | above-threshold ticks before a pending trigger deadline change nothing: the deadline is never pushed later and the flag is not touched |
| `ThrustImbalanceProperties.ImbalanceKeepsDetected` | src/main/flight/flight_health.c:81-88 | above-threshold ticks never lower the flag |
| `ThrustImbalanceProperties.TriggerFiresWhenDue` | src/main/flight/flight_health.c:85-88 | with a trigger deadline pending, a run of above-threshold ticks whose last tick reaches it ends with the flag up |
| `ThrustImbalanceProperties.ShortBurstNeverDetects` | src/main/flight/flight_health.c:81-85 | a burst of above-threshold ticks all within the trigger delay of its first tick, started with no trigger pending, leaves the flag down and the deadline at first tick + trigger delay, untrigger deadline untouched |
| `ThrustImbalanceProperties.SustainedImbalanceDetects` | src/main/flight/flight_health.c:81-88 | a run of above-threshold ticks started with no trigger pending whose last tick is at least the trigger delay after its first ends with the flag up |
| `ThrustImbalanceProperties.TriggerDebounce` | src/main/flight/flight_health.c:81-88 | for monotonic time, starting undetected with no trigger pending, a run of above-threshold ticks ends detected if and only if it lasted at least the trigger delay |
| `ThrustImbalanceProperties.BurstThenDropLeavesNoCredit` | src/main/flight/flight_health.c:81-90 | a burst shorter than the trigger delay followed by one below-threshold tick leaves the flag down and no trigger deadline pending |
| `ThrustImbalanceProperties.DetectionHoldsUntilUntrigger` | src/main/flight/flight_health.c:81-95 | once a tick at time `since` raised or confirmed the flag, gated-on ticks before `since` + untrigger delay keep it up whatever the signal does |
| `ThrustImbalanceProperties.UntriggerAfterDelay` | src/main/flight/flight_health.c:89-95 | with an untrigger deadline pending, below-threshold ticks whose last one reaches it end fully reset |
| `ThrustImbalanceProperties.HysteresisAfterDrop` | src/main/flight/flight_health.c:89-95 | for monotonic time after the last confirming tick at `since`, a run of below-threshold ticks ends detected if and only if its last tick is before `since` + untrigger delay |
| `ThrustImbalanceProperties.StepKeepsCoherent` | src/main/flight/flight_health.c:86-93 | a tick at a time after 0 keeps "flag up exactly while an untrigger deadline is pending" |
| `ThrustImbalanceProperties.RunKeepsCoherent` | src/main/flight/flight_health.c:86-93 | any run of ticks after time 0 keeps "flag up exactly while an untrigger deadline is pending" |
| `ThrustImbalanceProperties.TimeZeroLatch` | src/main/flight/flight_health.c:83-91 | with both delays 0, an above-threshold tick at time 0 leaves the flag up with both deadlines 0, and below-threshold ticks after it never lower the flag |
| `ThrustImbalanceProperties.LatchedStaysLatched` | src/main/flight/flight_health.c:89-95 | below-threshold ticks leave a raised flag with no untrigger deadline pending exactly as it is |
| `ThrustImbalanceProperties.SumModelTimeline` | src/main/flight/flight_health.c:72-95 | with threshold 5, trigger delay 0.3 s, untrigger delay 1.0 s and an I sum of 6 from time 0, the flag rises at 0.3 s; after a drop to 0 it stays up until 1.3 s and falls then |

## Left out

- The `DEBUG_SET` writes (lines 97-99 and 105-107). They only fill a diagnostic sink and do not affect the state.
- Floating point. `fabsf` and the `float` threshold are exact real arithmetic here, so rounding and NaN are not modelled.
- The 32-bit wrap-around of `timeUs_t` and of `currentTimeUs + delay`. The definition of `cmpTimeUs` (common/time.h) is not part of this model, and time is unbounded.
- The widths of the pid-profile fields. pid.h is not part of this model, so an overflow of `delay * 100000` is not modelled.
- Where the inputs come from: `ARMING_FLAG`, `isFixedWing`, `isFlipOverAfterCrashActive`, `calculateThrottleStatus`, `pidData` and `currentPidProfile`. They are parameters of `Process`.
- The `USE_THRUST_IMBALANCE_DETECTION` build option is the `compiledIn` constant. It makes `IsDetected` answer false, and `Process` requires it because the routine does not exist without it.
- The I-term product variant with a 500 ms disable window after low throttle or high gyro rates. It is not in this version of the file.

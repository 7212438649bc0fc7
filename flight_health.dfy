/**
  The thrust-imbalance detector of the flight controller.

  Once per control-loop tick the detector looks at the integral (I) terms of
  the roll, pitch and yaw rate controllers. When their summed magnitude stays
  at or above a configured threshold for the trigger delay, it raises a flag;
  the flag is lowered again only once the untrigger delay has passed since the
  last tick that (re)confirmed it. Whenever the detector is gated off (not
  armed, fixed wing, no threshold configured, crash-flip active, throttle low)
  its whole state is reset on that very tick.

  Time is an unbounded count of microseconds. The firmware's unsigned 32-bit
  time and its wrap-aware comparison are modelled by plain `>=` on `nat` (see
  `Reached`). A deadline of 0 means "no deadline pending", as in the firmware.
*/
module FlightHealth {

  /** Microseconds in one configured tenth of a second. */
  const UsPerTenth: nat := 100000

  /** The pid-profile settings the detector reads on every tick. */
  datatype PidProfile = PidProfile(
    isumThreshold: int,   // 0 or less switches detection off
    triggerDelay: nat,    // tenths of a second
    untriggerDelay: nat)  // tenths of a second

  /** What the rest of the flight controller supplies on one tick. */
  datatype FlightInputs = FlightInputs(
    armed: bool,
    fixedWing: bool,
    flipOverAfterCrash: bool,
    throttleLow: bool,
    iRoll: real,
    iPitch: real,
    iYaw: real)

  /** One call of the detector: the current time and the inputs seen then. */
  datatype Tick = Tick(now: nat, flight: FlightInputs)

  /** The persistent state of the detector; a deadline of 0 is "unset". */
  datatype State = State(detected: bool, triggerUs: nat, untriggerUs: nat)

  /** The state at start-up, and the state every gated-off tick leaves. */
  const Reset: State := State(false, 0, 0)

  /** A configured delay in tenths of a second, converted to microseconds. */
  function TenthsToUs(tenths: nat): (us: nat)
    ensures us % UsPerTenth == 0 && us / UsPerTenth == tenths
  {
    tenths * UsPerTenth
  }

  /** The firmware's `cmpTimeUs(now, deadline) >= 0`, on unbounded time. */
  predicate Reached(now: nat, deadline: nat) {
    now >= deadline
  }

  function Abs(x: real): (r: real)
    ensures r >= 0.0 && (r == x || r == -x)
  {
    if x < 0.0 then -x else x
  }

  /** The detection signal: the summed magnitude of the three I terms. */
  function ISum(f: FlightInputs): (sum: real)
    ensures sum >= Abs(f.iRoll) && sum >= Abs(f.iPitch) && sum >= Abs(f.iYaw)
  {
    Abs(f.iRoll) + Abs(f.iPitch) + Abs(f.iYaw)
  }

  /** The gate under which detection runs at all. */
  predicate GateOpen(p: PidProfile, f: FlightInputs) {
    f.armed && !f.fixedWing && p.isumThreshold > 0 && !f.flipOverAfterCrash && !f.throttleLow
  }

  predicate AboveThreshold(p: PidProfile, f: FlightInputs) {
    ISum(f) >= p.isumThreshold as real
  }

  /** The effect of one tick on the detector's state. */
  function Step(s: State, p: PidProfile, t: Tick): State {
    if !GateOpen(p, t.flight) then
      Reset
    else if AboveThreshold(p, t.flight) then
      var deadline := if s.triggerUs == 0 then t.now + TenthsToUs(p.triggerDelay) else s.triggerUs;
      if Reached(t.now, deadline) then
        State(true, deadline, t.now + TenthsToUs(p.untriggerDelay))
      else
        s.(triggerUs := deadline)
    else if s.untriggerUs != 0 && Reached(t.now, s.untriggerUs) then
      State(false, 0, 0)
    else
      s.(triggerUs := 0)
  }

  /** The state after a sequence of ticks, applied first to last. */
  function Run(s: State, p: PidProfile, ticks: seq<Tick>): State
    decreases |ticks|
  {
    if ticks == [] then s else Run(Step(s, p, ticks[0]), p, ticks[1..])
  }

  /**
    The detector's three persistent variables. `compiledIn` stands for the
    build option that includes the detector; without it the processing
    routine does not exist and the accessor always answers false.
  */
  class ThrustImbalanceDetector {
    const compiledIn: bool
    var detected: bool
    var triggerUs: nat
    var untriggerUs: nat

    constructor (compiledIn: bool)
      ensures this.compiledIn == compiledIn
      ensures !detected && triggerUs == 0 && untriggerUs == 0
    {
      this.compiledIn := compiledIn;
      detected, triggerUs, untriggerUs := false, 0, 0;
    }

    /** The abstract value of the object. */
    function Current(): State
      reads this
    {
      State(detected, triggerUs, untriggerUs)
    }

    /** The published flag; always false when the detector is compiled out. */
    function IsDetected(): (r: bool)
      reads this
      ensures compiledIn ==> r == detected
      ensures !compiledIn ==> !r
    {
      compiledIn && detected
    }

    /** One control-loop tick of the detector. */
    method Process(currentTimeUs: nat, flight: FlightInputs, profile: PidProfile)
      requires compiledIn
      modifies this
      ensures Current() == Step(old(Current()), profile, Tick(currentTimeUs, flight))
      // gated off: everything is reset on this tick, whatever came before
      ensures !GateOpen(profile, flight) ==> !detected && triggerUs == 0 && untriggerUs == 0
      // above threshold: a pending trigger deadline is kept, an unset one is armed
      ensures GateOpen(profile, flight) && AboveThreshold(profile, flight) ==>
        triggerUs == (if old(triggerUs) == 0 then currentTimeUs + TenthsToUs(profile.triggerDelay) else old(triggerUs))
      ensures GateOpen(profile, flight) && AboveThreshold(profile, flight) && Reached(currentTimeUs, triggerUs) ==>
        detected && untriggerUs == currentTimeUs + TenthsToUs(profile.untriggerDelay)
      ensures GateOpen(profile, flight) && AboveThreshold(profile, flight) && !Reached(currentTimeUs, triggerUs) ==>
        detected == old(detected) && untriggerUs == old(untriggerUs)
      // below threshold: the trigger deadline is dropped; the flag falls only at a pending untrigger deadline
      ensures GateOpen(profile, flight) && !AboveThreshold(profile, flight) ==> triggerUs == 0
      ensures GateOpen(profile, flight) && !AboveThreshold(profile, flight) ==>
        if old(untriggerUs) != 0 && Reached(currentTimeUs, old(untriggerUs))
        then !detected && untriggerUs == 0
        else detected == old(detected) && untriggerUs == old(untriggerUs)
    {
      if flight.armed && !flight.fixedWing && profile.isumThreshold > 0
         && !flight.flipOverAfterCrash && !flight.throttleLow
      {
        var threshold := profile.isumThreshold as real;
        var triggerDelayUs := TenthsToUs(profile.triggerDelay);
        var untriggerDelayUs := TenthsToUs(profile.untriggerDelay);
        var iSum := Abs(flight.iRoll) + Abs(flight.iPitch) + Abs(flight.iYaw);

        if iSum >= threshold {
          if triggerUs == 0 {
            triggerUs := currentTimeUs + triggerDelayUs;
          }
          if Reached(currentTimeUs, triggerUs) {
            untriggerUs := currentTimeUs + untriggerDelayUs;
            detected := true;
          }
        } else {
          triggerUs := 0;
          if untriggerUs != 0 && Reached(currentTimeUs, untriggerUs) {
            untriggerUs := 0;
            detected := false;
          }
        }
      } else {
        triggerUs := 0;
        untriggerUs := 0;
        detected := false;
      }
    }
  }
}

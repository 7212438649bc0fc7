/**
  What the detector guarantees over sequences of ticks: reset while gated off,
  debounce of the trigger, hysteresis of the untrigger, and the invariant that
  the flag is up exactly while an untrigger deadline is pending.
*/
module ThrustImbalanceProperties {
  import opened FlightHealth

  /** A tick on which detection runs and the signal is at or above threshold. */
  predicate Imbalanced(p: PidProfile, t: Tick) {
    GateOpen(p, t.flight) && AboveThreshold(p, t.flight)
  }

  /** A tick on which detection runs and the signal is below threshold. */
  predicate Balanced(p: PidProfile, t: Tick) {
    GateOpen(p, t.flight) && !AboveThreshold(p, t.flight)
  }

  /** Timestamps never go backwards (the firmware clock is monotonic). */
  predicate Monotonic(ticks: seq<Tick>) {
    forall i, j :: 0 <= i <= j < |ticks| ==> ticks[i].now <= ticks[j].now
  }

  /** The flag is up exactly while an untrigger deadline is pending. */
  predicate Coherent(s: State) {
    s.detected <==> s.untriggerUs != 0
  }

  lemma {:induction false} RunConcat(s: State, p: PidProfile, a: seq<Tick>, b: seq<Tick>)
    ensures Run(s, p, a + b) == Run(Run(s, p, a), p, b)
    decreases |a|
  {
    if a == [] {
      assert a + b == b;
    } else {
      assert (a + b)[0] == a[0];
      assert (a + b)[1..] == a[1..] + b;
      RunConcat(Step(s, p, a[0]), p, a[1..], b);
    }
  }

  // ---------------------------------------------------------------------------
  // The signal

  /** The signal is zero only when no axis carries any I term. */
  lemma ISumZeroIffBalanced(f: FlightInputs)
    ensures ISum(f) == 0.0 <==> f.iRoll == 0.0 && f.iPitch == 0.0 && f.iYaw == 0.0
  {
  }

  /** The signal does not depend on the direction in which any axis is pushed. */
  lemma ISumIgnoresSigns(f: FlightInputs)
    ensures ISum(f.(iRoll := -f.iRoll, iPitch := -f.iPitch, iYaw := -f.iYaw)) == ISum(f)
    ensures ISum(f.(iRoll := -f.iRoll)) == ISum(f)
    ensures ISum(f.(iPitch := -f.iPitch)) == ISum(f)
    ensures ISum(f.(iYaw := -f.iYaw)) == ISum(f)
  {
  }

  // ---------------------------------------------------------------------------
  // Gating

  /** Any non-empty run of gated-off ticks ends fully reset, whatever the start. */
  lemma {:induction false} GateClosedResets(s: State, p: PidProfile, ticks: seq<Tick>)
    requires |ticks| > 0
    requires forall i :: 0 <= i < |ticks| ==> !GateOpen(p, ticks[i].flight)
    ensures Run(s, p, ticks) == Reset
    decreases |ticks|
  {
    if |ticks| > 1 {
      GateClosedResets(Step(s, p, ticks[0]), p, ticks[1..]);
    }
  }

  /** From the reset state, ticks that never show an imbalance keep it reset. */
  lemma {:induction false} QuietRunStaysReset(p: PidProfile, ticks: seq<Tick>)
    requires forall i :: 0 <= i < |ticks| ==> !Imbalanced(p, ticks[i])
    ensures Run(Reset, p, ticks) == Reset
    decreases |ticks|
  {
    if ticks != [] {
      assert Step(Reset, p, ticks[0]) == Reset;
      QuietRunStaysReset(p, ticks[1..]);
    }
  }

  // ---------------------------------------------------------------------------
  // Trigger debounce

  /** A pending trigger deadline is neither moved nor acted on before it is due. */
  lemma {:induction false} PendingTriggerIsStable(s: State, p: PidProfile, ticks: seq<Tick>)
    requires s.triggerUs != 0
    requires forall i :: 0 <= i < |ticks| ==> Imbalanced(p, ticks[i]) && ticks[i].now < s.triggerUs
    ensures Run(s, p, ticks) == s
    decreases |ticks|
  {
    if ticks != [] {
      assert Step(s, p, ticks[0]) == s;
      PendingTriggerIsStable(s, p, ticks[1..]);
    }
  }

  /** Above-threshold ticks never lower the flag. */
  lemma {:induction false} ImbalanceKeepsDetected(s: State, p: PidProfile, ticks: seq<Tick>)
    requires s.detected
    requires forall i :: 0 <= i < |ticks| ==> Imbalanced(p, ticks[i])
    ensures Run(s, p, ticks).detected
    decreases |ticks|
  {
    if ticks != [] {
      ImbalanceKeepsDetected(Step(s, p, ticks[0]), p, ticks[1..]);
    }
  }

  /** With a trigger deadline pending, the flag is up once a tick reaches it. */
  lemma {:induction false} TriggerFiresWhenDue(s: State, p: PidProfile, ticks: seq<Tick>)
    requires s.triggerUs != 0
    requires |ticks| > 0
    requires forall i :: 0 <= i < |ticks| ==> Imbalanced(p, ticks[i])
    requires ticks[|ticks| - 1].now >= s.triggerUs
    ensures Run(s, p, ticks).detected
    decreases |ticks|
  {
    var s1 := Step(s, p, ticks[0]);
    if s1.detected {
      ImbalanceKeepsDetected(s1, p, ticks[1..]);
    } else {
      assert s1.triggerUs == s.triggerUs;
      TriggerFiresWhenDue(s1, p, ticks[1..]);
    }
  }

  /**
    A burst of imbalance shorter than the trigger delay does not raise the
    flag; it leaves the deadline armed at the burst's start plus the delay.
  */
  lemma {:induction false} ShortBurstNeverDetects(s: State, p: PidProfile, ticks: seq<Tick>)
    requires !s.detected && s.triggerUs == 0
    requires |ticks| > 0
    requires forall i :: 0 <= i < |ticks| ==>
      Imbalanced(p, ticks[i]) && ticks[i].now < ticks[0].now + TenthsToUs(p.triggerDelay)
    ensures Run(s, p, ticks) == State(false, ticks[0].now + TenthsToUs(p.triggerDelay), s.untriggerUs)
  {
    var s1 := Step(s, p, ticks[0]);
    assert s1 == State(false, ticks[0].now + TenthsToUs(p.triggerDelay), s.untriggerUs);
    PendingTriggerIsStable(s1, p, ticks[1..]);
  }

  /** Imbalance sustained for the trigger delay raises the flag. */
  lemma {:induction false} SustainedImbalanceDetects(s: State, p: PidProfile, ticks: seq<Tick>)
    requires s.triggerUs == 0
    requires |ticks| > 0
    requires forall i :: 0 <= i < |ticks| ==> Imbalanced(p, ticks[i])
    requires ticks[|ticks| - 1].now >= ticks[0].now + TenthsToUs(p.triggerDelay)
    ensures Run(s, p, ticks).detected
  {
    var s1 := Step(s, p, ticks[0]);
    if s1.detected {
      ImbalanceKeepsDetected(s1, p, ticks[1..]);
    } else {
      assert s1.triggerUs == ticks[0].now + TenthsToUs(p.triggerDelay) > ticks[0].now;
      TriggerFiresWhenDue(s1, p, ticks[1..]);
    }
  }

  /**
    Debounce, both ways: from an undetected state with no trigger pending, a
    run of above-threshold ticks raises the flag exactly when its last tick is
    at least the trigger delay after its first.
  */
  lemma {:induction false} TriggerDebounce(s: State, p: PidProfile, ticks: seq<Tick>)
    requires !s.detected && s.triggerUs == 0
    requires |ticks| > 0 && Monotonic(ticks)
    requires forall i :: 0 <= i < |ticks| ==> Imbalanced(p, ticks[i])
    ensures Run(s, p, ticks).detected <==>
      ticks[|ticks| - 1].now >= ticks[0].now + TenthsToUs(p.triggerDelay)
  {
    if ticks[|ticks| - 1].now >= ticks[0].now + TenthsToUs(p.triggerDelay) {
      SustainedImbalanceDetects(s, p, ticks);
    } else {
      ShortBurstNeverDetects(s, p, ticks);
    }
  }

  /**
    A burst shorter than the trigger delay followed by one tick below threshold
    leaves the flag down and no trigger pending: no partial credit is kept.
  */
  lemma {:induction false} BurstThenDropLeavesNoCredit(s: State, p: PidProfile, burst: seq<Tick>, drop: Tick)
    requires !s.detected && s.triggerUs == 0
    requires |burst| > 0
    requires forall i :: 0 <= i < |burst| ==>
      Imbalanced(p, burst[i]) && burst[i].now < burst[0].now + TenthsToUs(p.triggerDelay)
    requires Balanced(p, drop)
    ensures !Run(s, p, burst + [drop]).detected
    ensures Run(s, p, burst + [drop]).triggerUs == 0
  {
    RunConcat(s, p, burst, [drop]);
    ShortBurstNeverDetects(s, p, burst);
  }

  // ---------------------------------------------------------------------------
  // Untrigger hysteresis

  /**
    After a tick at time `since` raised or confirmed the flag, it stays up on
    every gated-on tick until the untrigger delay has passed since then,
    whatever the signal does.
  */
  lemma {:induction false} DetectionHoldsUntilUntrigger(s: State, p: PidProfile, ticks: seq<Tick>, since: nat)
    requires s.detected && s.untriggerUs >= since + TenthsToUs(p.untriggerDelay)
    requires forall i :: 0 <= i < |ticks| ==>
      GateOpen(p, ticks[i].flight) && since <= ticks[i].now < since + TenthsToUs(p.untriggerDelay)
    ensures Run(s, p, ticks).detected
    decreases |ticks|
  {
    if ticks != [] {
      var s1 := Step(s, p, ticks[0]);
      assert s1.detected && s1.untriggerUs >= since + TenthsToUs(p.untriggerDelay);
      DetectionHoldsUntilUntrigger(s1, p, ticks[1..], since);
    }
  }

  /** Below-threshold ticks reaching a pending untrigger deadline reset the detector. */
  lemma {:induction false} UntriggerAfterDelay(s: State, p: PidProfile, ticks: seq<Tick>)
    requires s.untriggerUs != 0
    requires |ticks| > 0
    requires forall i :: 0 <= i < |ticks| ==> Balanced(p, ticks[i])
    requires ticks[|ticks| - 1].now >= s.untriggerUs
    ensures Run(s, p, ticks) == Reset
    decreases |ticks|
  {
    var s1 := Step(s, p, ticks[0]);
    if s1 == Reset {
      QuietRunStaysReset(p, ticks[1..]);
    } else {
      assert s1.untriggerUs == s.untriggerUs;
      UntriggerAfterDelay(s1, p, ticks[1..]);
    }
  }

  /**
    Hysteresis, both ways: once the last confirming tick was at `since`, a
    drop below threshold keeps the flag up exactly until the untrigger delay
    has passed since `since`.
  */
  lemma {:induction false} HysteresisAfterDrop(s: State, p: PidProfile, ticks: seq<Tick>, since: nat)
    requires s.detected && s.untriggerUs == since + TenthsToUs(p.untriggerDelay) && s.untriggerUs != 0
    requires |ticks| > 0 && Monotonic(ticks) && ticks[0].now >= since
    requires forall i :: 0 <= i < |ticks| ==> Balanced(p, ticks[i])
    ensures Run(s, p, ticks).detected <==>
      ticks[|ticks| - 1].now < since + TenthsToUs(p.untriggerDelay)
  {
    if ticks[|ticks| - 1].now < since + TenthsToUs(p.untriggerDelay) {
      DetectionHoldsUntilUntrigger(s, p, ticks, since);
    } else {
      UntriggerAfterDelay(s, p, ticks);
    }
  }

  // ---------------------------------------------------------------------------
  // The flag and the untrigger deadline

  lemma StepKeepsCoherent(s: State, p: PidProfile, t: Tick)
    requires Coherent(s)
    requires t.now > 0
    ensures Coherent(Step(s, p, t))
  {
  }

  /**
    From start-up, as long as no tick is at time 0, the flag is up exactly
    while an untrigger deadline is pending, so it can always be lowered.
  */
  lemma {:induction false} RunKeepsCoherent(s: State, p: PidProfile, ticks: seq<Tick>)
    requires Coherent(s)
    requires forall i :: 0 <= i < |ticks| ==> ticks[i].now > 0
    ensures Coherent(Run(s, p, ticks))
    decreases |ticks|
  {
    if ticks != [] {
      StepKeepsCoherent(s, p, ticks[0]);
      RunKeepsCoherent(Step(s, p, ticks[0]), p, ticks[1..]);
    }
  }

  /**
    At time 0 with both delays 0 the untrigger deadline computed on triggering
    is 0, the "unset" value: the flag is then up with nothing pending, and no
    number of below-threshold ticks lowers it.
  */
  lemma {:induction false} TimeZeroLatch(p: PidProfile, first: Tick, rest: seq<Tick>)
    requires p.triggerDelay == 0 && p.untriggerDelay == 0
    requires first.now == 0 && Imbalanced(p, first)
    requires forall i :: 0 <= i < |rest| ==> Balanced(p, rest[i])
    ensures Run(Reset, p, [first] + rest) == State(true, 0, 0)
  {
    assert ([first] + rest)[1..] == rest;
    assert Step(Reset, p, first) == State(true, 0, 0);
    LatchedStaysLatched(p, rest);
  }

  lemma {:induction false} LatchedStaysLatched(p: PidProfile, ticks: seq<Tick>)
    requires forall i :: 0 <= i < |ticks| ==> Balanced(p, ticks[i])
    ensures Run(State(true, 0, 0), p, ticks) == State(true, 0, 0)
    decreases |ticks|
  {
    if ticks != [] {
      LatchedStaysLatched(p, ticks[1..]);
    }
  }

  // ---------------------------------------------------------------------------
  // A worked timeline

  /** The settings and inputs of a worked timeline. */
  const TimelineProfile := PidProfile(5, 3, 10)
  const Shaking := FlightInputs(true, false, false, false, 2.0, -3.0, 1.0)
  const Steady := FlightInputs(true, false, false, false, 0.0, 0.0, 0.0)

  /**
    Threshold 5, trigger delay 0.3 s, untrigger delay 1.0 s, an I sum of 6
    from time 0: the flag rises at 0.3 s; the signal then drops to 0 and the
    flag stays up until 1.3 s.
  */
  lemma SumModelTimeline()
    ensures Step(Reset, TimelineProfile, Tick(0, Shaking)) == State(false, 300000, 0)
    ensures Step(State(false, 300000, 0), TimelineProfile, Tick(299999, Shaking)) == State(false, 300000, 0)
    ensures Step(State(false, 300000, 0), TimelineProfile, Tick(300000, Shaking)) == State(true, 300000, 1300000)
    ensures Step(State(true, 300000, 1300000), TimelineProfile, Tick(300001, Steady)) == State(true, 0, 1300000)
    ensures Step(State(true, 0, 1300000), TimelineProfile, Tick(1299999, Steady)) == State(true, 0, 1300000)
    ensures Step(State(true, 0, 1300000), TimelineProfile, Tick(1300000, Steady)) == Reset
  {
    assert TenthsToUs(3) == 300000 && TenthsToUs(10) == 1000000;
    assert AboveThreshold(TimelineProfile, Shaking);
    assert !AboveThreshold(TimelineProfile, Steady);
    assert GateOpen(TimelineProfile, Shaking) && GateOpen(TimelineProfile, Steady);
  }

  /** Disarming in the middle of a detection clears everything on that tick. */
  lemma DisarmClearsDetection(s: State, p: PidProfile, t: Tick)
    requires !t.flight.armed
    ensures Step(s, p, t) == Reset
  {
  }
}

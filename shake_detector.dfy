/**
 * The shake detector: it classifies each accelerometer reading as
 * accelerating or not, feeds it to the sample queue and, when the window is
 * shaking and the last shake was heard more than CooldownMillis ago, clears
 * the queue and tells its listener.
 *
 * The Android sensor plumbing is abstracted: whether the device has an
 * accelerometer is a parameter of Start, `accelerometer` records whether one
 * is registered, a reading is a SensorEvent value, the wall clock is passed
 * in as `current`, and the listener call is the `heard` result.
 */
module Detector {
  import opened ShakeWindow
  import opened ShakeQueue

  const SensitivityLight: int := 11
  const SensitivityMedium: int := 13
  const SensitivityHard: int := 15
  /** The threshold a new detector starts with. */
  const DefaultAccelerationThreshold: int := SensitivityLight
  /** Minimum time in milliseconds between two shakes that are heard. */
  const CooldownMillis: int := 2500

  /** The largest threshold whose square fits in a 32-bit Int. */
  const MaxExactThreshold: int := 46340

  /** A Kotlin Int result: x reduced into the 32-bit two's complement range. */
  function Int32(x: int): (r: int)
    ensures -0x8000_0000 <= r < 0x8000_0000
    ensures (x - r) % 0x1_0000_0000 == 0
  {
    (x + 0x8000_0000) % 0x1_0000_0000 - 0x8000_0000
  }

  /** An accelerometer reading: its timestamp in nanoseconds and the three axes. */
  datatype SensorEvent = SensorEvent(timestamp: int, ax: real, ay: real, az: real)

  /** The squared magnitude of the reading's acceleration vector. */
  function MagnitudeSquared(e: SensorEvent): real {
    e.ax * e.ax + e.ay * e.ay + e.az * e.az
  }

  /**
   * The reading is accelerating: its squared magnitude is above the square
   * of the threshold, computed as an Int (so it wraps for thresholds beyond
   * MaxExactThreshold).
   */
  function IsAccelerating(e: SensorEvent, threshold: int): (accelerating: bool)
    ensures -MaxExactThreshold <= threshold <= MaxExactThreshold ==>
      (accelerating <==> MagnitudeSquared(e) > (threshold * threshold) as real)
  {
    SquareFitsInt32(threshold);
    MagnitudeSquared(e) > Int32(threshold * threshold) as real
  }

  /** Squaring a threshold of at most MaxExactThreshold in absolute value does not wrap. */
  lemma SquareFitsInt32(t: int)
    ensures -MaxExactThreshold <= t <= MaxExactThreshold ==> Int32(t * t) == t * t
  {
    if -MaxExactThreshold <= t <= MaxExactThreshold {
      var a := if t < 0 then -t else t;
      assert t * t == a * a;
      SquareMonotone(a, MaxExactThreshold);
      assert MaxExactThreshold * MaxExactThreshold == 2147395600;
      var x := t * t;
      assert 0 <= x + 0x8000_0000 < 0x1_0000_0000;
      assert (x + 0x8000_0000) % 0x1_0000_0000 == x + 0x8000_0000;
    }
  }

  /** Squares grow with their non-negative base. */
  lemma SquareMonotone(a: int, b: int)
    requires 0 <= a <= b
    ensures a * a <= b * b
  {
    assert a * a <= a * b by {
      assert a * (b - a) >= 0;
    }
    assert a * b <= b * b by {
      assert (b - a) * b >= 0;
    }
  }

  /** A stricter (larger) threshold classifies fewer readings as accelerating. */
  lemma StricterThresholdAcceleratesLess(e: SensorEvent, lower: int, higher: int)
    requires 0 <= lower <= higher <= MaxExactThreshold
    ensures IsAccelerating(e, higher) ==> IsAccelerating(e, lower)
  {
    SquareMonotone(lower, higher);
    assert (lower * lower) as real <= (higher * higher) as real;
  }

  /** A reading whose magnitude is exactly the threshold is not accelerating: the comparison is strict. */
  lemma ThresholdItselfIsNotAccelerating(t: int)
    requires 0 <= t <= MaxExactThreshold
    ensures !IsAccelerating(SensorEvent(0, t as real, 0.0, 0.0), t)
  {
  }

  /** A reading of 12 m/s² on one axis is a shake for the light sensitivity but not for medium or hard. */
  lemma SensitivityLevels()
    ensures IsAccelerating(SensorEvent(0, 12.0, 0.0, 0.0), SensitivityLight)
    ensures !IsAccelerating(SensorEvent(0, 12.0, 0.0, 0.0), SensitivityMedium)
    ensures !IsAccelerating(SensorEvent(0, 12.0, 0.0, 0.0), SensitivityHard)
  {
    SquareFitsInt32(SensitivityLight);
    SquareFitsInt32(SensitivityMedium);
    SquareFitsInt32(SensitivityHard);
  }

  /**
   * A threshold of 65536 squares to 0 as an Int, so every reading with any
   * motion at all accelerates, however slight.
   */
  lemma WrappedThresholdAcceleratesAnyMotion(e: SensorEvent)
    ensures IsAccelerating(e, 65536) <==> MagnitudeSquared(e) > 0.0
    ensures IsAccelerating(SensorEvent(0, 0.001, 0.0, 0.0), 65536)
  {
    assert Int32(65536 * 65536) == 0;
  }

  /** What the detector remembers between readings: the window and the time of the last heard shake. */
  datatype DetectorState = DetectorState(window: seq<SampleValue>, lastTime: int)

  /** The result of one reading: the new state and whether the listener heard a shake. */
  datatype Outcome = Outcome(state: DetectorState, heard: bool)

  /** A classified reading: its timestamp, whether it accelerates, and the wall clock onSensorChanged would read. */
  datatype Reading = Reading(timestamp: int, accelerating: bool, current: int)

  /**
   * One call of onSensorChanged on a classified reading: add it, and if the
   * window is shaking and more than CooldownMillis passed since the last
   * heard shake, clear the window and record the clock.
   */
  function Step(s: DetectorState, r: Reading): Outcome {
    var added := AddSample(s.window, r.timestamp, r.accelerating);
    if Shaking(added) && r.current - s.lastTime > CooldownMillis then
      Outcome(DetectorState([], r.current), true)
    else
      Outcome(DetectorState(added, s.lastTime), false)
  }

  /** A heard shake comes more than CooldownMillis after the previous one, empties the window and is recorded as the last. */
  lemma HeardShakeRespectsCooldown(s: DetectorState, r: Reading)
    ensures var o := Step(s, r);
      o.heard <==> Shaking(AddSample(s.window, r.timestamp, r.accelerating)) && r.current - s.lastTime > CooldownMillis
    ensures var o := Step(s, r);
      o.heard ==> o.state.window == [] && o.state.lastTime == r.current
    ensures var o := Step(s, r);
      !o.heard ==> o.state.lastTime == s.lastTime && |o.state.window| >= 1
  {
    AddSampleShape(s.window, r.timestamp, r.accelerating);
  }

  /** A reading that arrives at an empty window leaves one sample in it, which never shakes. */
  lemma EmptyWindowNeverShakes(s: DetectorState, r: Reading)
    requires s.window == []
    ensures !Step(s, r).heard && Step(s, r).state.window == [SampleValue(r.timestamp, r.accelerating)]
  {
    var w := AddSample([], r.timestamp, r.accelerating);
    assert Purged([], r.timestamp - MaxWindowSize) == [];
    assert w == [SampleValue(r.timestamp, r.accelerating)];
    assert !Shaking(w);
  }

  /** Right after a heard shake the window is empty, so the next reading is never a shake. */
  lemma NoShakeRightAfterShake(s: DetectorState, r1: Reading, r2: Reading)
    requires Step(s, r1).heard
    ensures !Step(Step(s, r1).state, r2).heard
  {
    EmptyWindowNeverShakes(Step(s, r1).state, r2);
  }

  /** The wall-clock times at which the listener hears a shake over a run of readings. */
  function Heard(s: DetectorState, readings: seq<Reading>): seq<int>
    decreases |readings|
  {
    if readings == [] then []
    else
      var o := Step(s, readings[0]);
      (if o.heard then [readings[0].current] else []) + Heard(o.state, readings[1..])
  }

  /**
   * Over any run, the first heard shake comes more than CooldownMillis after
   * the starting lastTime and each later one more than CooldownMillis after
   * the one before, whatever the clock does.
   */
  lemma {:induction false} HeardShakesAreSpaced(s: DetectorState, readings: seq<Reading>)
    ensures var h := Heard(s, readings);
      (h != [] ==> h[0] - s.lastTime > CooldownMillis) &&
      forall i :: 0 < i < |h| ==> h[i] - h[i - 1] > CooldownMillis
    decreases |readings|
  {
    if readings != [] {
      var o := Step(s, readings[0]);
      var rest := Heard(o.state, readings[1..]);
      HeardShakesAreSpaced(o.state, readings[1..]);
      if o.heard {
        var h := [readings[0].current] + rest;
        assert forall i :: 0 < i < |h| ==> h[i] == rest[i - 1];
      } else {
        assert o.state.lastTime == s.lastTime;
      }
    }
  }

  /** No sample of the window is accelerating. */
  ghost predicate Quiet(window: seq<SampleValue>) {
    forall i :: 0 <= i < |window| ==> !window[i].accelerating
  }

  /** Adding a sample that is not accelerating to a quiet window leaves it quiet. */
  lemma AddSampleKeepsQuiet(window: seq<SampleValue>, timestamp: int)
    requires Quiet(window)
    ensures Quiet(AddSample(window, timestamp, false))
  {
    var kept := Purged(window, timestamp - MaxWindowSize);
    PurgedIsSuffix(window, timestamp - MaxWindowSize);
    assert forall i :: 0 <= i < |kept| ==> kept[i] == window[|window| - |kept| + i];
  }

  /** From a quiet window, readings that never accelerate are never heard as a shake. */
  lemma {:induction false} StillDeviceNeverShakes(s: DetectorState, readings: seq<Reading>)
    requires Quiet(s.window)
    requires forall i :: 0 <= i < |readings| ==> !readings[i].accelerating
    ensures Heard(s, readings) == []
    decreases |readings|
  {
    if readings != [] {
      var added := AddSample(s.window, readings[0].timestamp, false);
      AddSampleKeepsQuiet(s.window, readings[0].timestamp);
      QuietWindowNeverShakes(added);
      var o := Step(s, readings[0]);
      assert o.state.window == added;
      StillDeviceNeverShakes(o.state, readings[1..]);
    }
  }

  /** The detector: a threshold, the time of the last heard shake, the registered sensor and the queue. */
  class ShakeDetector {
    var accelerationThreshold: int
    var lastTime: int
    /** An accelerometer is registered (the source's `accelerometer != null`). */
    var accelerometer: bool
    const queue: SampleQueue

    ghost predicate Valid()
      reads this, queue, queue.pool
    {
      queue.Valid()
    }

    /** The detector's state as the pure model sees it. */
    ghost function State(): DetectorState
      reads this, queue
    {
      DetectorState(queue.Contents, lastTime)
    }

    constructor ()
      ensures Valid() && fresh(queue) && fresh(queue.pool)
      ensures accelerationThreshold == DefaultAccelerationThreshold && lastTime == 0 && !accelerometer
      ensures queue.Contents == []
    {
      accelerationThreshold := DefaultAccelerationThreshold;
      lastTime := 0;
      accelerometer := false;
      queue := new SampleQueue();
    }

    /**
     * Starts listening if the device has an accelerometer; a detector that
     * is already listening stays so. Reports whether it is listening.
     */
    method Start(sensorAvailable: bool) returns (supported: bool)
      modifies this
      ensures supported == accelerometer
      ensures accelerometer == (old(accelerometer) || sensorAvailable)
      ensures accelerationThreshold == old(accelerationThreshold) && lastTime == old(lastTime)
    {
      if accelerometer {
        return true;
      }
      accelerometer := sensorAvailable;
      supported := accelerometer;
    }

    /** Stops listening and clears the queue; does nothing when not listening. */
    method Stop()
      requires Valid()
      modifies this, queue, queue.pool
      ensures Valid() && !accelerometer
      ensures accelerationThreshold == old(accelerationThreshold) && lastTime == old(lastTime)
      ensures old(accelerometer) ==> queue.Contents == [] && |queue.pool.free| == |queue.pool.samples|
      ensures !old(accelerometer) ==> unchanged(queue, queue.pool)
    {
      if accelerometer {
        queue.Clear();
        accelerometer := false;
      }
    }

    method SetSensitivity(threshold: int)
      modifies this
      ensures accelerationThreshold == threshold
      ensures lastTime == old(lastTime) && accelerometer == old(accelerometer)
    {
      accelerationThreshold := threshold;
    }

    /** Handles one reading, with `current` the wall clock; `heard` is the call to the listener. */
    method OnSensorChanged(e: SensorEvent, current: int) returns (heard: bool)
      requires Valid()
      modifies this, queue, queue.pool
      ensures Valid()
      ensures var r := Reading(e.timestamp, IsAccelerating(e, old(accelerationThreshold)), current);
        Outcome(State(), heard) == Step(old(State()), r)
      ensures accelerationThreshold == old(accelerationThreshold) && accelerometer == old(accelerometer)
    {
      var accelerating := IsAccelerating(e, accelerationThreshold);
      queue.Add(e.timestamp, accelerating);
      heard := false;
      if queue.IsShaking() {
        if current - lastTime > CooldownMillis {
          Fire(current);
          heard := true;
        }
      }
    }

    /** Hears a shake: empties the queue and records the clock as the time of the last shake. */
    method Fire(current: int)
      requires Valid()
      modifies this, queue, queue.pool
      ensures Valid() && queue.Contents == [] && lastTime == current
      ensures |queue.pool.free| == |queue.pool.samples|
      ensures accelerationThreshold == old(accelerationThreshold) && accelerometer == old(accelerometer)
    {
      queue.Clear();
      lastTime := current;
    }
  }
}

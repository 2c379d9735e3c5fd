/**
 * The sliding window of the shake detector, as values: what a SampleQueue
 * holds (oldest sample first), how a purge trims it, how an insertion
 * extends it, and when the window counts as "shaking".
 *
 * The imperative queue in shake_queue.dfy is proved against these functions.
 */
module ShakeWindow {

  /** Window size in nanoseconds (0.5 s): samples older than this may be purged. */
  const MaxWindowSize: int := 500000000
  /** Minimum span of a shaking window, MaxWindowSize shr 1 (0.25 s). */
  const MinWindowSize: int := 250000000
  /** A purge never removes a sample while fewer than this many are queued. */
  const MinQueueSize: int := 4

  /** The observable content of one queued Sample. */
  datatype SampleValue = SampleValue(timestamp: int, accelerating: bool)

  /** Number of accelerating samples in a window. */
  function CountAccelerating(window: seq<SampleValue>): (n: nat)
    ensures n <= |window|

  {
    if window == [] then 0
    else (if window[0].accelerating then 1 else 0) + CountAccelerating(window[1..])
  }

  /** No sample is counted exactly when none is accelerating. */
  lemma {:induction false} CountAcceleratingZero(window: seq<SampleValue>)
    ensures CountAccelerating(window) == 0 <==> forall i :: 0 <= i < |window| ==> !window[i].accelerating
  {
    if window != [] {
      CountAcceleratingZero(window[1..]);
      assert forall i :: 1 <= i < |window| ==> window[i] == window[1..][i - 1];
    }
  }

  /** Counting distributes over appending one sample at the newest end. */
  lemma {:induction false} CountAcceleratingAppend(window: seq<SampleValue>, s: SampleValue)
    ensures CountAccelerating(window + [s]) == CountAccelerating(window) + (if s.accelerating then 1 else 0)
  {
    if window != [] {
      assert (window + [s])[1..] == window[1..] + [s];
      CountAcceleratingAppend(window[1..], s);
    }
  }

  /**
   * The window left after purging with the given cutoff: the oldest sample
   * is removed as long as at least MinQueueSize samples remain and
   * `cutoff - oldest.timestamp > 0`.
   */
  function Purged(window: seq<SampleValue>, cutoff: int): (r: seq<SampleValue>)
    ensures |r| <= |window|
    decreases |window|
  {
    if |window| >= MinQueueSize && cutoff - window[0].timestamp > 0 then Purged(window[1..], cutoff)
    else window
  }

  /** A purge keeps the newest samples: its result is a suffix of the window. */
  lemma {:induction false} PurgedIsSuffix(window: seq<SampleValue>, cutoff: int)
    ensures Purged(window, cutoff) == window[|window| - |Purged(window, cutoff)|..]
    decreases |window|
  {
    if |window| >= MinQueueSize && cutoff - window[0].timestamp > 0 {
      var m := |window[1..]| - |Purged(window[1..], cutoff)|;
      PurgedIsSuffix(window[1..], cutoff);
      assert window[1..][m..] == window[m + 1..];
    }
  }

  /**
   * Purging a window whose first k samples are each removable in turn
   * (older than the cutoff, with at least MinQueueSize samples present when
   * each goes, so at least MinQueueSize - 1 are left after them) is
   * purging what follows them.
   */
  lemma {:induction false} PurgedAfterPrefix(window: seq<SampleValue>, cutoff: int, k: nat)
    requires k <= |window| && (k == 0 || |window| - k >= MinQueueSize - 1)
    requires forall j :: 0 <= j < k ==> cutoff - window[j].timestamp > 0
    ensures Purged(window, cutoff) == Purged(window[k..], cutoff)
    decreases k
  {
    if k > 0 {
      ghost var rest := window[1..];
      assert forall j :: 0 <= j < k - 1 ==> rest[j] == window[j + 1];
      assert cutoff - window[0].timestamp > 0;
      PurgedAfterPrefix(rest, cutoff, k - 1);
      assert rest[k - 1..] == window[k..];
    }
  }

  /** A purge removes only samples strictly older than the cutoff. */
  lemma {:induction false} PurgeRemovesOnlyStale(window: seq<SampleValue>, cutoff: int)
    ensures forall i :: 0 <= i < |window| - |Purged(window, cutoff)| ==> window[i].timestamp < cutoff
    decreases |window|
  {
    if |window| >= MinQueueSize && cutoff - window[0].timestamp > 0 {
      PurgeRemovesOnlyStale(window[1..], cutoff);
      forall i | 0 <= i < |window| - |Purged(window, cutoff)|
        ensures window[i].timestamp < cutoff
      {
        if i > 0 { assert window[i] == window[1..][i - 1]; }
      }
    }
  }

  /**
   * A purge stops exactly when fewer than MinQueueSize samples are left or
   * the oldest one is not older than the cutoff.
   */
  lemma {:induction false} PurgeStops(window: seq<SampleValue>, cutoff: int)
    ensures var r := Purged(window, cutoff);
      |r| < MinQueueSize || r[0].timestamp >= cutoff
    decreases |window|
  {
    if |window| >= MinQueueSize && cutoff - window[0].timestamp > 0 {
      PurgeStops(window[1..], cutoff);
    }
  }

  /**
   * A purge never shrinks a window of at least MinQueueSize - 1 samples
   * below MinQueueSize - 1, and leaves a smaller window untouched.
   */
  lemma {:induction false} PurgeKeepsMinimum(window: seq<SampleValue>, cutoff: int)
    ensures |window| < MinQueueSize ==> Purged(window, cutoff) == window
    ensures |window| >= MinQueueSize - 1 ==> |Purged(window, cutoff)| >= MinQueueSize - 1
    decreases |window|
  {
    if |window| >= MinQueueSize && cutoff - window[0].timestamp > 0 {
      PurgeKeepsMinimum(window[1..], cutoff);
    }
  }

  /** Timestamps never decrease from the oldest to the newest sample. */
  ghost predicate Chronological(window: seq<SampleValue>) {
    forall i, j :: 0 <= i < j < |window| ==> window[i].timestamp <= window[j].timestamp
  }

  /**
   * On a chronological window a purge that leaves at least MinQueueSize
   * samples keeps only samples not older than the cutoff; together with
   * PurgeRemovesOnlyStale, it then keeps exactly those.
   */
  lemma PurgeOfChronological(window: seq<SampleValue>, cutoff: int)
    requires Chronological(window)
    ensures var r := Purged(window, cutoff);
      |r| < MinQueueSize || forall i :: 0 <= i < |r| ==> r[i].timestamp >= cutoff
  {
    var r := Purged(window, cutoff);
    var k := |window| - |r|;
    PurgeStops(window, cutoff);
    PurgedIsSuffix(window, cutoff);
    if |r| >= MinQueueSize {
      forall i | 0 <= i < |r| ensures r[i].timestamp >= cutoff {
        assert r[0] == window[k] && r[i] == window[k + i];
      }
    }
  }

  /** The window after `add(timestamp, accelerating)`: purge, then append at the newest end. */
  function AddSample(window: seq<SampleValue>, timestamp: int, accelerating: bool): seq<SampleValue> {
    Purged(window, timestamp - MaxWindowSize) + [SampleValue(timestamp, accelerating)]
  }

  /**
   * An insertion keeps the newest samples of the window (a suffix of it,
   * at least MinQueueSize - 1 of them when there were that many, and all
   * of them when there were fewer than MinQueueSize) and puts the new
   * sample last.
   */
  lemma AddSampleShape(window: seq<SampleValue>, timestamp: int, accelerating: bool)
    ensures var r := AddSample(window, timestamp, accelerating);
      |r| >= 1 && r[|r| - 1] == SampleValue(timestamp, accelerating) &&
      |r| - 1 <= |window| && r[..|r| - 1] == window[|window| - (|r| - 1)..]
    ensures |window| < MinQueueSize ==> AddSample(window, timestamp, accelerating) == window + [SampleValue(timestamp, accelerating)]
    ensures |window| >= MinQueueSize - 1 ==> |AddSample(window, timestamp, accelerating)| >= MinQueueSize
  {
    PurgedIsSuffix(window, timestamp - MaxWindowSize);
    PurgeKeepsMinimum(window, timestamp - MaxWindowSize);
  }

  /**
   * Minimum number of accelerating samples for a window of n samples to
   * shake: `(n shr 1) + (n shr 2)`, which for n >= 0 is n / 2 + n / 4.
   */
  function ShakeThreshold(n: nat): nat {
    n / 2 + n / 4
  }

  /** The threshold is at most three quarters of n, and less than one and a quarter below it. */
  lemma ShakeThresholdBounds(n: nat)
    ensures 3 * n - 5 <= 4 * ShakeThreshold(n) <= 3 * n
  {
    var q, r := n / 4, n % 4;
    assert n == 4 * q + r;
    assert n / 2 == 2 * q + r / 2;
  }

  /** The fraction is not a clean 75%: five samples shake with only three accelerating. */
  lemma ShakeThresholdOfFive()
    ensures ShakeThreshold(5) == 3 && 4 * 3 < 3 * 5
  {
  }

  /**
   * The window is shaking: it is non-empty, spans at least MinWindowSize,
   * and at least ShakeThreshold of its samples are accelerating.
   */
  predicate Shaking(window: seq<SampleValue>) {
    window != [] &&
    window[|window| - 1].timestamp - window[0].timestamp >= MinWindowSize &&
    CountAccelerating(window) >= ShakeThreshold(|window|)
  }

  /** A window in which nothing accelerates never shakes. */
  lemma QuietWindowNeverShakes(window: seq<SampleValue>)
    requires forall i :: 0 <= i < |window| ==> !window[i].accelerating
    ensures !Shaking(window)
  {
    CountAcceleratingZero(window);
    if |window| >= 2 {
      assert ShakeThreshold(|window|) >= 1;
    }
  }

  /** From MinQueueSize samples on, a window with at most half of them accelerating never shakes. */
  lemma HalfAcceleratingNeverShakes(window: seq<SampleValue>)
    requires |window| >= MinQueueSize
    requires 2 * CountAccelerating(window) <= |window|
    ensures !Shaking(window)
  {
    var n := |window|;
    ShakeThresholdBounds(n);
    if n == 4 || n == 5 {
      assert ShakeThreshold(n) == 3;
    }
  }

  /** With only two samples, one of them accelerating is already enough to shake. */
  lemma HalfAcceleratingShakesWithTwoSamples()
    ensures Shaking([SampleValue(0, true), SampleValue(MinWindowSize, false)])
  {
    var w := [SampleValue(0, true), SampleValue(MinWindowSize, false)];
    assert CountAccelerating(w[1..]) == 0;
  }
}

# TextLogger shake detector and click throttle, in Dafny

TextLogger opens its log viewer when the user shakes the phone. The
`ShakeDetector` classifies each accelerometer reading as accelerating or not
by comparing its squared magnitude with the square of a sensitivity
threshold. It keeps the recent classifications in a `SampleQueue`, a singly
linked FIFO of `Sample` records whose nodes are recycled through a
`SamplePool` free list. Before each insert the queue purges samples older
than half a second. A purge stops once fewer than four samples are left, so
it leaves at least three, and the insert brings the queue back to four. The
queue reports "shaking" when the window spans at least a quarter second and at least
`(n shr 1) + (n shr 2)` of its `n` samples accelerate. The detector then
tells its listener, empties the queue and starts a 2.5 s cooldown. The
separate `clickWithThrottle` helper ignores clicks that come less than
1250 ms after the last click whose action ran.

The project has four modules:

- `ShakeWindow` (shake_window.dfy) holds the window as a sequence of values,
  oldest first. It gives the purge, the insertion, the counters and the
  shake test as functions, with lemmas about each.
- `ShakeQueue` (shake_queue.dfy) holds the imperative `SamplePool` and
  `SampleQueue` classes, proved against `ShakeWindow`.
  - The Sample objects live in an arena owned by the pool: `samples[k]` is
    the k-th Sample ever allocated, a reference is its index and `Nil` (-1)
    is null.
  - Ghost views list the free samples (`free`) and the live samples
    (`chain`, with their values in `Contents`).
  - A ghost `Slot` per sample says which list holds it and at which rank.
    This proves that no sample is in both lists or twice in one.
- `Detector` (shake_detector.dfy) holds the classification, the
  `ShakeDetector` class, and a pure step function `Step`. It proves that
  `OnSensorChanged` implements `Step` and proves the cooldown properties
  over any run of readings.
- `ClickThrottle` (click_throttle.dfy) holds the throttle rule as a function
  and the listener as a class, and proves that actions are spaced over any
  run of clicks.

The detector has two clocks, both parameters. The sensor timestamp (ns)
drives the window; the wall clock (ms, `current`) drives the cooldown. The
click handler reads its clock twice (before deciding, and after the action
to record the time), so `OnClick` takes both readings, `now` and `later`.

## Model

In the source column, ShakeDetector.kt stands for app/src/main/java/com/obss/textlogger/listener/ShakeDetector.kt, and Utils.kt for app/src/main/java/com/obss/textlogger/utils/Utils.kt.

| member | source | states |
|---|---|---|
| ShakeWindow.CountAccelerating | app/src/main/java/com/obss/textlogger/listener/ShakeDetector.kt:131-134 | the number of accelerating samples is at most the window length |
| ShakeWindow.CountAcceleratingZero | app/src/main/java/com/obss/textlogger/listener/ShakeDetector.kt:131-134 | the count is 0 exactly when no sample accelerates |
| ShakeWindow.CountAcceleratingAppend | app/src/main/java/com/obss/textlogger/listener/ShakeDetector.kt:131-134 | appending a sample raises the count by one exactly when that sample accelerates |
| ShakeWindow.Purged | app/src/main/java/com/obss/textlogger/listener/ShakeDetector.kt:154-169 | a purge never lengthens the window |
| ShakeWindow.PurgedIsSuffix | app/src/main/java/com/obss/textlogger/listener/ShakeDetector.kt:154-169 | a purge only removes from the oldest end: what is left is a suffix of the window, in order |
| ShakeWindow.PurgedAfterPrefix | app/src/main/java/com/obss/textlogger/listener/ShakeDetector.kt:155-163 | when the first k samples are each removable in turn, purging the window is purging what follows them |
| ShakeWindow.PurgeRemovesOnlyStale | app/src/main/java/com/obss/textlogger/listener/ShakeDetector.kt:119-155 | every removed sample is strictly older than the cutoff, so none within 0.5 s of the new timestamp is removed |
| ShakeWindow.PurgeStops | app/src/main/java/com/obss/textlogger/listener/ShakeDetector.kt:155 | after a purge, fewer than 4 samples remain or the oldest is not older than the cutoff |
| ShakeWindow.PurgeKeepsMinimum | app/src/main/java/com/obss/textlogger/listener/ShakeDetector.kt:155-192 | a purge leaves a window of fewer than 4 untouched and never takes one of at least 3 below 3 |
| ShakeWindow.PurgeOfChronological | app/src/main/java/com/obss/textlogger/listener/ShakeDetector.kt:154-169 | on a window in time order, a purge that leaves at least 4 samples keeps only samples not older than the cutoff |
| ShakeWindow.AddSample | app/src/main/java/com/obss/textlogger/listener/ShakeDetector.kt:118-135 | the window after `add`: the purged window with the new sample appended at the newest end; its properties are stated by `AddSampleShape` |
| ShakeWindow.AddSampleShape | app/src/main/java/com/obss/textlogger/listener/ShakeDetector.kt:118-135 | `add` keeps a suffix of the old window in order and puts the new sample last; a window of fewer than 4 only grows; one of at least 3 ends with at least 4 |
| ShakeWindow.ShakeThresholdBounds | app/src/main/java/com/obss/textlogger/listener/ShakeDetector.kt:187 | `(n shr 1) + (n shr 2)` is at most 3n/4 and at least (3n - 5)/4 |
| ShakeWindow.ShakeThresholdOfFive | app/src/main/java/com/obss/textlogger/listener/ShakeDetector.kt:187 | five samples need only three accelerating, less than 75% |
| ShakeWindow.ShakeThreshold | app/src/main/java/com/obss/textlogger/listener/ShakeDetector.kt:187 | the least number of accelerating samples a window of n samples needs, `(n shr 1) + (n shr 2)`; bounded by `ShakeThresholdBounds` |
| ShakeWindow.Shaking | app/src/main/java/com/obss/textlogger/listener/ShakeDetector.kt:186-187 | the shake test over the whole window: non-empty, newest minus oldest timestamp at least 0.25 s, and at least `ShakeThreshold` accelerating samples; `SampleQueue.IsShaking` is proved equal to it |
| ShakeWindow.QuietWindowNeverShakes | app/src/main/java/com/obss/textlogger/listener/ShakeDetector.kt:186-187 | a window in which nothing accelerates never shakes |
| ShakeWindow.HalfAcceleratingNeverShakes | app/src/main/java/com/obss/textlogger/listener/ShakeDetector.kt:186-187 | from 4 samples on, a window with at most half of them accelerating never shakes |
| ShakeWindow.HalfAcceleratingShakesWithTwoSamples | app/src/main/java/com/obss/textlogger/listener/ShakeDetector.kt:186-187 | a two-sample window spanning 0.25 s shakes with only one sample accelerating |
| ShakeQueue.Sample | app/src/main/java/com/obss/textlogger/listener/ShakeDetector.kt:200-204 | the fields of one Sample object: timestamp, accelerating flag, and `next` as an index into the pool's arena, with `Nil` for null |
| ShakeQueue.SamplePool.constructor | app/src/main/java/com/obss/textlogger/listener/ShakeDetector.kt:209-210 | a new pool is empty |
| ShakeQueue.SamplePool.Acquire | app/src/main/java/com/obss/textlogger/listener/ShakeDetector.kt:216-225 | an empty pool allocates a fresh Sample and stays empty; otherwise the head of the free list is popped and the rest stays in order |
| ShakeQueue.SamplePool.Release | app/src/main/java/com/obss/textlogger/listener/ShakeDetector.kt:230-233 | the sample is pushed on the front of the free list, its `next` set to the old head, and nothing else changes |
| ShakeQueue.ReleaseThenAcquire | app/src/main/java/com/obss/textlogger/listener/ShakeDetector.kt:216-233 | the pool is LIFO: acquiring right after releasing s returns s and restores the free list |
| ShakeQueue.SampleQueue.Valid | app/src/main/java/com/obss/textlogger/listener/ShakeDetector.kt:106-111 | the counter invariant: `sampleCount` is the number of live samples and `0 <= acceleratingCount <= sampleCount`; and every Sample ever allocated is either live or in the pool (`|pool.samples| == |pool.free| + |Contents|`) |
| ShakeQueue.SampleQueue.constructor | app/src/main/java/com/obss/textlogger/listener/ShakeDetector.kt:106-111 | a new queue is empty, with an empty pool |
| ShakeQueue.ClearThenAddReusesSamples | app/src/main/java/com/obss/textlogger/listener/ShakeDetector.kt:118-149 | after a clear, adding up to as many readings as the queue held reuses pooled Samples only: the arena does not grow, and up to four readings make up the whole window |
| ShakeQueue.SampleQueue.Add | app/src/main/java/com/obss/textlogger/listener/ShakeDetector.kt:118-135 | the contents become `AddSample` of the old contents (purge, then append), keeping the counter and link invariants; a new Sample is allocated exactly when the pool was empty and the purge removed nothing, otherwise a pooled one is reused |
| ShakeQueue.SampleQueue.Append | app/src/main/java/com/obss/textlogger/listener/ShakeDetector.kt:120-134 | an acquired sample is linked after `newest` and the contents gain it at the end; the old chain is a prefix of the new one; the arena grows only when the pool was empty |
| ShakeQueue.SampleQueue.TakeSample | app/src/main/java/com/obss/textlogger/listener/ShakeDetector.kt:120 | the acquired sample is in neither the chain nor the free list, the queue is unchanged, and the arena grows only when the pool was empty; the one Sample in neither place is the acquired one |
| ShakeQueue.SampleQueue.Record | app/src/main/java/com/obss/textlogger/listener/ShakeDetector.kt:127-134 | setting `newest`, `oldest` if null, and the counters restores the invariants, the live-or-pooled count included, for the extended chain |
| ShakeQueue.SampleQueue.ReleaseOldest | app/src/main/java/com/obss/textlogger/listener/ShakeDetector.kt:142-144 | the oldest sample leaves the chain and goes on the front of the free list, and the arena keeps its size |
| ShakeQueue.SampleQueue.RemoveOldest | app/src/main/java/com/obss/textlogger/listener/ShakeDetector.kt:158-167 | one purge step drops the first value, updates both counters, and clears `newest` when the queue empties; no Sample is allocated |
| ShakeQueue.SampleQueue.Clear | app/src/main/java/com/obss/textlogger/listener/ShakeDetector.kt:140-149 | afterwards the queue is empty with both counters 0, the free list is the old chain reversed in front of the old free list, and no Sample is allocated |
| ShakeQueue.SampleQueue.OldestTimestamp | app/src/main/java/com/obss/textlogger/listener/ShakeDetector.kt:155 | the timestamp the purge loop tests, read from the `oldest` Sample, is the first value of the window |
| ShakeQueue.SampleQueue.PurgeStep | app/src/main/java/com/obss/textlogger/listener/ShakeDetector.kt:155-168 | one turn of the purge loop, taken only when its guard holds, moves the next sample from the chain to the front of the free list and keeps `Purged` of the remaining window equal to `Purged` of the window the purge started from |
| ShakeQueue.SampleQueue.Purge | app/src/main/java/com/obss/textlogger/listener/ShakeDetector.kt:154-169 | the contents become `Purged(old contents, cutoff)`, the chain keeps a suffix, and the removed samples are pushed on the pool in order; no Sample is allocated |
| ShakeQueue.SampleQueue.AsList | app/src/main/java/com/obss/textlogger/listener/ShakeDetector.kt:175-184 | the list holds the live samples oldest first, with the queue's timestamps and flags |
| ShakeQueue.SampleQueue.IsShaking | app/src/main/java/com/obss/textlogger/listener/ShakeDetector.kt:186-191 | the test on the end samples and counters holds exactly when `Shaking` holds of the whole window |
| Detector.Int32 | app/src/main/java/com/obss/textlogger/listener/ShakeDetector.kt:93 | the Kotlin Int product lies in the 32-bit range and is congruent to the exact product modulo 2^32 |
| Detector.MagnitudeSquared | app/src/main/java/com/obss/textlogger/listener/ShakeDetector.kt:89-92 | the squared magnitude `ax² + ay² + az²` of the reading, in exact real arithmetic |
| Detector.IsAccelerating | app/src/main/java/com/obss/textlogger/listener/ShakeDetector.kt:88-94 | for a threshold of magnitude up to 46340, a reading accelerates exactly when its squared magnitude is strictly above the threshold squared |
| Detector.SquareFitsInt32 | app/src/main/java/com/obss/textlogger/listener/ShakeDetector.kt:93 | for a threshold of magnitude up to 46340, the Int square does not wrap |
| Detector.StricterThresholdAcceleratesLess | app/src/main/java/com/obss/textlogger/listener/ShakeDetector.kt:88-101 | for thresholds 0 ≤ lower ≤ higher ≤ 46340 (where the squared threshold fits an Int), raising the threshold never turns a non-accelerating reading into an accelerating one |
| Detector.ThresholdItselfIsNotAccelerating | app/src/main/java/com/obss/textlogger/listener/ShakeDetector.kt:93 | the comparison is strict: a magnitude equal to the threshold does not accelerate |
| Detector.SensitivityLevels | app/src/main/java/com/obss/textlogger/listener/ShakeDetector.kt:17-19 | 12 m/s² on one axis accelerates for LIGHT (11) but not for MEDIUM (13) or HARD (15) |
| Detector.WrappedThresholdAcceleratesAnyMotion | app/src/main/java/com/obss/textlogger/listener/ShakeDetector.kt:93 | at threshold 65536 the Int square wraps to 0, so a reading accelerates exactly when it has any motion |
| Detector.Step | app/src/main/java/com/obss/textlogger/listener/ShakeDetector.kt:70-82 | one reading as a state change: add the classified reading, then hear a shake, empty the window and record the clock exactly when the window shakes and more than 2500 ms passed; its properties are stated by the lemmas below |
| Detector.HeardShakeRespectsCooldown | app/src/main/java/com/obss/textlogger/listener/ShakeDetector.kt:73-81 | a shake is heard exactly when the window after the add shakes and more than 2500 ms passed; then the window empties and `lastTime` is the clock, otherwise `lastTime` is kept |
| Detector.EmptyWindowNeverShakes | app/src/main/java/com/obss/textlogger/listener/ShakeDetector.kt:73-74 | a reading that arrives at an empty window leaves just that sample, and no shake is heard |
| Detector.NoShakeRightAfterShake | app/src/main/java/com/obss/textlogger/listener/ShakeDetector.kt:76-79 | the reading right after a heard shake is never heard as a shake |
| Detector.HeardShakesAreSpaced | app/src/main/java/com/obss/textlogger/listener/ShakeDetector.kt:70-82 | over any run of readings, heard shakes come more than 2500 ms after the starting `lastTime` and more than 2500 ms after each other |
| Detector.AddSampleKeepsQuiet | app/src/main/java/com/obss/textlogger/listener/ShakeDetector.kt:118-135 | adding a non-accelerating sample to a window with no accelerating sample keeps it so |
| Detector.StillDeviceNeverShakes | app/src/main/java/com/obss/textlogger/listener/ShakeDetector.kt:70-82 | readings that never accelerate, from such a window, are never heard as a shake |
| Detector.ShakeDetector.constructor | app/src/main/java/com/obss/textlogger/listener/ShakeDetector.kt:13-30 | a new detector has threshold LIGHT, `lastTime` 0, no sensor and an empty queue |
| Detector.ShakeDetector.Start | app/src/main/java/com/obss/textlogger/listener/ShakeDetector.kt:36-51 | an already started detector returns true; otherwise it registers exactly when a sensor is available, and reports whether it did |
| Detector.ShakeDetector.Stop | app/src/main/java/com/obss/textlogger/listener/ShakeDetector.kt:57-64 | a started detector empties its queue, with every Sample back in the pool, and unregisters; a stopped one changes nothing |
| Detector.ShakeDetector.SetSensitivity | app/src/main/java/com/obss/textlogger/listener/ShakeDetector.kt:99-101 | sets the threshold and nothing else |
| Detector.ShakeDetector.OnSensorChanged | app/src/main/java/com/obss/textlogger/listener/ShakeDetector.kt:70-82 | the new window, `lastTime` and the listener call are exactly `Step` of the old state on the classified reading |
| Detector.ShakeDetector.Fire | app/src/main/java/com/obss/textlogger/listener/ShakeDetector.kt:77-79 | empties the queue, with every Sample back in the pool, and records the clock as `lastTime` |
| ClickThrottle.Respond | app/src/main/java/com/obss/textlogger/utils/Utils.kt:13-18 | one click as a state change: suppressed with the recorded time kept when `now - lastClickTime < 1250`, otherwise run with the second clock reading recorded; its properties are stated by `RespondRule` and the lemmas below |
| ClickThrottle.RespondRule | app/src/main/java/com/obss/textlogger/utils/Utils.kt:11-17 | a click is suppressed exactly when `now - lastClickTime < 1250`; a suppressed click keeps `lastClickTime`, and an accepted one records the clock read after the action |
| ClickThrottle.FirstClickRule | app/src/main/java/com/obss/textlogger/utils/Utils.kt:10-14 | from the initial 0, the first click runs exactly when the clock reads at least 1250 |
| ClickThrottle.RunsAreSpaced | app/src/main/java/com/obss/textlogger/utils/Utils.kt:10-17 | when no click records a time before the reading it decided on (which holds for the monotonic `elapsedRealtime`), the first accepted click comes at least 1250 ms after the recorded time, and each later one at least 1250 ms after the one before |
| ClickThrottle.RunsWithinHorizon | app/src/main/java/com/obss/textlogger/utils/Utils.kt:10-17 | among clicks that all come by time `horizon`, the action runs at most (horizon − lastClickTime) / 1250 times |
| ClickThrottle.DoubleClickRunsOnce | app/src/main/java/com/obss/textlogger/utils/Utils.kt:11-15 | of two clicks 500 ms apart, only the first runs |
| ClickThrottle.ThrottledClickListener.constructor | app/src/main/java/com/obss/textlogger/utils/Utils.kt:10 | the listener starts with `lastClickTime` 0 |
| ClickThrottle.ThrottledClickListener.OnClick | app/src/main/java/com/obss/textlogger/utils/Utils.kt:13-18 | whether the action runs, and the new `lastClickTime`, are exactly `Respond` of the old time on the click |

## Left out

- Object identity is modelled by arena indices. `AsList` returns copies of the Sample records rather than references to the live objects, so aliasing between the list and the queue is not modelled.
- Floating point: the accelerometer components are reals, so Float/Double rounding, NaN and infinities are not modelled. Only the strict comparison with the Int square of the threshold is kept, including its 32-bit wrap-around.
- The `Long` timestamp and clock subtractions are unbounded integers, so 64-bit overflow is not modelled.
- Android sensor plumbing is abstracted. `getDefaultSensor` becomes the `sensorAvailable` parameter of `Start`. `registerListener`/`unregisterListener` and the `sensorManager` field become the `accelerometer` flag. A `SensorEvent` becomes a timestamp and three components. `onAccuracyChanged` does nothing in the source and is not modelled.
- `System.currentTimeMillis()` and `SystemClock.elapsedRealtime()` are method parameters.
- Detector.ShakeDetector.OnSensorChanged: does not require the detector to be started, as in the source, which handles any event it is given. The call to `listener.hearShake()` is the returned `heard` flag.
- The `View.setOnClickListener` and `@BindingAdapter` registration around the throttle is not modelled; only the listener object and its `onClick` are.
- The shake ratio is the code's `(n shr 1) + (n shr 2)`, not a plain 75% rule. A plain 75% rule would suggest that a window with half of its samples accelerating never shakes. The code's formula makes that hold only from 4 samples on (`HalfAcceleratingNeverShakes`). With 2 or 3 samples, one accelerating sample is enough (`HalfAcceleratingShakesWithTwoSamples`).

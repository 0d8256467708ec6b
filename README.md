# Heart-rate monitor core: peak detector and BPM smoother

This project models the signal-processing core of an ESP32 heart-rate
monitor (`main.c`) and proves properties of it in Dafny 4.11.

The firmware oversamples a pulse sensor, filters the result, and feeds a
baseline-relative signal into a small state machine once per tick. A rise
above 80 arms the detector and tracks the peak. A drop after a peak above 150
is a candidate beat. A candidate more than 600 ms after the last beat restarts
the beat clock. Its instantaneous rate `60000 / interval` goes into a ten-slot
ring buffer only if it lies in [60, 89] BPM. The published `BPM` is the integer
mean of all ten slots, and slots never written still count as zeros. The same
tick logic runs in two places: 50 times in the warm-up loop of `setup()`, and
once per call of `loop()`. Each keeps its own `rising`, `peak` and `lastSignal`
(block-scope statics). Both share the globals `lastBeat`, `bpmBuffer`,
`bpmIndex` and `BPM`.

Files and modules:

- `arith.dfy`, module `Arith`: the integer semantics of the target.
  `unsigned long` subtraction wraps at 2^32, conversion to 32-bit `int` is
  modular, and C's `/` truncates toward zero. Also sums of sequences.
- `sampler.dfy`, module `Sampler`: `readPulseSensor`, the average of 20 ADC
  readings, which are passed in.
- `smoother.dfy`, module `Smoother`: the history as a value. `Replay` is the
  ring after a sequence of accepted rates, each written by `Store` at the
  cursor, which then advances (main.c:266-267). `Mean` is the published
  rate, the slot sum divided by ten (main.c:271). Lemmas cover the ring's
  contents and the two regimes of the mean.
- `beats.dfy`, module `Beats`: `Judge`, the verdict on a candidate beat
  (refractory, out of band, or accepted), and the arithmetic of the band.
  `NextBeat` is `lastBeat` after a candidate (main.c:260-262) and `Admitted`
  the rates a verdict adds to the history (main.c:265-266).
- `monitor.dfy`, module `Monitor`: the state that is updated in place.
  `Pipeline` holds the globals, with the buffer as an `array<int>` of 10.
  `Detector` holds one copy of the statics. `Detector.Tick` is the tick, and
  its two branch conditions are `Rises` (main.c:255, main.c:200) and
  `FallingEdge` (main.c:258, main.c:203). `WarmUp` is `setup()`'s 50-tick
  loop. `Pipeline.Valid()` ties the array, the cursor and `BPM` to `Replay`
  of a ghost history of every accepted rate. It is kept by every method. The
  lemmas of `Smoother` thereby apply to the running object.

Inputs that are hardware or time become parameters. The ADC readings go to
`ReadPulseSensor`. The conditioned signal and the `millis()` reading go to
`Tick`, and one pair per iteration goes to `WarmUp`.

Two consequences of the code as written:

- Candidate past the refractory period but out of band: main.c:262 assigns
  `lastBeat = now` before the band check, so such a candidate still restarts
  the refractory clock although its rate is dropped.
  `Beats.OutOfBandRestartsClock` shows a case where this drops a beat that
  would otherwise have been accepted.
- Candidates at least 2^31 ms (about 24.8 days) after the last beat: the
  interval is not always positive. `int interval = now - lastBeat` turns
  negative for such an elapsed time. The division is still safe, and the
  resulting rate (0 or less) is dropped as out of band
  (`Beats.RateOfCandidate`).

## Model

| member | source | states |
|---|---|---|
| `Arith.ULongSub` | main.c:260 | the `unsigned long` difference is the unique value in [0, 2^32) that takes `lastBeat` to `now` modulo 2^32 |
| `Arith.ToInt32` | main.c:261 | the conversion to `int` stays in 32-bit range and is congruent to its input modulo 2^32; it is zero exactly for zero and positive exactly for inputs up to 2^31 - 1 |
| `Arith.CDiv` | main.c:263 | C's `/`: magnitude is the quotient of the magnitudes; a non-zero result is positive exactly when the operands have the same sign |
| `Sampler.ReadPulseSensor` | main.c:42-49 | the sample is the sum of the 20 readings divided by 20 with truncation, the loop proves that the `int` accumulator never overflows, and the result is a 12-bit value |
| `Sampler.AverageWithinReadings` | main.c:43-48 | if every reading lies in [lo, hi] so does the oversampled value |
| `Smoother.Replay` | main.c:266-267 | after any number of accepted rates the buffer has ten slots and the cursor is that number modulo ten |
| `Smoother.ReplayRecent` | main.c:266-267 | the j-th most recent accepted rate (j < 10) sits j + 1 slots behind the cursor, not yet overwritten |
| `Smoother.ReplayPrefill` | main.c:266-267 | before the buffer wraps it holds the accepted rates in order followed by the initial zeros |
| `Smoother.ReplayWindow` | main.c:266-267 | after ten or more accepted rates the buffer holds exactly the last ten, rotated so the oldest sits at the cursor |
| `Smoother.ReplayFromCursor` | main.c:266-267 | after ten or more accepted rates, reading from the cursor round the ring lists the last ten oldest first |
| `Smoother.SmoothedBeforeFill` | main.c:269-271 | with at most ten accepted rates, the slot sum is their sum and `BPM` is that sum divided by ten (zeros count) |
| `Smoother.SmoothedAfterFill` | main.c:269-271 | with ten or more accepted rates, `BPM` is the truncated mean of the last ten |
| `Smoother.SmoothedRate` | main.c:269-271 | the two regimes above, for any number of accepted rates |
| `Smoother.ReplayAdmissible` | main.c:265-266 | recording only in-band rates leaves every slot either 0 or in [60, 89] |
| `Smoother.MeanBounds` | main.c:269-271 | the mean of ten admissible slots is in [0, 89], and in [60, 89] once all slots hold rates |
| `Smoother.SteadyRate` | main.c:266-271 | once the last ten accepted beats share one in-band rate, that rate is published exactly, whatever was accepted before |
| `Beats.Judge` | main.c:259-265 | a candidate is refractory iff the elapsed time is at most 600 ms; accepted iff it is 667 to 1000 ms, and then its rate is 60000 / elapsed and in band; every non-refractory rate is below 100 |
| `Beats.RateOfCandidate` | main.c:260-265 | past 600 ms the converted interval is non-zero, the rate is below 100, and it is in band exactly for 667 to 1000 ms, where it equals the mathematical quotient |
| `Beats.BandWindow` | main.c:263-265 | for a positive interval, 60000 / interval is in [60, 89] exactly when the interval is in [667, 1000] |
| `Beats.RefractoryEnforced` | main.c:260-266 | of two successive candidates at most 600 ms apart, at most one adds a rate to the history, whichever way the first is judged |
| `Beats.SteadyPulse` | main.c:260-265 | beats 700 ms apart are accepted at 85 BPM wherever the wrapping clock stands |
| `Beats.OutOfBandRestartsClock` | main.c:260-265 | an out-of-band candidate at 610 ms restarts the clock, so a beat at 1000 ms is refractory instead of accepted at 60 BPM |
| `Monitor.Pipeline.constructor` | main.c:22-25 | start-up globals: `BPM` 0, `lastBeat` 0, cursor 0, a zero-filled buffer, no accepted rate |
| `Monitor.Pipeline.CurrentBpm` | main.c:269-271 | the published rate is in [0, 89]; before ten beats it is their sum divided by ten, afterwards the mean of the last ten |
| `Monitor.Pipeline.LastTenHeld` | main.c:266-267 | after ten or more accepted beats the array, read from `bpmIndex` round, is the last ten accepted rates |
| `Monitor.Pipeline.SumSlots` | main.c:270 | the loop's total is the sum of all ten slots |
| `Monitor.Pipeline.Record` | main.c:266-271 | the rate lands at the old cursor, every other slot is unchanged, the cursor advances modulo ten, `BPM` becomes the mean, `lastBeat` is untouched, and the invariant is kept |
| `Monitor.Pipeline.Candidate` | main.c:259-275 | refractory: nothing changes; otherwise `lastBeat := now` whatever the rate; only an in-band rate is written and republished, and an out-of-band one leaves buffer, cursor and `BPM` unchanged |
| `Monitor.Pipeline.CandidatePair` | main.c:259-271 | two successive candidates at most 600 ms apart keep the invariant and extend the accepted history by at most one rate |
| `Monitor.Detector.constructor` | main.c:250-252 | the statics start as not rising, peak 0, last signal 0 |
| `Monitor.Detector.Tick` | main.c:255-279 | a rise above 80 takes precedence and sets `rising` and the running peak without touching the pipeline; a falling edge after a peak above 150 resets `rising` and `peak` whatever the verdict and hands the candidate to the pipeline; otherwise nothing but `lastSignal` changes; `lastSignal` is the tick's signal in every case |
| `Monitor.WarmUp` | main.c:189-226 | fifty ticks of a fresh detector keep the pipeline invariant, only extend the accepted history, and leave `lastBeat` where it was or at one of the clock readings |

## Left out

- Signal conditioning: the exponential filter and the adaptive baseline
  (main.c:192-194, main.c:246-248) are floating-point numerics. The
  baseline-relative signal is an input of `Tick`.
- `float` rounding: `relativeSignal`, `peak` and `lastSignal` are `real`, so
  the threshold comparisons are exact.
- Hardware I/O and timing: `analogRead`, `delayMicroseconds`, `delay` and
  `millis` are not modelled. Their values are parameters. The readings are
  typed as 12-bit ADC values (0 to 4095).
- The web server, the HTML page and `handleData`'s JSON response
  (main.c:52-145) are network I/O and client UI. `Pipeline.CurrentBpm` stands
  for the read they perform.
- Wi-Fi access-point setup (`connectWiFi`, main.c:148-155), the OLED display
  and its 500 ms throttle, the LED and `Serial` logging are presentation or
  hardware set-up.
- The `for (;;);` halt when the display fails to start (main.c:166) is a
  hardware-initialisation failure path.
- The Arduino runtime's endless repetition of `loop()` is not modelled. Each
  call of `loop()` is one `Tick` of the main loop's `Detector` on the shared
  `Pipeline`.
- Monitor.WarmUp: states the invariant, the growth of the accepted history
  and where `lastBeat` can end up. It does not give the exact state after the
  fifty ticks. `Tick`'s contract gives that one tick at a time.

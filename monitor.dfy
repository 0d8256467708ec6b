/** The firmware's per-tick peak detector and BPM smoother, with the state
    it updates in place: the process-wide pipeline globals and, for each of
    the warm-up loop and the main loop, the detector's own persistent state. */
module Monitor {
  import opened Arith
  import opened Smoother
  import opened Beats

  /** A rising signal counts only above this level. */
  const RISE_THRESHOLD: real := 80.0
  /** A falling edge is a candidate beat only after a peak above this level. */
  const PEAK_THRESHOLD: real := 150.0
  /** Ticks run by the warm-up loop at start-up. */
  const WARMUP_SAMPLES: int := 50

  /** The tick's first branch: the signal climbs and is above the noise floor. */
  predicate Rises(lastSignal: real, signal: real)
  {
    signal > lastSignal && signal > RISE_THRESHOLD
  }

  /** The tick's second branch: the signal drops after a big enough rise. */
  predicate FallingEdge(rising: bool, peak: real, lastSignal: real, signal: real)
  {
    signal < lastSignal && rising && peak > PEAK_THRESHOLD
  }

  function Max(a: real, b: real): real { if a < b then b else a }

  /** The globals shared by the warm-up loop and the main loop: the time of
      the last beat, the published rate, and the ten-slot history with its
      write cursor. `accepted` records, for the proof only, every rate the
      history has taken in. */
  class Pipeline {
    var bpm: int
    var lastBeat: int
    var bpmBuffer: array<int>
    var bpmIndex: int
    ghost var accepted: seq<int>

    /** The history is what recording `accepted` into the zeroed buffer
        gives, and the published rate is its mean. */
    ghost predicate Valid()
      reads this, bpmBuffer
    {
      bpmBuffer.Length == BUFFER_SIZE &&
      IsULong(lastBeat) &&
      (forall i :: 0 <= i < |accepted| ==> InBand(accepted[i])) &&
      Replay(accepted) == Ring(bpmBuffer[..], bpmIndex) &&
      bpm == Mean(bpmBuffer[..])
    }

    /** Start-up values: no beat yet, a zeroed history, rate 0. */
    constructor ()
      ensures Valid() && fresh(bpmBuffer)
      ensures accepted == [] && lastBeat == 0 && bpm == 0 && bpmIndex == 0
      ensures bpmBuffer[..] == Zeros(BUFFER_SIZE)
    {
      bpm, lastBeat, bpmIndex := 0, 0, 0;
      bpmBuffer := new int[BUFFER_SIZE](_ => 0);
      accepted := [];
      new;
      assert bpmBuffer[..] == Zeros(BUFFER_SIZE);
      SumBounds(bpmBuffer[..], 0, 0);
    }

    /** The published rate, as the query interface and the display read it:
        never negative nor above the band; before ten beats were accepted,
        their sum divided by ten; afterwards, the mean of the last ten. */
    function CurrentBpm(): (r: int)
      reads this, bpmBuffer
      requires Valid()
      ensures 0 <= r <= BAND_HIGH
      ensures |accepted| <= BUFFER_SIZE ==> r == CDiv(Sum(accepted), BUFFER_SIZE)
      ensures |accepted| >= BUFFER_SIZE ==> r == Mean(accepted[|accepted| - BUFFER_SIZE..])
    {
      ReplayAdmissible(accepted);
      MeanBounds(bpmBuffer[..]);
      SmoothedRate(accepted);
      bpm
    }

    /** After ten or more accepted beats the history holds exactly the last
        ten: read from the cursor round to the slot before it, the buffer
        lists them oldest first. */
    lemma LastTenHeld()
      requires Valid() && |accepted| >= BUFFER_SIZE
      ensures bpmBuffer[bpmIndex..] + bpmBuffer[..bpmIndex] == accepted[|accepted| - BUFFER_SIZE..]
    {
      ReplayFromCursor(accepted);
      assert bpmBuffer[bpmIndex..] == bpmBuffer[..][bpmIndex..];
      assert bpmBuffer[..bpmIndex] == bpmBuffer[..][..bpmIndex];
    }

    /** The sum of all ten slots, accumulated slot by slot. */
    method SumSlots() returns (total: int)
      requires bpmBuffer.Length == BUFFER_SIZE
      ensures total == Sum(bpmBuffer[..])
    {
      total := 0;
      for j := 0 to BUFFER_SIZE
        invariant total == Sum(bpmBuffer[..j])
      {
        assert bpmBuffer[..j + 1][..j] == bpmBuffer[..j];
        total := total + bpmBuffer[j];
      }
      assert bpmBuffer[..BUFFER_SIZE] == bpmBuffer[..];
    }

    /** An accepted rate: written at the cursor, the cursor advanced modulo
        ten, every other slot kept, and the rate republished as the mean. */
    method Record(value: int)
      requires Valid() && InBand(value)
      modifies this, bpmBuffer
      ensures Valid() && bpmBuffer == old(bpmBuffer)
      ensures accepted == old(accepted) + [value]
      ensures bpmBuffer[..] == old(bpmBuffer[..])[old(bpmIndex) := value]
      ensures bpmIndex == (old(bpmIndex) + 1) % BUFFER_SIZE
      ensures bpm == Mean(bpmBuffer[..])
      ensures lastBeat == old(lastBeat)
    {
      bpmBuffer[bpmIndex] := value;
      bpmIndex := (bpmIndex + 1) % BUFFER_SIZE;
      var sum := SumSlots();
      bpm := CDiv(sum, BUFFER_SIZE);
      accepted := accepted + [value];
      assert accepted[..|accepted| - 1] == old(accepted);
    }

    /** The effect of a candidate beat at clock reading `now`. Inside the
        refractory period nothing changes. Past it the clock restarts at
        `now` whatever the rate, and only an in-band rate is recorded. */
    twostate predicate Handled(now: int)
      reads this, bpmBuffer
      requires old(Valid()) && IsULong(now)
    {
      var v := Judge(now, old(lastBeat));
      && lastBeat == NextBeat(now, old(lastBeat))
      && accepted == old(accepted) + Admitted(v)
      && (v.Accepted? ==>
            && bpmBuffer[..] == old(bpmBuffer[..])[old(bpmIndex) := v.bpm]
            && bpmIndex == (old(bpmIndex) + 1) % BUFFER_SIZE
            && bpm == Mean(bpmBuffer[..]))
      && (!v.Accepted? ==>
            bpmBuffer[..] == old(bpmBuffer[..]) && bpmIndex == old(bpmIndex) && bpm == old(bpm))
    }

    /** A candidate beat: lines up the refractory test, the restart of the
        clock, the rate and the band check as `Handled` describes. */
    method Candidate(now: int)
      requires Valid() && IsULong(now)
      modifies this, bpmBuffer
      ensures Valid() && bpmBuffer == old(bpmBuffer)
      ensures Handled(now)
    {
      var elapsed := ULongSub(now, lastBeat);
      if elapsed > REFRACTORY_MS {
        RateOfCandidate(elapsed);
        var interval := ToInt32(elapsed);
        lastBeat := now;
        var currentBpm := CDiv(MS_PER_MINUTE, interval);
        if currentBpm >= BAND_LOW && currentBpm <= BAND_HIGH {
          Record(currentBpm);
        }
      }
    }

    /** Two successive candidates at most 600 ms apart: the history grows by
        at most one rate, however the first is judged. */
    method CandidatePair(first: int, second: int)
      requires Valid() && IsULong(first) && IsULong(second)
      requires ULongSub(second, first) <= REFRACTORY_MS
      modifies this, bpmBuffer
      ensures Valid() && bpmBuffer == old(bpmBuffer)
      ensures old(accepted) <= accepted && |accepted| <= |old(accepted)| + 1
    {
      ghost var lastBeat0, accepted0 := lastBeat, accepted;
      Candidate(first);
      Candidate(second);
      RefractoryEnforced(lastBeat0, first, second);
      assert accepted == accepted0 + Admitted(Judge(first, lastBeat0))
                                   + Admitted(Judge(second, NextBeat(first, lastBeat0)));
    }
  }

  /** The peak detector's persistent state. The warm-up loop and the main
      loop each keep their own copy; both act on the one pipeline. */
  class Detector {
    var rising: bool
    var peak: real
    var lastSignal: real

    constructor ()
      ensures !rising && peak == 0.0 && lastSignal == 0.0
    {
      rising, peak, lastSignal := false, 0.0, 0.0;
    }

    /** One tick on the baseline-relative signal, with the clock reading a
        candidate beat would take. A rise above the noise floor takes
        precedence and tracks the peak; a falling edge after a big enough
        peak is handed to the pipeline as a candidate and resets the rise
        whatever its verdict; the signal is remembered in every case. */
    method Tick(signal: real, now: int, p: Pipeline)
      requires p.Valid() && IsULong(now)
      modifies this, p, p.bpmBuffer
      ensures p.Valid() && p.bpmBuffer == old(p.bpmBuffer)
      ensures lastSignal == signal
      ensures Rises(old(lastSignal), signal) ==>
                && rising && peak == Max(old(peak), signal)
                && unchanged(p) && unchanged(p.bpmBuffer)
      ensures !Rises(old(lastSignal), signal) && FallingEdge(old(rising), old(peak), old(lastSignal), signal) ==>
                && !rising && peak == 0.0
                && p.Handled(now)
      ensures !Rises(old(lastSignal), signal) && !FallingEdge(old(rising), old(peak), old(lastSignal), signal) ==>
                && rising == old(rising) && peak == old(peak)
                && unchanged(p) && unchanged(p.bpmBuffer)
    {
      if signal > lastSignal && signal > RISE_THRESHOLD {
        rising := true;
        if signal > peak {
          peak := signal;
        }
      } else if signal < lastSignal && rising && peak > PEAK_THRESHOLD {
        p.Candidate(now);
        rising, peak := false, 0.0;
        assert p.Handled(now);
      }
      lastSignal := signal;
    }
  }

  /** The warm-up at start-up: fifty ticks of a detector of its own on the
      shared pipeline, one per conditioned sample, each with its own clock
      reading. The history only grows, and the last beat is either where it
      was or one of the clock readings. */
  method WarmUp(p: Pipeline, signals: seq<real>, clock: seq<int>)
    requires p.Valid()
    requires |signals| == WARMUP_SAMPLES && |clock| == WARMUP_SAMPLES
    requires forall i :: 0 <= i < |clock| ==> IsULong(clock[i])
    modifies p, p.bpmBuffer
    ensures p.Valid() && p.bpmBuffer == old(p.bpmBuffer)
    ensures old(p.accepted) <= p.accepted
    ensures p.lastBeat == old(p.lastBeat) || p.lastBeat in clock
  {
    var d := new Detector();
    for i := 0 to WARMUP_SAMPLES
      invariant p.Valid() && p.bpmBuffer == old(p.bpmBuffer)
      invariant old(p.accepted) <= p.accepted
      invariant p.lastBeat == old(p.lastBeat) || p.lastBeat in clock[..i]
    {
      d.Tick(signals[i], clock[i], p);
    }
  }
}

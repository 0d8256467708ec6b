/** The verdict on a candidate beat: the refractory test on the wrapping
    millisecond clock, the instantaneous rate, and the acceptance band. */
module Beats {
  import opened Arith
  import opened Smoother

  /** A candidate this close to the last beat (or closer) is ignored. */
  const REFRACTORY_MS: int := 600
  const MS_PER_MINUTE: int := 60000

  /** The shortest and longest intervals whose rate falls in the band. */
  const SHORTEST_ACCEPTED_MS: int := 667
  const LONGEST_ACCEPTED_MS: int := 1000

  /** What happens to a candidate beat:
      - Refractory: too soon after the last beat; nothing changes;
      - OutOfBand: the clock restarts at the candidate, its rate is dropped;
      - Accepted: the clock restarts and the rate goes into the history. */
  datatype Verdict = Refractory | OutOfBand(bpm: int) | Accepted(bpm: int)

  /** The verdict on a candidate at clock reading `now` when the last beat
      was at `lastBeat`. The elapsed time is an unsigned subtraction; it is
      then converted to `int` before 60000 is divided by it. */
  function Judge(now: int, lastBeat: int): (v: Verdict)
    requires IsULong(now) && IsULong(lastBeat)
    ensures v.Refractory? <==> ULongSub(now, lastBeat) <= REFRACTORY_MS
    ensures v.Accepted? <==> SHORTEST_ACCEPTED_MS <= ULongSub(now, lastBeat) <= LONGEST_ACCEPTED_MS
    ensures v.Accepted? ==> InBand(v.bpm) && v.bpm == Quotient(MS_PER_MINUTE, ULongSub(now, lastBeat))
    ensures !v.Refractory? ==> v.bpm < 100
  {
    var elapsed := ULongSub(now, lastBeat);
    if elapsed <= REFRACTORY_MS then Refractory
    else
      var interval := ToInt32(elapsed);
      var bpm := CDiv(MS_PER_MINUTE, interval);
      RateOfCandidate(elapsed);
      if BAND_LOW <= bpm && bpm <= BAND_HIGH then Accepted(bpm) else OutOfBand(bpm)
  }

  /** Past the refractory period the division is safe and the rate is below
      100; it is in the band exactly when the interval is 667 to 1000 ms.
      An interval of 2^31 ms or more turns negative as an `int`, and its
      rate, 0 or less, is out of band. */
  lemma RateOfCandidate(elapsed: int)
    requires IsULong(elapsed) && elapsed > REFRACTORY_MS
    ensures ToInt32(elapsed) != 0
    ensures CDiv(MS_PER_MINUTE, ToInt32(elapsed)) < 100
    ensures InBand(CDiv(MS_PER_MINUTE, ToInt32(elapsed)))
            <==> SHORTEST_ACCEPTED_MS <= elapsed <= LONGEST_ACCEPTED_MS
    ensures InBand(CDiv(MS_PER_MINUTE, ToInt32(elapsed)))
            ==> CDiv(MS_PER_MINUTE, ToInt32(elapsed)) == Quotient(MS_PER_MINUTE, elapsed)
  {
    var interval := ToInt32(elapsed);
    if interval > 0 {
      assert interval == elapsed;
      BandWindow(interval);
      var q := Quotient(MS_PER_MINUTE, interval);
      if q >= 100 {
        MulMonotone(100, q, interval);
        MulMonotone(REFRACTORY_MS, interval, 100);
      }
    }
  }

  /** For a positive interval, 60000 / interval lies in [60, 89] exactly
      when the interval lies in [667, 1000]. */
  lemma BandWindow(interval: int)
    requires interval > 0
    ensures InBand(Quotient(MS_PER_MINUTE, interval))
            <==> SHORTEST_ACCEPTED_MS <= interval <= LONGEST_ACCEPTED_MS
  {
  }

  /** The rates a verdict adds to the history. */
  function Admitted(v: Verdict): (added: seq<int>)
    ensures |added| <= 1
    ensures added == [] <==> !v.Accepted?
  {
    if v.Accepted? then [v.bpm] else []
  }

  /** The last beat once a candidate at `now` was judged: it restarts at
      `now` unless the candidate was refractory. */
  function NextBeat(now: int, lastBeat: int): (next: int)
    requires IsULong(now) && IsULong(lastBeat)
    ensures IsULong(next)
  {
    if Judge(now, lastBeat).Refractory? then lastBeat else now
  }

  /** Of two successive candidates at most 600 ms apart, at most one adds a
      rate to the history: if the first restarts the clock the second is
      refractory, and if it does not, the first adds nothing. */
  lemma RefractoryEnforced(lastBeat: int, first: int, second: int)
    requires IsULong(lastBeat) && IsULong(first) && IsULong(second)
    requires ULongSub(second, first) <= REFRACTORY_MS
    ensures |Admitted(Judge(first, lastBeat))| + |Admitted(Judge(second, NextBeat(first, lastBeat)))| <= 1
  {
  }

  /** Beats 700 ms apart, wherever the clock stands, are accepted at 85 BPM. */
  lemma SteadyPulse(lastBeat: int)
    requires IsULong(lastBeat)
    ensures Judge((lastBeat + 700) % ULONG_MOD, lastBeat) == Accepted(85)
  {
    var now := (lastBeat + 700) % ULONG_MOD;
    assert ULongSub(now, lastBeat) == 700;
  }

  /** The clock restarts even at an out-of-band candidate: a blip 610 ms
      after a beat at time 0 is dropped (98 BPM) yet becomes the reference,
      so a real beat at 1000 ms falls in its refractory period, where it
      would have been accepted at 60 BPM against the beat at time 0. */
  lemma OutOfBandRestartsClock()
    ensures Judge(610, 0) == OutOfBand(98)
    ensures Judge(1000, 610) == Refractory
    ensures Judge(1000, 0) == Accepted(60)
  {
  }
}

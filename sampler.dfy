/** The sampler: one averaged sample out of a burst of raw ADC readings.
    The readings are passed in; reading the pin and the delays between
    reads are hardware I/O. */
module Sampler {
  import opened Arith

  /** Readings averaged per sample. */
  const ADC_SAMPLES: int := 20
  /** The ESP32's ADC converts to 12 bits. */
  const ADC_MAX: int := 4095

  type Reading = x: int | 0 <= x <= ADC_MAX

  /** The oversampled value: the sum of the readings, accumulated in an
      `int` that never overflows, divided by their number with truncation. */
  method ReadPulseSensor(readings: seq<Reading>) returns (average: int)
    requires |readings| == ADC_SAMPLES
    ensures average == CDiv(Sum(readings), ADC_SAMPLES)
    ensures 0 <= average <= ADC_MAX
  {
    var sum := 0;
    for i := 0 to ADC_SAMPLES
      invariant sum == Sum(readings[..i])
      invariant 0 <= sum <= i * ADC_MAX
    {
      assert readings[..i + 1][..i] == readings[..i];
      sum := sum + readings[i];
      assert IsInt32(sum);
    }
    assert readings[..ADC_SAMPLES] == readings;
    average := CDiv(sum, ADC_SAMPLES);
    TruncatedQuotient(sum, ADC_SAMPLES, 0, ADC_MAX);
  }

  /** Oversampling never leaves the range of the readings: if every
      reading lies in [lo, hi], so does their truncated mean. */
  lemma AverageWithinReadings(readings: seq<Reading>, lo: int, hi: int)
    requires |readings| == ADC_SAMPLES && 0 <= lo
    requires forall i :: 0 <= i < |readings| ==> lo <= readings[i] <= hi
    ensures lo <= CDiv(Sum(readings), ADC_SAMPLES) <= hi
  {
    SumBounds(readings, lo, hi);
    TruncatedQuotient(Sum(readings), ADC_SAMPLES, lo, hi);
  }
}

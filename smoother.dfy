/** The BPM smoother, as values: the ten-slot history of accepted beat
    rates, its write cursor, and the published mean. The in-place version
    that the firmware runs is `Monitor.Pipeline`; it is proved to stay equal
    to `Replay` of the values it accepted. */
module Smoother {
  import opened Arith

  /** Slots in the history. */
  const BUFFER_SIZE: int := 10
  /** The acceptance band for an instantaneous rate, both ends included. */
  const BAND_LOW: int := 60
  const BAND_HIGH: int := 89

  predicate InBand(bpm: int) { BAND_LOW <= bpm <= BAND_HIGH }

  /** What a slot can hold: its initial zero or an accepted rate. */
  predicate Admissible(slot: int) { slot == 0 || InBand(slot) }

  /** The published rate: all ten slots summed and divided with truncation,
      zero slots included. */
  function Mean(slots: seq<int>): (m: int)
  {
    CDiv(Sum(slots), BUFFER_SIZE)
  }

  function Zeros(n: nat): (z: seq<int>)
    ensures |z| == n && forall i :: 0 <= i < n ==> z[i] == 0
  {
    seq(n, _ => 0)
  }

  /** The history buffer and the slot the next value goes to. */
  datatype Ring = Ring(slots: seq<int>, cursor: int)

  /** One write: the value lands at the cursor, which moves on by one slot. */
  function Store(r: Ring, value: int): (next: Ring)
    requires 0 <= r.cursor < |r.slots|
  {
    Ring(r.slots[r.cursor := value], (r.cursor + 1) % BUFFER_SIZE)
  }

  /** The history after recording `values`, oldest first, into the
      zero-filled buffer whose cursor starts at slot 0. */
  function Replay(values: seq<int>): (r: Ring)
    ensures |r.slots| == BUFFER_SIZE
    ensures r.cursor == |values| % BUFFER_SIZE
  {
    if values == [] then Ring(Zeros(BUFFER_SIZE), 0)
    else Store(Replay(values[..|values| - 1]), values[|values| - 1])
  }

  /** The slot `k` places behind slot `c`, going round the ring. */
  function Behind(c: int, k: int): (slot: int)
    requires 0 <= c < BUFFER_SIZE && 0 <= k <= BUFFER_SIZE
    ensures 0 <= slot < BUFFER_SIZE && (slot + k) % BUFFER_SIZE == c
  {
    if k <= c then c - k else c + BUFFER_SIZE - k
  }

  /** The j-th most recent value (j = 0 the latest) sits j + 1 slots behind
      the cursor, for as long as it has not been overwritten. */
  lemma {:induction false} ReplayRecent(values: seq<int>, j: int)
    requires 0 <= j < |values| && j < BUFFER_SIZE
    ensures Replay(values).slots[Behind(Replay(values).cursor, j + 1)] == values[|values| - 1 - j]
  {
    var before := values[..|values| - 1];
    var r := Replay(before);
    var c := r.cursor;
    assert Replay(values) == Ring(r.slots[c := values[|values| - 1]], (c + 1) % BUFFER_SIZE);
    var slot := Behind(c, j);
    assert Behind((c + 1) % BUFFER_SIZE, j + 1) == slot;
    if j > 0 {
      ReplayRecent(before, j - 1);
      assert slot != c;
    }
  }

  /** Before the buffer has wrapped, it holds the values in order followed
      by the zeros it started with. */
  lemma {:induction false} ReplayPrefill(values: seq<int>)
    requires |values| <= BUFFER_SIZE
    ensures Replay(values).slots == values + Zeros(BUFFER_SIZE - |values|)
  {
    if values != [] {
      var before, last := values[..|values| - 1], values[|values| - 1];
      var r := Replay(before);
      ReplayPrefill(before);
      assert r.cursor == |before|;
      var expected := values + Zeros(BUFFER_SIZE - |values|);
      forall k | 0 <= k < BUFFER_SIZE
        ensures r.slots[|before| := last][k] == expected[k]
      {
        if k < |before| {
          assert r.slots[k] == before[k];
        }
      }
    }
  }

  /** Once ten or more values were recorded, the buffer holds exactly the
      last ten, rotated so that the oldest of them sits at the cursor. */
  lemma {:induction false} ReplayWindow(values: seq<int>)
    requires |values| >= BUFFER_SIZE
    ensures var window, c := values[|values| - BUFFER_SIZE..], Replay(values).cursor;
            Replay(values).slots == window[BUFFER_SIZE - c..] + window[..BUFFER_SIZE - c]
  {
    var window, c := values[|values| - BUFFER_SIZE..], Replay(values).cursor;
    var rotated := window[BUFFER_SIZE - c..] + window[..BUFFER_SIZE - c];
    forall p | 0 <= p < BUFFER_SIZE
      ensures Replay(values).slots[p] == rotated[p]
    {
      var j := if p < c then c - 1 - p else c + BUFFER_SIZE - 1 - p;
      ReplayRecent(values, j);
      assert Behind(c, j + 1) == p;
    }
  }

  /** Once ten or more values were recorded, reading the buffer from the
      cursor round to the slot before it lists the last ten, oldest first. */
  lemma {:induction false} ReplayFromCursor(values: seq<int>)
    requires |values| >= BUFFER_SIZE
    ensures var r := Replay(values);
            r.slots[r.cursor..] + r.slots[..r.cursor] == values[|values| - BUFFER_SIZE..]
  {
    var r, window := Replay(values), values[|values| - BUFFER_SIZE..];
    var c := r.cursor;
    var newer, older := window[BUFFER_SIZE - c..], window[..BUFFER_SIZE - c];
    ReplayWindow(values);
    assert r.slots == newer + older;
    assert r.slots[c..] == older;
    assert r.slots[..c] == newer;
    assert window == older + newer;
  }

  /** Before the buffer fills, the published rate is the sum of the
      accepted values divided by ten: the empty slots count as zeros. */
  lemma {:induction false} SmoothedBeforeFill(values: seq<int>)
    requires |values| <= BUFFER_SIZE
    ensures Sum(Replay(values).slots) == Sum(values)
    ensures Mean(Replay(values).slots) == CDiv(Sum(values), BUFFER_SIZE)
  {
    var zeros := Zeros(BUFFER_SIZE - |values|);
    ReplayPrefill(values);
    SumConcat(values, zeros);
    SumBounds(zeros, 0, 0);
  }

  /** Once ten or more values were accepted, the published rate is the
      truncated mean of the last ten of them. */
  lemma {:induction false} SmoothedAfterFill(values: seq<int>)
    requires |values| >= BUFFER_SIZE
    ensures Sum(Replay(values).slots) == Sum(values[|values| - BUFFER_SIZE..])
    ensures Mean(Replay(values).slots) == Mean(values[|values| - BUFFER_SIZE..])
  {
    var window, c := values[|values| - BUFFER_SIZE..], Replay(values).cursor;
    var older, newer := window[..BUFFER_SIZE - c], window[BUFFER_SIZE - c..];
    ReplayWindow(values);
    assert Replay(values).slots == newer + older;
    SumConcat(newer, older);
    assert window == older + newer;
    SumConcat(older, newer);
  }

  /** The two regimes of the published rate, for any number of accepted values. */
  lemma SmoothedRate(values: seq<int>)
    ensures |values| <= BUFFER_SIZE ==> Mean(Replay(values).slots) == CDiv(Sum(values), BUFFER_SIZE)
    ensures |values| >= BUFFER_SIZE ==> Mean(Replay(values).slots) == Mean(values[|values| - BUFFER_SIZE..])
  {
    if |values| <= BUFFER_SIZE {
      SmoothedBeforeFill(values);
    }
    if |values| >= BUFFER_SIZE {
      SmoothedAfterFill(values);
    }
  }

  /** Recording only in-band values leaves every slot admissible. */
  lemma {:induction false} ReplayAdmissible(values: seq<int>)
    requires forall i :: 0 <= i < |values| ==> InBand(values[i])
    ensures forall k :: 0 <= k < BUFFER_SIZE ==> Admissible(Replay(values).slots[k])
  {
    if values != [] {
      ReplayAdmissible(values[..|values| - 1]);
    }
  }

  /** The published rate is 0 or more and never above the band; once every
      slot holds an accepted value it lies inside the band. */
  lemma {:induction false} MeanBounds(slots: seq<int>)
    requires |slots| == BUFFER_SIZE
    requires forall k :: 0 <= k < BUFFER_SIZE ==> Admissible(slots[k])
    ensures 0 <= Mean(slots) <= BAND_HIGH
    ensures (forall k :: 0 <= k < BUFFER_SIZE ==> InBand(slots[k])) ==> InBand(Mean(slots))
  {
    SumBounds(slots, 0, BAND_HIGH);
    TruncatedQuotient(Sum(slots), BUFFER_SIZE, 0, BAND_HIGH);
    if forall k :: 0 <= k < BUFFER_SIZE ==> InBand(slots[k]) {
      SumBounds(slots, BAND_LOW, BAND_HIGH);
      TruncatedQuotient(Sum(slots), BUFFER_SIZE, BAND_LOW, BAND_HIGH);
    }
  }

  /** A steady rhythm: once the last ten accepted beats were all at the same
      rate, the published rate is exactly that rate, whatever came before;
      a change of rhythm has settled ten beats after it. */
  lemma {:induction false} SteadyRate(values: seq<int>, bpm: int)
    requires |values| >= BUFFER_SIZE && InBand(bpm)
    requires forall i :: |values| - BUFFER_SIZE <= i < |values| ==> values[i] == bpm
    ensures Mean(Replay(values).slots) == bpm
  {
    SmoothedAfterFill(values);
    var window := values[|values| - BUFFER_SIZE..];
    assert forall k :: 0 <= k < BUFFER_SIZE ==> window[k] == values[|values| - BUFFER_SIZE + k];
    SumBounds(window, bpm, bpm);
    TruncatedQuotient(Sum(window), BUFFER_SIZE, bpm, bpm);
  }
}

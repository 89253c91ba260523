/**
  The latency average over whole sequences of samples (backend/backend.go, RecordLatency).

  One update rounds twice: the floating-point evaluation is off by `err`, and the conversion
  back to an integer drops a fraction.  The theorems bound both together by one tolerance `e`
  and show that the roundings never accumulate beyond 5e.
 */
module Latency {
  import opened Backends

  datatype Sample = Sample(value: int, err: real)

  /** The average after all of `xs`, oldest first. */
  function Average(avg: int, xs: seq<Sample>): int
    decreases |xs|
  {
    if xs == [] then avg else Average(NextAverage(avg, xs[0].value, xs[0].err), xs[1..])
  }

  /** A backend that records these samples one after the other ends with that average. */
  method RecordAll(b: Backend, xs: seq<Sample>)
    modifies b`avgLatency
    ensures b.avgLatency == Average(old(b.avgLatency), xs)
  {
    for n := 0 to |xs|
      invariant Average(b.avgLatency, xs[n..]) == Average(old(b.avgLatency), xs)
    {
      assert xs[n..][1..] == xs[n + 1..];
      b.RecordLatency(xs[n].value, xs[n].err);
    }
  }

  /** This update is off by at most `e` from the exact weighted sum. */
  predicate WithinTolerance(avg: int, x: Sample, e: real) {
    avg == 0 ||
    -e <= NextAverage(avg, x.value, x.err) as real - (0.8 * avg as real + 0.2 * x.value as real) <= e
  }

  /** Every update of the sequence is. */
  predicate Tolerable(avg: int, xs: seq<Sample>, e: real)
    decreases |xs|
  {
    xs == [] ||
    (WithinTolerance(avg, xs[0], e) && Tolerable(NextAverage(avg, xs[0].value, xs[0].err), xs[1..], e))
  }

  predicate Between(lo: real, x: int, hi: real) {
    lo <= x as real <= hi
  }

  /** Dropping the fraction costs less than 1 and never crosses an integer toward infinity. */
  lemma TruncateIsClose(x: real)
    ensures -1.0 < Truncate(x) as real - x < 1.0
    ensures x >= 0.0 ==> 0 <= Truncate(x) && Truncate(x) as real <= x
    ensures x <= 0.0 ==> Truncate(x) <= 0 && x <= Truncate(x) as real
  {
  }

  /** The tolerance of one update is its floating-point error plus 1. */
  lemma ToleranceOfUpdate(avg: int, x: Sample, bound: real)
    requires -bound <= x.err <= bound
    ensures WithinTolerance(avg, x, bound + 1.0)
  {
    TruncateIsClose(0.8 * avg as real + 0.2 * x.value as real + x.err);
  }

  /** So a bound on the floating-point errors alone makes the whole sequence tolerable. */
  lemma {:induction false} ToleranceOfRun(avg: int, xs: seq<Sample>, bound: real)
    requires forall i :: 0 <= i < |xs| ==> -bound <= xs[i].err <= bound
    ensures Tolerable(avg, xs, bound + 1.0)
    decreases |xs|
  {
    if xs != [] {
      ToleranceOfUpdate(avg, xs[0], bound);
      ToleranceOfRun(NextAverage(avg, xs[0].value, xs[0].err), xs[1..], bound);
    }
  }

  lemma UpdateStaysInBand(avg: int, x: Sample, e: real, lo: real, hi: real)
    requires 0.0 <= e
    requires avg == 0 || Between(lo - 5.0 * e, avg, hi + 5.0 * e)
    requires Between(lo, x.value, hi)
    requires WithinTolerance(avg, x, e)
    ensures Between(lo - 5.0 * e, NextAverage(avg, x.value, x.err), hi + 5.0 * e)
  {
  }

  /** The average never leaves the band of the samples by more than 5e, even when an average that
      reaches 0 is taken for "unset" and replaced by the next sample. */
  lemma {:induction false} AverageStaysInBand(avg: int, xs: seq<Sample>, e: real, lo: real, hi: real)
    requires 0.0 <= e && xs != []
    requires avg == 0 || Between(lo - 5.0 * e, avg, hi + 5.0 * e)
    requires forall i :: 0 <= i < |xs| ==> Between(lo, xs[i].value, hi)
    requires Tolerable(avg, xs, e)
    ensures Between(lo - 5.0 * e, Average(avg, xs), hi + 5.0 * e)
    decreases |xs|
  {
    UpdateStaysInBand(avg, xs[0], e, lo, hi);
    if |xs| > 1 {
      AverageStaysInBand(NextAverage(avg, xs[0].value, xs[0].err), xs[1..], e, lo, hi);
    }
  }

  function Pow(b: real, n: nat): real {
    if n == 0 then 1.0 else b * Pow(b, n - 1)
  }

  function Distance(x: int, y: int): real {
    if x < y then (y - x) as real else (x - y) as real
  }

  /** One update brings the average to within four fifths of its distance, plus e. */
  lemma UpdateContracts(avg: int, x: Sample, e: real)
    requires 0.0 <= e && WithinTolerance(avg, x, e)
    ensures Distance(NextAverage(avg, x.value, x.err), x.value) <= 0.8 * Distance(avg, x.value) + e
  {
  }

  lemma {:induction false} PowIsNonNegative(j: nat)
    ensures Pow(0.8, j) >= 0.0
  {
    if j > 0 { PowIsNonNegative(j - 1); }
  }

  /** Where a distance of `d` can at most be after `j` updates. */
  function Decayed(j: nat, d: real, e: real): real {
    Pow(0.8, j) * d + 5.0 * e * (1.0 - Pow(0.8, j))
  }

  /** One contraction step in front of `j` later ones. */
  lemma DecayStep(j: nat, d: real, next: real, e: real)
    requires next <= 0.8 * d + e
    ensures Decayed(j, next, e) <= Decayed(j + 1, d, e)
  {
    PowIsNonNegative(j);
    var p, slack := Pow(0.8, j), 0.8 * d + e - next;
    assert p * slack >= 0.0;
    assert p * slack == 0.8 * p * d + p * e - p * next;
    assert Pow(0.8, j + 1) == 0.8 * p;
  }

  lemma DecayStart(d: real, e: real)
    ensures Decayed(0, d, e) == d
  {
  }

  /** Under a constant sample the distance to it decays like (4/5)^j, down to the rounding floor
      of 5e: after j updates it is at most (4/5)^j d + 5e (1 - (4/5)^j). */
  lemma {:induction false} AverageConverges(avg: int, xs: seq<Sample>, e: real, s: int)
    requires 0.0 <= e
    requires forall i :: 0 <= i < |xs| ==> xs[i].value == s
    requires Tolerable(avg, xs, e)
    ensures Distance(Average(avg, xs), s) <= Decayed(|xs|, Distance(avg, s), e)
    decreases |xs|
  {
    if xs == [] {
      DecayStart(Distance(avg, s), e);
    } else {
      var next := NextAverage(avg, xs[0].value, xs[0].err);
      UpdateContracts(avg, xs[0], e);
      AverageConverges(next, xs[1..], e, s);
      DecayStep(|xs| - 1, Distance(avg, s), Distance(next, s), e);
    }
  }
}

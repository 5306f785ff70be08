/** The round-trip estimator of rtt.rs: a premultiplied average with weight one eighth. */
module Rtt {
  import opened Clock

  const RTT_MIN_FLOOR: i64 := 3000

  function EffectiveMin(rttMin: i64): i64 {
    if rttMin < RTT_MIN_FLOOR then RTT_MIN_FLOOR else rttMin
  }

  function ClampRange(v: int, min: i64, max: i64): int
    requires min <= max
  {
    if v < min then min else if v > max then max else v
  }

  datatype Estimator = Estimator(eightTimesRtt: nat, lastSample: nat) {
    /** Folds in a sample, negative ones as zero. */
    function Observe(sample: i64): Estimator {
      var s: nat := if sample < 0 then 0 else sample;
      Estimator(eightTimesRtt - eightTimesRtt / 8 + s, s)
    }

    function Smoothed(): nat {
      eightTimesRtt / 8
    }

    function LastClamped(rttMin: i64, rttMax: i64): int
      requires EffectiveMin(rttMin) <= rttMax
    {
      ClampRange(lastSample, EffectiveMin(rttMin), rttMax)
    }
  }

  /** A fresh estimator reads its floor at once. */
  function New(rttMin: i64): Estimator {
    Estimator(SaturateI64(EffectiveMin(rttMin) * 8), 0)
  }

  function ObserveAll(e: Estimator, samples: seq<i64>): Estimator
    decreases |samples|
  {
    if samples == [] then e else ObserveAll(e.Observe(samples[0]), samples[1..])
  }

  /** The last sample is the last one, negative ones as zero, whatever came before. */
  lemma {:induction false} LastIsLast(e: Estimator, samples: seq<i64>)
    requires samples != []
    ensures var last := samples[|samples| - 1];
            ObserveAll(e, samples).lastSample == if last < 0 then 0 else last
    decreases |samples|
  {
    if |samples| > 1 {
      LastIsLast(e.Observe(samples[0]), samples[1..]);
    }
  }

  predicate AllWithin(samples: seq<i64>, lo: nat, hi: nat) {
    forall i :: 0 <= i < |samples| ==> lo <= samples[i] <= hi
  }

  lemma NewReadsFloor(rttMin: i64)
    requires EffectiveMin(rttMin) <= I64_MAX / 8
    ensures New(rttMin).Smoothed() == EffectiveMin(rttMin) >= 3000 && New(rttMin).lastSample == 0
  {}

  /** The average stays between any bounds that hold its start and every sample, truncation and
      all; and the accumulator stays below 8 * hi + 8, so inside 64 bits whenever that does. */
  lemma {:induction false} StaysWithin(e: Estimator, samples: seq<i64>, lo: nat, hi: nat)
    requires lo <= e.Smoothed() <= hi && AllWithin(samples, lo, hi)
    ensures lo <= ObserveAll(e, samples).Smoothed() <= hi
    ensures ObserveAll(e, samples).eightTimesRtt < 8 * hi + 8
    decreases |samples|
  {
    if samples != [] {
      assert lo <= e.Observe(samples[0]).Smoothed() <= hi;
      StaysWithin(e.Observe(samples[0]), samples[1..], lo, hi);
    }
  }

  function Repeat(c: i64, n: nat): (r: seq<i64>)
    ensures |r| == n
  {
    if n == 0 then [] else [c] + Repeat(c, n - 1)
  }

  /** One more sample of a constant: toward it, never past it, and strictly unless there. */
  lemma OneStep(e: Estimator, c: i64)
    requires c >= 0
    ensures var f := e.Observe(c);
            && (e.Smoothed() <= c ==> e.Smoothed() <= f.Smoothed() <= c)
            && (e.Smoothed() >= c ==> e.Smoothed() >= f.Smoothed() >= c)
            && (e.Smoothed() < c ==> f.eightTimesRtt > e.eightTimesRtt)
            && (e.Smoothed() > c ==> f.eightTimesRtt < e.eightTimesRtt)
            && (e.Smoothed() == c ==> f.eightTimesRtt == e.eightTimesRtt)
  {}

  function Gap(e: Estimator, c: nat): nat {
    if e.eightTimesRtt >= 8 * c then e.eightTimesRtt - 8 * c else 8 * c - e.eightTimesRtt
  }

  /** Under a constant sample the average equals it exactly once that many samples are in, and
      stays. */
  lemma {:induction false} Converges(e: Estimator, c: i64, n: nat)
    requires c >= 0 && n >= Gap(e, c)
    ensures ObserveAll(e, Repeat(c, n)).Smoothed() == c
    decreases n
  {
    OneStep(e, c);
    if n > 0 {
      var f := e.Observe(c);
      assert Repeat(c, n)[1..] == Repeat(c, n - 1);
      if e.Smoothed() == c {
        AtRest(e, c, n);
      } else if Gap(f, c) < Gap(e, c) {
        Converges(f, c, n - 1);
      } else {
        assert f.Smoothed() == c;
        AtRest(f, c, n - 1);
      }
    }
  }

  lemma {:induction false} AtRest(e: Estimator, c: i64, n: nat)
    requires e.Smoothed() == c
    ensures ObserveAll(e, Repeat(c, n)).Smoothed() == c
    decreases n
  {
    if n > 0 {
      OneStep(e, c);
      assert Repeat(c, n)[1..] == Repeat(c, n - 1);
      AtRest(e.Observe(c), c, n - 1);
    }
  }

  /** On the way there it is monotone and never overshoots. */
  lemma {:induction false} ApproachIsMonotone(e: Estimator, c: i64, n: nat, m: nat)
    requires c >= 0 && n <= m
    ensures e.Smoothed() <= c ==>
              ObserveAll(e, Repeat(c, n)).Smoothed() <= ObserveAll(e, Repeat(c, m)).Smoothed() <= c
    ensures e.Smoothed() >= c ==>
              ObserveAll(e, Repeat(c, n)).Smoothed() >= ObserveAll(e, Repeat(c, m)).Smoothed() >= c
    decreases m
  {
    OneStep(e, c);
    if m > 0 {
      var f := e.Observe(c);
      assert Repeat(c, m)[1..] == Repeat(c, m - 1);
      if n > 0 {
        assert Repeat(c, n)[1..] == Repeat(c, n - 1);
        ApproachIsMonotone(f, c, n - 1, m - 1);
      } else {
        ApproachIsMonotone(f, c, 0, m - 1);
      }
    }
  }
}

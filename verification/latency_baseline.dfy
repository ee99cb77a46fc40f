/** The latency baseline of a site and the rules that maintain it: when a
    reachable ping counts as slow, in which hours latency samples are
    collected, and how a full buffer of samples replaces the site's average
    and standard deviation. These rules are shared by `PingHandler`, the
    older root `PingThread` and the packaged `PingThread`. */
module LatencyBaseline {
  import opened JavaSemantics
  import opened MoreMath
  import opened MoreDateFunctions
  import opened PingSites

  const MS_PER_HOUR: int := 3_600_000

  /** From `q * b <= x * b` with `b > 0` conclude `q <= x`, and the same for `<`. */
  lemma DivideByPositive(q: real, x: real, b: real)
    requires b > 0.0
    ensures q * b <= x * b ==> q <= x
    ensures q * b < x * b ==> q < x
  {
  }

  /** The `(int)` cast of `timeDiffInHours` is the millisecond difference
      divided by 3,600,000 and truncated toward zero, as long as that
      quotient fits in an `int`. */
  lemma TruncatedHours(now: Time, last: Time)
    requires IsInt(Quot(now - last, MS_PER_HOUR))
    ensures DoubleToInt(TimeDiffInHours(now, last)) == Quot(now - last, MS_PER_HOUR)
  {
    var d := now - last;
    var x := TimeDiffInHours(now, last);
    var q := Quot(d, MS_PER_HOUR);
    var b := MS_PER_HOUR as real;
    assert x * b == d as real;
    var r := DoubleToInt(x);
    if d >= 0 {
      assert (q as real) * b <= d as real < (q as real + 1.0) * b;
      DivideByPositive(q as real, x, b);
      DivideByPositive(x, q as real + 1.0, b);
      assert q as real <= x < q as real + 1.0;
      assert r as real <= x < r as real + 1.0;
    } else {
      assert (q as real - 1.0) * b < d as real <= (q as real) * b;
      DivideByPositive(q as real - 1.0, x, b);
      DivideByPositive(x, q as real, b);
      assert q as real - 1.0 < x <= q as real;
      assert r as real - 1.0 < x <= r as real;
    }
  }

  /** `modulo((int) timeDiffInHours(now, lastRecalculated), 24)`: the hour of
      the current 24-hour cycle since the last recalculation. */
  function HourOfCycle(now: Time, lastRecalculated: Time): (r: int)
    ensures 0 <= r < 24
    ensures IsInt(Quot(now - lastRecalculated, MS_PER_HOUR)) ==>
              r == Quot(now - lastRecalculated, MS_PER_HOUR) % 24
  {
    var hours := DoubleToInt(TimeDiffInHours(now, lastRecalculated));
    if IsInt(Quot(now - lastRecalculated, MS_PER_HOUR)) then
      TruncatedHours(now, lastRecalculated);
      Modulo(hours, 24)
    else
      Modulo(hours, 24)
  }

  /** Samples are collected when the hour of the cycle is at least
      `hoursForUpdate`. */
  predicate InUpdateWindow(hoursForUpdate: int, now: Time, lastRecalculated: Time) {
    HourOfCycle(now, lastRecalculated) >= hoursForUpdate
  }

  /** For a clock that moved forward, the window is open exactly when the
      whole hours elapsed, taken mod 24, reach `hoursForUpdate`; in
      particular no sample is taken during the first `hoursForUpdate` hours
      after a recalculation, and the window is open from then until the 24th
      hour. */
  lemma {:induction false} UpdateWindowSchedule(hoursForUpdate: int, now: Time, lastRecalculated: Time)
    requires 0 <= now - lastRecalculated && IsInt((now - lastRecalculated) / MS_PER_HOUR)
    ensures InUpdateWindow(hoursForUpdate, now, lastRecalculated) <==>
              ((now - lastRecalculated) / MS_PER_HOUR) % 24 >= hoursForUpdate
    ensures 0 <= hoursForUpdate <= 24 && now - lastRecalculated < hoursForUpdate * MS_PER_HOUR ==>
              !InUpdateWindow(hoursForUpdate, now, lastRecalculated)
    ensures hoursForUpdate * MS_PER_HOUR <= now - lastRecalculated < 24 * MS_PER_HOUR ==>
              InUpdateWindow(hoursForUpdate, now, lastRecalculated)
  {
    var d := now - lastRecalculated;
    assert Quot(d, MS_PER_HOUR) == d / MS_PER_HOUR;
    if 0 <= hoursForUpdate <= 24 && d < hoursForUpdate * MS_PER_HOUR {
      assert d / MS_PER_HOUR < hoursForUpdate;
    }
    if hoursForUpdate * MS_PER_HOUR <= d < 24 * MS_PER_HOUR {
      assert hoursForUpdate <= d / MS_PER_HOUR < 24;
    }
  }

  /** The slowness threshold of a site: average plus tolerance standard
      deviations. */
  function SlowThreshold(site: PingSite): real {
    site.avgLatency + site.latencyStdDeviation * site.deviationTolerance as real
  }

  /** A latency is slow when it strictly exceeds the threshold. */
  predicate IsSlow(site: PingSite, latency: real) {
    latency > SlowThreshold(site)
  }

  /** Slowness is strict and upward closed, and a larger tolerance never
      turns a non-slow latency into a slow one while the deviation is
      non-negative. */
  lemma IsSlowMonotone(site: PingSite, latency: real, higher: real, tolerance: int)
    requires latency <= higher
    ensures !IsSlow(site, SlowThreshold(site))
    ensures IsSlow(site, latency) ==> IsSlow(site, higher)
    ensures (site.latencyStdDeviation >= 0.0 && tolerance >= site.deviationTolerance &&
             IsSlow(SetDeviationTolerance(site, tolerance), latency)) ==> IsSlow(site, latency)
  {
    if site.latencyStdDeviation >= 0.0 && tolerance >= site.deviationTolerance {
      assert site.latencyStdDeviation * tolerance as real >=
             site.latencyStdDeviation * site.deviationTolerance as real;
    }
  }

  /** With average 100, deviation 10 and tolerance 2 the threshold is 120:
      119 and 120 are not slow, 121 is. */
  lemma SlowThresholdExample()
    ensures !IsSlow(PingSite("s", "a", 100.0, 10.0, 2), 119.0)
    ensures !IsSlow(PingSite("s", "a", 100.0, 10.0, 2), 120.0)
    ensures IsSlow(PingSite("s", "a", 100.0, 10.0, 2), 121.0)
  {
  }

  /** The unknown latency -1 is compared like any other value; it is never
      slow once the baseline and tolerance are non-negative. */
  lemma UnknownLatencyUnderNonNegativeBaseline(site: PingSite)
    requires site.avgLatency >= 0.0 && site.latencyStdDeviation >= 0.0 && site.deviationTolerance >= 0
    ensures !IsSlow(site, -1.0)
  {
    assert site.latencyStdDeviation * site.deviationTolerance as real >= 0.0;
  }

  /** The baseline-maintenance state: the site whose average and deviation
      are maintained, the collected samples, and the time of the last
      recalculation. */
  datatype Sampler = Sampler(site: PingSite, latencyValues: seq<real>, lastRecalculated: Time)

  /** Append a sample; once the buffer holds `sampleSize` values the site
      takes their mean and standard deviation, `lastRecalculated` becomes
      `stamp` and the buffer is emptied. */
  function AddSample(sampleSize: int, sqrt: real -> real, s: Sampler, latency: real, stamp: Time): (r: Sampler)
    ensures r.site.name == s.site.name && r.site.address == s.site.address
    ensures r.site.deviationTolerance == s.site.deviationTolerance
    ensures |s.latencyValues| < sampleSize ==> |r.latencyValues| < sampleSize
    ensures |s.latencyValues| + 1 < sampleSize ==>
              r == s.(latencyValues := s.latencyValues + [latency])
    ensures |s.latencyValues| + 1 >= sampleSize ==>
              r.latencyValues == [] && r.lastRecalculated == stamp &&
              r.site.avgLatency == Mean(s.latencyValues + [latency]) &&
              r.site.latencyStdDeviation == StdDev(s.latencyValues + [latency], sqrt)
  {
    var values := s.latencyValues + [latency];
    if |values| >= sampleSize then
      var site := SetLatencyStdDeviation(SetAvgLatency(s.site, Mean(values)), StdDev(values, sqrt));
      Sampler(site, [], stamp)
    else
      s.(latencyValues := values)
  }

  /** One collected sample and the time stamp a recalculation at it would
      record. */
  datatype Sample = Sample(latency: real, stamp: Time)

  function Latencies(samples: seq<Sample>): (r: seq<real>)
    ensures |r| == |samples|
    ensures forall k :: 0 <= k < |samples| ==> r[k] == samples[k].latency
  {
    seq(|samples|, k requires 0 <= k < |samples| => samples[k].latency)
  }

  function AddSamples(sampleSize: int, sqrt: real -> real, s: Sampler, samples: seq<Sample>): Sampler
    decreases |samples|
  {
    if |samples| == 0 then s
    else AddSample(sampleSize, sqrt, AddSamples(sampleSize, sqrt, s, samples[..|samples| - 1]),
                   samples[|samples| - 1].latency, samples[|samples| - 1].stamp)
  }

  /** Until the buffer fills, samples are only collected, in order. */
  lemma {:induction false} SamplesAccumulate(sampleSize: int, sqrt: real -> real, s: Sampler, samples: seq<Sample>)
    requires |s.latencyValues| + |samples| < sampleSize
    ensures AddSamples(sampleSize, sqrt, s, samples) == s.(latencyValues := s.latencyValues + Latencies(samples))
    decreases |samples|
  {
    if |samples| > 0 {
      var init := samples[..|samples| - 1];
      SamplesAccumulate(sampleSize, sqrt, s, init);
      assert Latencies(samples) == Latencies(init) + [samples[|samples| - 1].latency];
    } else {
      assert s.latencyValues + Latencies(samples) == s.latencyValues;
    }
  }

  /** The sample that fills the buffer recalibrates the site from exactly
      the buffered values and that sample, and empties the buffer. */
  lemma BufferFillRecalibrates(sampleSize: int, sqrt: real -> real, s: Sampler, samples: seq<Sample>)
    requires |samples| > 0 && |s.latencyValues| + |samples| == sampleSize
    ensures var r := AddSamples(sampleSize, sqrt, s, samples);
            var values := s.latencyValues + Latencies(samples);
            r.latencyValues == [] &&
            r.lastRecalculated == samples[|samples| - 1].stamp &&
            r.site == s.site.(avgLatency := Mean(values), latencyStdDeviation := StdDev(values, sqrt))
  {
    var init := samples[..|samples| - 1];
    SamplesAccumulate(sampleSize, sqrt, s, init);
    assert Latencies(samples) == Latencies(init) + [samples[|samples| - 1].latency];
    assert s.latencyValues + Latencies(samples) == (s.latencyValues + Latencies(init)) + [samples[|samples| - 1].latency];
  }
}

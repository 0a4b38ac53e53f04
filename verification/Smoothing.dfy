/** The bandwidth estimator of bandwidthsmoother.cc on the sliding window of rollingaccumulator.h.
    Factors are reals here, sums of samples are integers, and times are 32 bits wide: a sum of two
    wraps around. */
module Smoothing {
  import opened Division

  const INT_MAX: int := 0x7FFF_FFFF
  const WORD: int := 0x1_0000_0000

  /** The conversion of a floating-point number to an integer type: it cuts towards zero. */
  function Trunc(r: real): int { if r >= 0.0 then r.Floor else -((-r).Floor) }

  /** The same for the quotient of two integers. */
  function TruncDiv(a: int, n: nat): int
    requires n > 0
  {
    if a >= 0 then a / n else -(-a / n)
  }

  /** What cutting towards zero gives: the nearest integer on the side of zero. */
  lemma TruncExactly(r: real, k: int)
    ensures k == Trunc(r) <==> if r >= 0.0 then k as real <= r < k as real + 1.0 else k as real - 1.0 < r <= k as real
  {
  }

  lemma TruncDivExactly(a: int, n: nat, q: int)
    requires n > 0
    ensures q == TruncDiv(a, n) <==> if a >= 0 then q * n <= a < q * n + n else q * n - n < a <= q * n
  {
    var b := if a >= 0 then a else -a;
    var p := if a >= 0 then q else -q;
    assert p * n == if a >= 0 then q * n else -(q * n);
    QuotientExactly(b, n, p);
  }

  lemma QuotientExactly(a: nat, n: nat, q: int)
    requires n > 0
    ensures q == a / n <==> q * n <= a < q * n + n
  {
    var k := a / n;
    assert k * n <= a < k * n + n;
    if q * n <= a < q * n + n {
      ModUnique(a, q, n);
    }
  }

  function Sum(s: seq<int>): int {
    if s == [] then 0 else Sum(s[..|s| - 1]) + s[|s| - 1]
  }

  function Mean(window: seq<int>): int
    requires window != []
  {
    TruncDiv(Sum(window), |window|)
  }

  ghost predicate Within(s: seq<int>, lo: int, hi: int) { forall i :: 0 <= i < |s| ==> lo <= s[i] <= hi }

  lemma {:induction false} SumWithin(s: seq<int>, lo: int, hi: int)
    requires Within(s, lo, hi)
    ensures lo * |s| <= Sum(s) <= hi * |s|
  {
    if s != [] {
      SumWithin(s[..|s| - 1], lo, hi);
      OneMoreTime(lo, |s|);
      OneMoreTime(hi, |s|);
    }
  }

  lemma OneMoreTime(k: int, n: nat)
    requires n > 0
    ensures k * n == k * (n - 1) + k
  {
  }

  lemma ProductOrder(a: int, b: int, n: nat)
    requires a <= b
    ensures a * n <= b * n
  {
  }

  lemma QuotientWithin(a: nat, n: nat, lo: int, hi: int)
    requires n > 0 && lo * n <= a <= hi * n
    ensures lo <= a / n <= hi
  {
    var q := a / n;
    assert q * n <= a < (q + 1) * n;
    if lo > q {
      ProductOrder(q + 1, lo, n);
    }
    if hi < q {
      ProductOrder(hi + 1, q, n);
    }
  }

  lemma MeanWithin(s: seq<int>, lo: int, hi: int)
    requires s != [] && Within(s, lo, hi)
    ensures lo <= Mean(s) <= hi
  {
    SumWithin(s, lo, hi);
    if Sum(s) >= 0 {
      QuotientWithin(Sum(s), |s|, lo, hi);
    } else {
      QuotientWithin(-Sum(s), |s|, -hi, -lo);
    }
  }

  /** The mean of samples that are not negative is their average rounded down. */
  lemma MeanExactly(s: seq<int>, mean: int)
    requires s != [] && forall i :: 0 <= i < |s| ==> s[i] >= 0
    ensures mean == Mean(s) <==> mean * |s| <= Sum(s) < mean * |s| + |s|
  {
    SumNotNegative(s);
    TruncDivExactly(Sum(s), |s|, mean);
  }

  lemma {:induction false} SumNotNegative(s: seq<int>)
    requires forall i :: 0 <= i < |s| ==> s[i] >= 0
    ensures Sum(s) >= 0
  {
    if s != [] {
      SumNotNegative(s[..|s| - 1]);
    }
  }

  lemma {:induction false} SumDropsFirst(s: seq<int>)
    requires s != []
    ensures Sum(s[1..]) == Sum(s) - s[0]
  {
    if |s| > 1 {
      assert s[..|s| - 1][1..] == s[1..][..|s| - 2];
      SumDropsFirst(s[..|s| - 1]);
    }
  }

  // ---------------------------------------------------------------- the accumulator

  /** The window after one more sample: the oldest one leaves when it is full. */
  function Pushed(window: seq<int>, max: nat, sample: int): seq<int> {
    if window != [] && |window| == max then window[1..] + [sample] else window + [sample]
  }

  lemma SumAppended(s: seq<int>, x: int)
    ensures Sum(s + [x]) == Sum(s) + x
  {
    assert (s + [x])[..|s|] == s;
  }

  lemma SumPushed(window: seq<int>, max: nat, sample: int)
    ensures Sum(Pushed(window, max, sample)) ==
      Sum(window) + sample - if window != [] && |window| == max then window[0] else 0
  {
    if window != [] && |window| == max {
      SumDropsFirst(window);
      SumAppended(window[1..], sample);
    } else {
      SumAppended(window, sample);
    }
  }

  function Following(i: nat, n: nat): nat { if i + 1 == n then 0 else i + 1 }

  /** Overwriting the oldest of a full ring and moving on by one drops it and appends. */
  lemma Rotated(ring: seq<int>, i: nat, x: int)
    requires i < |ring|
    ensures var after, next := ring[i := x], Following(i, |ring|);
      after[next..] + after[..next] == (ring[i..] + ring[..i])[1..] + [x]
  {
    var after := ring[i := x];
    if i + 1 < |ring| {
      assert after[i + 1..] == ring[i + 1..] && after[..i + 1] == ring[..i] + [x];
    }
  }

  class RollingAccumulator {
    var count: nat
    var nextIndex: nat
    var sum: int
    const samples: array<int>

    ghost predicate Valid()
      reads this, samples
    {
      && samples.Length > 0 && count <= samples.Length && nextIndex < samples.Length
      && (count < samples.Length ==> nextIndex == count)
      && sum == Sum(Window())
    }

    /** The samples retained, oldest first. */
    ghost function Window(): (w: seq<int>)
      reads this, samples
      requires nextIndex <= samples.Length && count <= samples.Length
    {
      if count < samples.Length then samples[..count] else samples[nextIndex..] + samples[..nextIndex]
    }

    constructor (maxCount: nat)
      requires maxCount > 0
      ensures Valid() && Window() == [] && samples.Length == maxCount && fresh(samples)
    {
      count, nextIndex, sum := 0, 0, 0;
      samples := new int[maxCount](_ => 0);
    }

    method AddSample(sample: int)
      requires Valid()
      modifies this, samples
      ensures Valid() && Window() == Pushed(old(Window()), samples.Length, sample)
    {
      ghost var was, all := Window(), samples[..];
      SumPushed(was, samples.Length, sample);
      Rotated(all, nextIndex, sample);
      if count == samples.Length {
        sum := sum - samples[nextIndex];
      } else {
        count := count + 1;
      }
      samples[nextIndex] := sample;
      sum := sum + sample;
      assert samples[..] == all[nextIndex := sample];
      nextIndex := NextIndex(nextIndex, samples.Length);
      assert Window() == Pushed(was, samples.Length, sample);
    }

    static method NextIndex(i: nat, n: nat) returns (next: nat)
      requires i < n
      ensures next == Following(i, n)
    {
      next := (i + 1) % n;
    }

    method GetCount() returns (n: nat)
      requires Valid()
      ensures n == |Window()|
    {
      n := count;
    }

    method ComputeMean() returns (mean: int)
      requires Valid()
      ensures mean == if count == 0 then 0 else Mean(Window())
    {
      if count == 0 {
        return 0;
      }
      mean := TruncDiv(sum, count);
    }
  }

  // ---------------------------------------------------------------- the estimator

  /** `quorum` is the number of samples up to which the first guess is kept. */
  datatype Config = Config(between: nat, percent: real, maxCount: nat, quorum: nat)
  {
    ghost predicate Valid() { between < WORD && percent >= 1.0 && maxCount > 0 && quorum <= maxCount }
  }

  /** The given part of the window, taken for nothing or all of it where it is not one. */
  function Quorum(maxCount: nat, minPercent: real): (quorum: nat)
    ensures quorum <= maxCount
    ensures 0.0 <= minPercent <= 1.0 ==> quorum as real <= maxCount as real * minPercent < quorum as real + 1.0
  {
    if minPercent <= 0.0 then 0
    else if minPercent >= 1.0 then maxCount
    else
      PartOf(maxCount as real, minPercent);
      WholePart(maxCount as real * minPercent, maxCount);
      Trunc(maxCount as real * minPercent)
  }

  lemma PartOf(x: real, p: real)
    requires x >= 0.0 && 0.0 <= p <= 1.0
    ensures 0.0 <= x * p <= x
  {
    assert x * (1.0 - p) >= 0.0;
  }

  lemma WholePart(r: real, n: nat)
    requires 0.0 <= r <= n as real
    ensures 0 <= Trunc(r) <= n && Trunc(r) as real <= r < Trunc(r) as real + 1.0
  {
  }

  datatype Measurement = Measurement(time: nat, bandwidth: int)

  datatype Estimate = Estimate(window: seq<int>, bandwidth: int, lastChange: nat)

  function Exact(c: Config, bandwidth: int): real { c.percent * bandwidth as real }

  function Threshold(c: Config, bandwidth: int): int { Trunc(Exact(c, bandwidth)) }

  function Window(c: Config, s: Estimate, m: Measurement): seq<int> { Pushed(s.window, c.maxCount, m.bandwidth) }

  /** Whether a measurement is looked at: it is none if negative, or if there are too few as yet. */
  predicate Counts(c: Config, s: Estimate, m: Measurement) {
    m.bandwidth >= 0 && |Window(c, s, m)| >= c.quorum
  }

  function MeanAt(c: Config, s: Estimate, m: Measurement): int { Mean(Window(c, s, m)) }

  predicate LongEnough(c: Config, lastChange: nat, time: nat) { time >= (lastChange + c.between) % WORD }

  function Adjusted(c: Config, s: Estimate, mean: int, time: nat): Estimate {
    if mean < s.bandwidth then s.(bandwidth := mean, lastChange := time)
    else if Exact(c, s.bandwidth) > INT_MAX as real then s
    else if mean < Threshold(c, s.bandwidth) then s.(lastChange := time)
    else if LongEnough(c, s.lastChange, time) then
      s.(bandwidth := if Threshold(c, s.bandwidth) == 0 then mean else Threshold(c, s.bandwidth), lastChange := time)
    else s
  }

  function Next(c: Config, s: Estimate, m: Measurement): Estimate {
    if m.bandwidth < 0 then s
    else
      var d := s.(window := Window(c, s, m));
      if Counts(c, s, m) then Adjusted(c, d, MeanAt(c, s, m), m.time) else d
  }

  lemma NextCases(c: Config, s: Estimate, m: Measurement)
    ensures m.bandwidth < 0 ==> Next(c, s, m) == s
    ensures var d := s.(window := Window(c, s, m));
      m.bandwidth >= 0 ==>
        Next(c, s, m) == if |d.window| >= c.quorum then Adjusted(c, d, MeanAt(c, s, m), m.time) else d
  {
  }

  function After(c: Config, s: Estimate, ms: seq<Measurement>): Estimate
    decreases |ms|
  {
    if ms == [] then s else Next(c, After(c, s, ms[..|ms| - 1]), ms[|ms| - 1])
  }

  function Start(guess: int): Estimate { Estimate([], guess, 0) }

  class BandwidthSmoother {
    const config: Config
    var timeAtLastChange: nat
    var bandwidthEstimation: int
    const accumulator: RollingAccumulator

    ghost predicate Valid()
      reads this, accumulator, accumulator.samples
    {
      config.Valid() && accumulator.Valid() && accumulator.samples.Length == config.maxCount
    }

    ghost function View(): Estimate
      reads this, accumulator, accumulator.samples
      requires Valid()
    {
      Estimate(accumulator.Window(), bandwidthEstimation, timeAtLastChange)
    }

    constructor (guess: int, between: nat, percent: real, maxCount: nat, minPercent: real)
      requires between < WORD && maxCount > 0
      ensures Valid() && View() == Start(guess) && fresh(accumulator) && fresh(accumulator.samples)
      ensures config == Config(between, if percent < 1.0 then 1.0 else percent, maxCount, Quorum(maxCount, minPercent))
    {
      config := Config(between, if percent < 1.0 then 1.0 else percent, maxCount, Quorum(maxCount, minPercent));
      timeAtLastChange, bandwidthEstimation := 0, guess;
      accumulator := new RollingAccumulator(maxCount);
    }

    method Sample(time: nat, bandwidth: int) returns (changed: bool)
      requires Valid() && time < WORD
      modifies this, accumulator, accumulator.samples
      ensures Valid() && View() == Next(config, old(View()), Measurement(time, bandwidth))
      ensures changed <==> bandwidthEstimation != old(bandwidthEstimation)
    {
      ghost var s, m := View(), Measurement(time, bandwidth);
      NextCases(config, s, m);
      if bandwidth < 0 {
        return false;
      }
      accumulator.AddSample(bandwidth);
      var count := accumulator.GetCount();
      if count < config.quorum {
        return false;
      }
      var mean := accumulator.ComputeMean();
      changed := Adjust(time, mean);
    }

    /** What a mean that counts does to the estimate. */
    method Adjust(time: nat, mean: int) returns (changed: bool)
      requires Valid() && time < WORD
      modifies this
      ensures Valid() && View() == Adjusted(config, old(View()), mean, time)
      ensures changed <==> bandwidthEstimation != old(bandwidthEstimation)
    {
      if mean < bandwidthEstimation {
        timeAtLastChange := time;
        bandwidthEstimation := mean;
        return true;
      }
      var oldEstimation := bandwidthEstimation;
      var exact := Exact(config, bandwidthEstimation);
      if exact > INT_MAX as real {
        return false;
      }
      var threshold := Trunc(exact);
      if mean < threshold {
        timeAtLastChange := time;
      } else if time >= (timeAtLastChange + config.between) % WORD {
        timeAtLastChange := time;
        if threshold == 0 {
          bandwidthEstimation := mean;
        } else {
          bandwidthEstimation := threshold;
        }
      }
      changed := oldEstimation != bandwidthEstimation;
    }
  }

  // ---------------------------------------------------------------- bounds

  /** The smallest and the largest of the guess and the samples that are not negative. */
  function Low(guess: int, ms: seq<Measurement>): int {
    if ms == [] then guess
    else
      var low, b := Low(guess, ms[..|ms| - 1]), ms[|ms| - 1].bandwidth;
      if 0 <= b < low then b else low
  }

  function High(guess: int, ms: seq<Measurement>): int {
    if ms == [] then guess
    else
      var high, b := High(guess, ms[..|ms| - 1]), ms[|ms| - 1].bandwidth;
      if b >= 0 && b > high then b else high
  }

  ghost predicate WindowWithin(c: Config, w: seq<int>, lo: int, hi: int) {
    |w| <= c.maxCount && Within(w, lo, hi) && forall i :: 0 <= i < |w| ==> w[i] >= 0
  }

  lemma PushedWithin(c: Config, s: Estimate, m: Measurement, lo: int, hi: int)
    requires c.Valid() && WindowWithin(c, s.window, lo, hi) && m.bandwidth >= 0 && lo <= m.bandwidth <= hi
    ensures WindowWithin(c, Window(c, s, m), lo, hi)
    ensures lo <= MeanAt(c, s, m) <= hi && MeanAt(c, s, m) >= 0
  {
    var w := Window(c, s, m);
    assert Within(w, 0, if hi > 0 then hi else 0);
    MeanWithin(w, lo, hi);
    MeanWithin(w, 0, if hi > 0 then hi else 0);
  }

  lemma NextWindow(c: Config, s: Estimate, m: Measurement, lo: int, hi: int)
    requires c.Valid() && WindowWithin(c, s.window, lo, hi) && (m.bandwidth >= 0 ==> lo <= m.bandwidth <= hi)
    ensures WindowWithin(c, Next(c, s, m).window, lo, hi)
    ensures m.bandwidth >= 0 ==> lo <= MeanAt(c, s, m) <= hi && MeanAt(c, s, m) >= 0
  {
    if m.bandwidth >= 0 {
      PushedWithin(c, s, m, lo, hi);
    }
  }

  lemma ThresholdNotBelow(c: Config, bandwidth: int)
    requires c.Valid() && bandwidth >= 0
    ensures Threshold(c, bandwidth) >= bandwidth
  {
    assert (c.percent - 1.0) * bandwidth as real >= 0.0;
  }

  lemma ThresholdNotAbove(c: Config, bandwidth: int)
    requires c.Valid() && bandwidth < 0
    ensures Threshold(c, bandwidth) <= bandwidth
  {
    assert (c.percent - 1.0) * bandwidth as real <= 0.0;
  }

  /** One step keeps an estimate between bounds that bound it and the samples, if it is not negative
      or if scaling leaves it what it is. */
  lemma NextWithin(c: Config, s: Estimate, m: Measurement, lo: int, hi: int)
    requires c.Valid() && WindowWithin(c, s.window, lo, hi) && (m.bandwidth >= 0 ==> lo <= m.bandwidth <= hi)
    requires lo <= s.bandwidth <= hi && (s.bandwidth >= 0 || Threshold(c, s.bandwidth) == s.bandwidth)
    ensures var d := Next(c, s, m);
      lo <= d.bandwidth <= hi && (d.bandwidth >= 0 || d.bandwidth == s.bandwidth)
  {
    NextWindow(c, s, m, lo, hi);
    if s.bandwidth >= 0 {
      ThresholdNotBelow(c, s.bandwidth);
    }
  }

  lemma {:induction false} RunWithin(c: Config, guess: int, ms: seq<Measurement>)
    requires c.Valid() && (guess >= 0 || Threshold(c, guess) == guess)
    ensures var s := After(c, Start(guess), ms);
      && Low(guess, ms) <= s.bandwidth <= High(guess, ms)
      && (s.bandwidth >= 0 || s.bandwidth == guess)
      && WindowWithin(c, s.window, Low(guess, ms), High(guess, ms))
    decreases |ms|
  {
    if ms != [] {
      var before := ms[..|ms| - 1];
      RunWithin(c, guess, before);
      NextWindow(c, After(c, Start(guess), before), ms[|ms| - 1], Low(guess, ms), High(guess, ms));
      NextWithin(c, After(c, Start(guess), before), ms[|ms| - 1], Low(guess, ms), High(guess, ms));
    }
  }

  function Zeros(c: Config, n: nat): seq<Measurement> { seq(n, _ => Measurement(c.between, 0)) }

  lemma {:induction false} ZerosKeep(c: Config, guess: int, n: nat)
    requires c.Valid() && (n == 0 || n < c.quorum)
    ensures After(c, Start(guess), Zeros(c, n)) == Estimate(seq(n, _ => 0), guess, 0)
    decreases n
  {
    if n > 0 {
      ZerosKeep(c, guess, n - 1);
      assert Zeros(c, n)[..n - 1] == Zeros(c, n - 1);
      assert seq(n - 1, _ => 0) + [0] == seq(n, _ => 0);
    }
  }

  lemma {:induction false} ZerosLow(c: Config, guess: int, n: nat)
    requires guess < 0
    ensures Low(guess, Zeros(c, n)) == guess
    decreases n
  {
    if n > 0 {
      ZerosLow(c, guess, n - 1);
      assert Zeros(c, n)[..n - 1] == Zeros(c, n - 1);
    }
  }

  /** A negative guess that scaling changes is scaled down by silence, below it and every sample. */
  lemma NegativeGuessFalls(c: Config, guess: int) returns (ms: seq<Measurement>)
    requires c.Valid() && guess < 0 && Threshold(c, guess) != guess
    ensures Timed(ms) && After(c, Start(guess), ms).bandwidth < Low(guess, ms)
  {
    var n := if c.quorum == 0 then 0 else c.quorum - 1;
    ms := Zeros(c, n + 1);
    ZerosKeep(c, guess, n);
    ZerosLow(c, guess, n + 1);
    assert ms[..n] == Zeros(c, n);
    var s := After(c, Start(guess), ms[..n]);
    assert WindowWithin(c, s.window, 0, 0);
    NextWindow(c, s, ms[n], 0, 0);
    ThresholdNotAbove(c, guess);
    assert Exact(c, guess) <= 0.0;
  }

  ghost predicate Timed(ms: seq<Measurement>) { forall i :: 0 <= i < |ms| ==> ms[i].time < WORD }

  /** The estimate stays between the smallest and the largest of the guess and the samples in every
      run, exactly when the guess is not negative or scaling leaves it what it is. */
  lemma EstimateWithinExactly(c: Config, guess: int)
    requires c.Valid()
    ensures (forall ms :: Timed(ms) ==>
        Low(guess, ms) <= After(c, Start(guess), ms).bandwidth <= High(guess, ms))
      <==> guess >= 0 || Threshold(c, guess) == guess
  {
    if guess >= 0 || Threshold(c, guess) == guess {
      forall ms ensures Low(guess, ms) <= After(c, Start(guess), ms).bandwidth <= High(guess, ms) {
        RunWithin(c, guess, ms);
      }
    } else {
      var ms := NegativeGuessFalls(c, guess);
    }
  }

  // ---------------------------------------------------------------- rises

  /** Whether a measurement starts the clock anew: it lowers or scales the estimate, or is too low
      to scale it. */
  predicate Restarts(c: Config, s: Estimate, m: Measurement) {
    Counts(c, s, m)
    && (var mean := MeanAt(c, s, m);
       mean < s.bandwidth
       || (Exact(c, s.bandwidth) <= INT_MAX as real
           && (mean < Threshold(c, s.bandwidth) || LongEnough(c, s.lastChange, m.time))))
  }

  /** The number of measurements up to the last that started the clock anew. */
  function Since(c: Config, guess: int, ms: seq<Measurement>): (k: nat)
    ensures k <= |ms|
    decreases |ms|
  {
    if ms == [] then 0
    else if Restarts(c, After(c, Start(guess), ms[..|ms| - 1]), ms[|ms| - 1]) then |ms|
    else Since(c, guess, ms[..|ms| - 1])
  }

  function ClockStart(c: Config, guess: int, ms: seq<Measurement>): nat {
    var k := Since(c, guess, ms);
    if k == 0 then 0 else ms[k - 1].time
  }

  /** A mean that is looked at and does not start the clock anew would have scaled the estimate. */
  ghost predicate HighEnough(c: Config, s: Estimate, m: Measurement) {
    Counts(c, s, m) && Exact(c, s.bandwidth) <= INT_MAX as real ==> MeanAt(c, s, m) >= Threshold(c, s.bandwidth)
  }

  ghost predicate QuietSince(c: Config, guess: int, ms: seq<Measurement>, k: nat, bandwidth: int)
    requires k <= |ms|
  {
    forall i {:trigger ms[..i]} :: k <= i < |ms| ==>
      var s := After(c, Start(guess), ms[..i]);
      s.bandwidth == bandwidth && HighEnough(c, s, ms[i])
  }

  lemma {:induction false} ClockInRun(c: Config, guess: int, ms: seq<Measurement>)
    ensures After(c, Start(guess), ms).lastChange == ClockStart(c, guess, ms)
    decreases |ms|
  {
    if ms != [] {
      ClockInRun(c, guess, ms[..|ms| - 1]);
    }
  }

  lemma {:induction false} QuietInRun(c: Config, guess: int, ms: seq<Measurement>)
    ensures QuietSince(c, guess, ms, Since(c, guess, ms), After(c, Start(guess), ms).bandwidth)
    decreases |ms|
  {
    if ms != [] {
      var n := |ms| - 1;
      QuietInRun(c, guess, ms[..n]);
      forall i {:trigger ms[..i]} | Since(c, guess, ms) <= i < |ms|
        ensures After(c, Start(guess), ms[..i]).bandwidth == After(c, Start(guess), ms).bandwidth
        ensures HighEnough(c, After(c, Start(guess), ms[..i]), ms[i])
      {
        if i < n {
          assert ms[..n][..i] == ms[..i];
        }
      }
    }
  }

  /** When one measurement raises the estimate, and to what. */
  lemma RisesExactlyWhen(c: Config, s: Estimate, m: Measurement)
    requires c.Valid()
    ensures Next(c, s, m).bandwidth > s.bandwidth <==>
      && m.bandwidth >= 0 && |Window(c, s, m)| >= c.quorum && Exact(c, s.bandwidth) <= 2147483647.0
      && m.time >= (s.lastChange + c.between) % 4294967296 && MeanAt(c, s, m) >= Threshold(c, s.bandwidth)
      && (Threshold(c, s.bandwidth) > s.bandwidth || (s.bandwidth == 0 && MeanAt(c, s, m) > 0))
    ensures Next(c, s, m).bandwidth > s.bandwidth ==>
      Next(c, s, m).bandwidth == if s.bandwidth == 0 then MeanAt(c, s, m) else Threshold(c, s.bandwidth)
  {
    if s.bandwidth < 0 {
      ThresholdNotAbove(c, s.bandwidth);
    } else {
      ThresholdNotBelow(c, s.bandwidth);
    }
  }

  /** When one measurement lowers the estimate, and to what: to a lower mean, or, where it is negative,
      to what scaling makes of it. */
  lemma FallsExactlyWhen(c: Config, s: Estimate, m: Measurement)
    requires c.Valid()
    ensures
      var d := Next(c, s, m);
      var counts := m.bandwidth >= 0 && |Window(c, s, m)| >= c.quorum;
      && (s.bandwidth >= 0 ==> (d.bandwidth < s.bandwidth <==> counts && MeanAt(c, s, m) < s.bandwidth))
      && (counts && MeanAt(c, s, m) < s.bandwidth ==> d.bandwidth == MeanAt(c, s, m) && d.lastChange == m.time)
      && (counts && MeanAt(c, s, m) >= s.bandwidth ==> d.bandwidth in {s.bandwidth, MeanAt(c, s, m),
                                                                       Threshold(c, s.bandwidth)})
      && (!counts ==> d.bandwidth == s.bandwidth && d.lastChange == s.lastChange)
  {
    if s.bandwidth >= 0 {
      ThresholdNotBelow(c, s.bandwidth);
    }
  }

  /** The estimate rises only after every mean looked at, since the last change or low sample, was at
      least the truncated threshold; the estimate was the same all the while. */
  lemma RiseIsEarned(c: Config, guess: int, ms: seq<Measurement>, m: Measurement)
    requires c.Valid()
    requires var s := After(c, Start(guess), ms); Next(c, s, m).bandwidth > s.bandwidth
    ensures var s := After(c, Start(guess), ms);
      QuietSince(c, guess, ms, Since(c, guess, ms), s.bandwidth) && Counts(c, s, m) && HighEnough(c, s, m)
  {
    QuietInRun(c, guess, ms);
  }

  lemma RiseNeedsTime(c: Config, s: Estimate, m: Measurement)
    requires Next(c, s, m).bandwidth > s.bandwidth
    ensures LongEnough(c, s.lastChange, m.time)
  {
  }

  /** At a rise the whole time between increases has passed since then exactly when the sum of the two
      32-bit times did not wrap around. */
  lemma RiseWaits(c: Config, guess: int, ms: seq<Measurement>, m: Measurement)
    requires c.Valid() && m.time < WORD
    requires var s := After(c, Start(guess), ms); Next(c, s, m).bandwidth > s.bandwidth
    ensures m.time - ClockStart(c, guess, ms) >= c.between <==> ClockStart(c, guess, ms) + c.between < WORD
  {
    ClockInRun(c, guess, ms);
    RiseNeedsTime(c, After(c, Start(guess), ms), m);
  }

  lemma MeanOfOne(x: int)
    requires x >= 0
    ensures Mean([x]) == x
  {
    assert [x][..0] == [];
    assert Sum([x]) == x;
  }

  /** A sum that wraps around lets the estimate rise at once. */
  lemma WrapRisesEarly()
    ensures var c := Config(WORD - 1, 2.0, 1, 0);
      var ms, m := [Measurement(10, 5)], Measurement(11, 20);
      c.Valid() && ClockStart(c, 10, ms) == 10 && m.time - 10 < c.between
      && After(c, Start(10), ms).bandwidth == 5 && Next(c, After(c, Start(10), ms), m).bandwidth == 10
  {
    var c := Config(WORD - 1, 2.0, 1, 0);
    var ms, m := [Measurement(10, 5)], Measurement(11, 20);
    MeanOfOne(5);
    MeanOfOne(20);
    assert ms[..0] == [];
    var s := After(c, Start(10), ms);
    assert s == Estimate([5], 5, 10);
    assert Window(c, s, m) == [20];
  }
}

/** Deciding from round-trip samples that a path has degraded. */
module Rtt {
  import opened Bytes

  const BASELINE_SAMPLES: nat := 5
  const DEGRADATION_FACTOR: real := 3.0
  const BREACHES_REQUIRED: nat := 3
  const EMA_ALPHA: real := 0.3

  function Sum(samples: seq<nat>): nat {
    if samples == [] then 0 else Sum(samples[..|samples| - 1]) + samples[|samples| - 1]
  }

  /** The mean of the first five samples, once there are five. */
  function Baseline(samples: seq<nat>): Option<real> {
    if |samples| < BASELINE_SAMPLES then None else Some(Sum(samples[..BASELINE_SAMPLES]) as real / 5.0)
  }

  /** Whether sample `i` is more than three times the baseline. */
  predicate Breach(samples: seq<nat>, i: nat) {
    BASELINE_SAMPLES <= i < |samples| && samples[i] as real > Baseline(samples).value * DEGRADATION_FACTOR
  }

  /** The number of latest consecutive breaches. */
  function Trailing(samples: seq<nat>, n: nat): (k: nat)
    requires n <= |samples|
    ensures k <= n
  {
    if n > 0 && Breach(samples, n - 1) then 1 + Trailing(samples, n - 1) else 0
  }

  /** The smoothed value, for reporting only. */
  function Ema(samples: seq<nat>): real {
    if samples == [] then 0.0
    else
      var before := Ema(samples[..|samples| - 1]);
      var us := samples[|samples| - 1] as real;
      if before == 0.0 then us else EMA_ALPHA * us + (1.0 - EMA_ALPHA) * before
  }

  /** The smoothed value never leaves the range of the samples. */
  lemma {:induction false} EmaRange(samples: seq<nat>, lo: nat, hi: nat)
    requires samples != [] && forall i :: 0 <= i < |samples| ==> lo <= samples[i] <= hi
    ensures lo as real <= Ema(samples) <= hi as real
  {
    var init := samples[..|samples| - 1];
    if init != [] {
      EmaRange(init, lo, hi);
    }
  }

  /** Sample `i` is the third of a maximal streak of breaches. */
  predicate ThirdOfStreak(samples: seq<nat>, i: nat) {
    i >= 2 && Breach(samples, i) && Breach(samples, i - 1) && Breach(samples, i - 2)
    && (i == 2 || !Breach(samples, i - 3))
  }

  lemma {:induction false} BreachOfPrefix(samples: seq<nat>, n: nat, i: nat)
    requires i < n <= |samples|
    ensures Breach(samples[..n], i) <==> Breach(samples, i)
  {
    if i >= BASELINE_SAMPLES {
      assert samples[..n][..BASELINE_SAMPLES] == samples[..BASELINE_SAMPLES];
    }
  }

  lemma {:induction false} TrailingOfPrefix(samples: seq<nat>, n: nat, k: nat)
    requires k <= n <= |samples|
    ensures Trailing(samples[..n], k) == Trailing(samples, k)
  {
    hide Breach;
    if k > 0 {
      BreachOfPrefix(samples, n, k - 1);
      TrailingOfPrefix(samples, n, k - 1);
    }
  }

  lemma TrailingIsThree(samples: seq<nat>, i: nat)
    requires i < |samples|
    ensures Trailing(samples, i + 1) == BREACHES_REQUIRED <==> ThirdOfStreak(samples, i)
  {
    hide Breach;
    TrailingStep(samples, i);
    if i >= 1 { TrailingStep(samples, i - 1); }
    if i >= 2 { TrailingStep(samples, i - 2); }
    if i >= 3 { TrailingStep(samples, i - 3); }
  }

  lemma EmaStep(before: seq<nat>, us: nat)
    ensures Ema(before + [us])
         == if Ema(before) == 0.0 then us as real else EMA_ALPHA * us as real + (1.0 - EMA_ALPHA) * Ema(before)
  {
    assert (before + [us])[..|before|] == before;
  }

  lemma BaselineKept(before: seq<nat>, us: nat)
    requires |before| >= BASELINE_SAMPLES
    ensures (before + [us])[..BASELINE_SAMPLES] == before[..BASELINE_SAMPLES]
    ensures Baseline(before + [us]) == Baseline(before)
  {
  }

  lemma BreachLast(samples: seq<nat>)
    requires |samples| > BASELINE_SAMPLES
    ensures Breach(samples, |samples| - 1) <==>
            samples[|samples| - 1] as real > Baseline(samples).value * DEGRADATION_FACTOR
  {
  }

  lemma TrailingEarly(samples: seq<nat>, n: nat)
    requires n <= |samples| && n <= BASELINE_SAMPLES
    ensures Trailing(samples, n) == 0
  {
  }

  class RttEstimator {
    var baselineUs: Option<real>
    var samplesForBaseline: seq<nat>
    var emaUs: real
    var consecutiveBreaches: nat
    ghost var samples: seq<nat>

    /** `samples` are those since the last reset. */
    ghost predicate Valid()
      reads this
    {
      && baselineUs == Baseline(samples)
      && samplesForBaseline == samples[..Min(|samples|, BASELINE_SAMPLES)]
      && emaUs == Ema(samples)
      && consecutiveBreaches == Trailing(samples, |samples|)
    }

    constructor ()
      ensures Valid() && samples == []
    {
      baselineUs, samplesForBaseline, emaUs, consecutiveBreaches, samples := None, [], 0.0, 0, [];
    }

    method ResetBaseline()
      modifies this
      ensures Valid() && samples == []
    {
      baselineUs, samplesForBaseline, emaUs, consecutiveBreaches, samples := None, [], 0.0, 0, [];
    }

    /** `current`: the smoothed value in whole microseconds, rounded down. */
    method Current() returns (us: nat)
      requires Valid()
      ensures us as real <= Ema(samples) < us as real + 1.0
    {
      EmaNotNegative(samples);
      us := emaUs.Floor;
    }

    /** `baseline`: the mean of the first five samples in whole microseconds, once there are five. */
    method CurrentBaseline() returns (us: Option<nat>)
      requires Valid()
      ensures us.Some? <==> |samples| >= 5
      ensures us.Some? ==>
                var sum := samples[0] + samples[1] + samples[2] + samples[3] + samples[4];
                5 * us.value <= sum < 5 * us.value + 5
    {
      if |samples| >= 5 {
        FirstFive(samples);
      }
      us := if baselineUs.Some? then Some(baselineUs.value.Floor) else None;
    }

    /** Fires exactly on the third sample of each maximal streak of breaches. */
    method OnSample(us: nat) returns (fires: bool)
      requires Valid()
      modifies this
      ensures Valid() && samples == old(samples) + [us]
      ensures fires <==> ThirdOfStreak(samples, |samples| - 1)
    {
      hide Trailing, ThirdOfStreak, Ema, Breach, Sum;
      ghost var before := samples;
      EmaStep(before, us);
      if |before| >= BASELINE_SAMPLES {
        BaselineKept(before, us);
      }
      samples := samples + [us];
      assert samples[..|before|] == before;
      TrailingIsThree(samples, |before|);
      TrailingOfPrefix(samples, |before|, |before|);
      TrailingStep(samples, |before|);
      emaUs := if emaUs == 0.0 then us as real else EMA_ALPHA * us as real + (1.0 - EMA_ALPHA) * emaUs;
      if baselineUs.None? {
        TrailingEarly(before, |before|);
        TrailingEarly(samples, |samples|);
        samplesForBaseline := samplesForBaseline + [us];
        assert samplesForBaseline == samples;
        if |samplesForBaseline| >= BASELINE_SAMPLES {
          assert samples[..BASELINE_SAMPLES] == samplesForBaseline;
          var sum := SumOf(samplesForBaseline);
          baselineUs := Some(sum as real / |samplesForBaseline| as real);
        }
        return false;
      }
      BreachLast(samples);
      if us as real > baselineUs.value * DEGRADATION_FACTOR {
        consecutiveBreaches := consecutiveBreaches + 1;
        return consecutiveBreaches == BREACHES_REQUIRED;
      } else {
        consecutiveBreaches := 0;
        return false;
      }
    }
  }

  lemma {:induction false} EmaNotNegative(samples: seq<nat>)
    ensures Ema(samples) >= 0.0
  {
    if samples != [] {
      EmaNotNegative(samples[..|samples| - 1]);
    }
  }

  lemma TrailingStep(samples: seq<nat>, n: nat)
    requires n < |samples|
    ensures Trailing(samples, n + 1) == if Breach(samples, n) then 1 + Trailing(samples, n) else 0
  {
  }

  method SumOf(samples: seq<nat>) returns (sum: nat)
    ensures sum == Sum(samples)
  {
    sum := 0;
    for i := 0 to |samples|
      invariant sum == Sum(samples[..i])
    {
      sum := sum + samples[i];
      assert samples[..i + 1][..i] == samples[..i];
    }
    assert samples[..|samples|] == samples;
  }

  // ----- what the numbers mean

  /** Sample `i` is over three times the mean of the first five samples. */
  predicate Over(samples: seq<nat>, i: nat) {
    5 <= i < |samples| && 5 * samples[i] > 3 * (samples[0] + samples[1] + samples[2] + samples[3] + samples[4])
  }

  lemma BreachIsOver(samples: seq<nat>, i: nat)
    ensures Breach(samples, i) <==> Over(samples, i)
  {
    if 5 <= i < |samples| {
      FirstFive(samples);
    }
  }

  /** A signal: this sample and the two before it are over, and not the one before those. */
  predicate Signals(samples: seq<nat>, i: nat) {
    i >= 7 && Over(samples, i) && Over(samples, i - 1) && Over(samples, i - 2) && !Over(samples, i - 3)
  }

  lemma ThirdIsSignal(samples: seq<nat>, i: nat)
    ensures ThirdOfStreak(samples, i) <==> Signals(samples, i)
  {
    hide Breach, Over;
    BreachIsOver(samples, i);
    if i >= 1 { BreachIsOver(samples, i - 1); }
    if i >= 2 { BreachIsOver(samples, i - 2); }
    if i >= 3 { BreachIsOver(samples, i - 3); }
    EarlyIsNotOver(samples);
  }

  lemma EarlyIsNotOver(samples: seq<nat>)
    ensures forall i: nat :: i < 5 ==> !Over(samples, i)
  {
  }

  function Power(x: real, k: nat): real {
    if k == 0 then 1.0 else x * Power(x, k - 1)
  }

  function Repeated(us: nat, k: nat): (s: seq<nat>)
    ensures |s| == k && forall i :: 0 <= i < k ==> s[i] == us
  {
    seq(k, _ => us)
  }

  /** A path whose round trips settle at a value: the smoothed value starts at the first sample, and with each further
      one seven tenths of its distance to the new value remain. */
  lemma {:induction false} EmaSettles(samples: seq<nat>, us: nat, k: nat)
    requires samples != [] && forall i :: 0 <= i < |samples| ==> samples[i] > 0
    requires us > 0
    ensures Ema(samples[..1]) == samples[0] as real
    ensures Ema(samples + Repeated(us, k)) - us as real == Power(0.7, k) * (Ema(samples) - us as real)
  {
    hide Ema;
    EmaFirst(samples);
    if k == 0 {
      assert samples + Repeated(us, 0) == samples;
    } else {
      EmaSettles(samples, us, k - 1);
      var init := samples + Repeated(us, k - 1);
      assert samples + Repeated(us, k) == init + [us];
      EmaStep(init, us);
      EmaPositive(init);
      Shrinks(Ema(init), us as real, Power(0.7, k - 1), Ema(samples) - us as real);
    }
  }

  lemma EmaFirst(samples: seq<nat>)
    requires samples != []
    ensures Ema(samples[..1]) == samples[0] as real
  {
    assert samples[..1] == [] + [samples[0]];
    EmaStep([], samples[0]);
  }

  lemma Shrinks(x: real, v: real, p: real, d: real)
    requires x - v == p * d
    ensures (EMA_ALPHA * v + (1.0 - EMA_ALPHA) * x) - v == (0.7 * p) * d
  {
    assert (0.7 * p) * d == 0.7 * (p * d);
  }

  lemma {:induction false} EmaPositive(samples: seq<nat>)
    requires samples != [] && forall i :: 0 <= i < |samples| ==> samples[i] > 0
    ensures Ema(samples) > 0.0
  {
    var init := samples[..|samples| - 1];
    if init != [] {
      EmaPositive(init);
    }
  }

  // ----- whole runs

  /** Feeding a run of samples to a new estimator. */
  method Run(samples: seq<nat>) returns (fires: seq<bool>)
    ensures |fires| == |samples|
    ensures forall i :: 0 <= i < |fires| ==> (fires[i] <==> ThirdOfStreak(samples, i))
    ensures forall i :: 0 <= i < |fires| ==> (fires[i] <==> Signals(samples, i))
  {
    hide ThirdOfStreak, Signals;
    var est := new RttEstimator();
    fires := [];
    for n := 0 to |samples|
      invariant est.Valid() && est.samples == samples[..n] && |fires| == n
      invariant forall i :: 0 <= i < n ==> (fires[i] <==> ThirdOfStreak(samples, i))
    {
      var fired := est.OnSample(samples[n]);
      assert samples[..n + 1] == samples[..n] + [samples[n]];
      ThirdOfPrefix(samples, n + 1, n);
      fires := fires + [fired];
    }
    forall i | 0 <= i < |fires| ensures fires[i] <==> Signals(samples, i) {
      ThirdIsSignal(samples, i);
    }
  }

  lemma ThirdOfPrefix(samples: seq<nat>, n: nat, i: nat)
    requires i < n <= |samples|
    ensures ThirdOfStreak(samples[..n], i) <==> ThirdOfStreak(samples, i)
  {
    hide Breach;
    BreachOfPrefix(samples, n, i);
    if i >= 1 { BreachOfPrefix(samples, n, i - 1); }
    if i >= 2 { BreachOfPrefix(samples, n, i - 2); }
    if i >= 3 { BreachOfPrefix(samples, n, i - 3); }
  }

  /** Nothing fires within the first seven samples after a start or a reset. */
  lemma QuietAfterReset(samples: seq<nat>, i: nat)
    requires i < 7
    ensures !ThirdOfStreak(samples, i)
  {
  }

  /** A path whose round trips never differ by more than a factor of three is never reported. */
  lemma SteadyPathIsQuiet(samples: seq<nat>, i: nat)
    requires forall j, k :: 0 <= j < |samples| && 0 <= k < |samples| ==> samples[j] <= 3 * samples[k]
    ensures !Breach(samples, i) && !ThirdOfStreak(samples, i)
  {
    if Breach(samples, i) {
      FirstFive(samples);
      assert false;
    }
  }

  lemma SumStep(samples: seq<nat>, n: nat)
    requires n < |samples|
    ensures Sum(samples[..n + 1]) == Sum(samples[..n]) + samples[n]
  {
    assert samples[..n + 1][..n] == samples[..n];
  }

  lemma FirstFive(samples: seq<nat>)
    requires |samples| >= 5
    ensures Sum(samples[..5]) == samples[0] + samples[1] + samples[2] + samples[3] + samples[4]
  {
    SumStep(samples, 4);
    SumStep(samples, 3);
    SumStep(samples, 2);
    SumStep(samples, 1);
    SumStep(samples, 0);
  }

  // ----- one signal per streak

  /** The length of the leading run of `true`. */
  function Lead(bs: seq<bool>): (k: nat)
    ensures k <= |bs| && (forall i :: 0 <= i < k ==> bs[i]) && (k < |bs| ==> !bs[k])
  {
    if bs == [] || !bs[0] then 0 else 1 + Lead(bs[1..])
  }

  /** The number of maximal runs of `true` that are at least three long. */
  function LongStreaks(bs: seq<bool>): nat
    decreases |bs|
  {
    if bs == [] then 0
    else if !bs[0] then LongStreaks(bs[1..])
    else (if Lead(bs) >= BREACHES_REQUIRED then 1 else 0) + LongStreaks(bs[Lead(bs)..])
  }

  /** The number of `true`. */
  function Count(bs: seq<bool>): nat {
    if bs == [] then 0 else (if bs[0] then 1 else 0) + Count(bs[1..])
  }

  /** Whether position `i` is the third of its maximal run of `true`. */
  predicate ThirdIn(bs: seq<bool>, i: nat)
    requires i < |bs|
  {
    i >= 2 && bs[i] && bs[i - 1] && bs[i - 2] && (i == 2 || !bs[i - 3])
  }

  lemma {:induction false} CountAppend(a: seq<bool>, b: seq<bool>)
    ensures Count(a + b) == Count(a) + Count(b)
  {
    if a == [] {
      assert a + b == b;
    } else {
      CountAppend(a[1..], b);
      assert (a + b)[1..] == a[1..] + b;
    }
  }

  lemma {:induction false} CountNone(a: seq<bool>)
    requires forall i :: 0 <= i < |a| ==> !a[i]
    ensures Count(a) == 0
  {
    if a != [] {
      CountNone(a[1..]);
    }
  }

  lemma CountOneAt(a: seq<bool>, k: nat)
    requires forall i :: 0 <= i < |a| ==> (a[i] <==> i == k)
    ensures Count(a) == if k < |a| then 1 else 0
  {
    if k < |a| {
      assert a == a[..k] + ([true] + a[k + 1..]);
      CountAppend(a[..k], [true] + a[k + 1..]);
      CountNone(a[..k]);
      CountNone(a[k + 1..]);
      assert ([true] + a[k + 1..])[1..] == a[k + 1..];
    } else {
      CountNone(a);
    }
  }

  /** A leading run gives one signal if it is long enough, and the rest goes on after the gap. */
  lemma {:induction false} OneSignalPerStreak(bs: seq<bool>, fires: seq<bool>)
    requires |fires| == |bs| && forall i :: 0 <= i < |bs| ==> (fires[i] <==> ThirdIn(bs, i))
    ensures Count(fires) == LongStreaks(bs)
    decreases |bs|
  {
    if bs != [] {
      var k := Lead(bs);
      if k == 0 {
        assert forall i :: 0 <= i < |bs| - 1 ==> (fires[1..][i] <==> ThirdIn(bs[1..], i));
        OneSignalPerStreak(bs[1..], fires[1..]);
      } else if k == |bs| {
        assert bs[k..] == [];
        CountOneAt(fires, 2);
      } else {
        AfterStreak(bs, fires, k);
        OneSignalPerStreak(bs[k..], fires[k..]);
        assert fires == fires[..k] + fires[k..];
        CountAppend(fires[..k], fires[k..]);
        CountOneAt(fires[..k], 2);
      }
    }
  }

  lemma AfterStreak(bs: seq<bool>, fires: seq<bool>, k: nat)
    requires |fires| == |bs| && forall i :: 0 <= i < |bs| ==> (fires[i] <==> ThirdIn(bs, i))
    requires k < |bs| && !bs[k]
    ensures forall i :: 0 <= i < |bs| - k ==> (fires[k..][i] <==> ThirdIn(bs[k..], i))
  {
    forall i | 0 <= i < |bs| - k ensures fires[k..][i] <==> ThirdIn(bs[k..], i) {
      assert fires[k..][i] == fires[k + i];
      if i == 2 {
        assert bs[k + i - 2] == bs[k];
      }
    }
  }

  function Breaches(samples: seq<nat>): (bs: seq<bool>)
    ensures |bs| == |samples| && forall i :: 0 <= i < |bs| ==> (bs[i] <==> Breach(samples, i))
  {
    seq(|samples|, i requires 0 <= i < |samples| => Breach(samples, i))
  }

  /** Over any run the estimator fires exactly as often as there are breach streaks of three or more. */
  method FiresPerStreak(samples: seq<nat>) returns (fires: seq<bool>)
    ensures |fires| == |samples| && Count(fires) == LongStreaks(Breaches(samples))
  {
    hide Breach, Count, LongStreaks, Signals;
    fires := Run(samples);
    OneSignalPerStreak(Breaches(samples), fires);
  }
}

/** The host's send-rate control: the pacing interval and the bandwidth verdict, both driven by the
    receiver's feedback windows. Intervals are in milliseconds. */
module Pacing {
  import opened Bytes

  const PACE_MAX_INTERVAL: real := 200.0
  const PACE_SLOWDOWN_FACTOR: real := 1.5
  const PACE_LOSS_RATE_THRESHOLD: real := 0.02
  const PACE_SLOWDOWN_WINDOWS: nat := 2
  const PACE_RECOVERY_FRACTION: real := 0.5

  /** One feedback window: frames the receiver dropped and frames the host sent. */
  datatype Window = Window(dropped: nat, sent: nat)

  function LossRate(w: Window): real {
    if w.sent > 0 then w.dropped as real / w.sent as real else 0.0
  }

  predicate Lossy(w: Window) {
    LossRate(w) > PACE_LOSS_RATE_THRESHOLD
  }

  /** A window is lossy exactly when more than one in fifty of its frames was dropped. */
  lemma LossyIsOneInFifty(w: Window)
    ensures Lossy(w) <==> w.sent > 0 && 50 * w.dropped > w.sent
  {
    if w.sent > 0 {
      QuotientAbove(w.dropped as real, w.sent as real, PACE_LOSS_RATE_THRESHOLD);
    }
  }

  lemma QuotientAbove(d: real, s: real, t: real)
    requires s > 0.0
    ensures d / s > t <==> d > t * s
  {
    var q := d / s;
    assert q * s == d;
    if q > t {
      assert (q - t) * s > 0.0;
    } else {
      assert (t - q) * s >= 0.0;
    }
  }

  function MinReal(a: real, b: real): real {
    if a < b then a else b
  }

  /** The number of latest consecutive lossy windows. */
  function TrailingLossy(ws: seq<Window>): nat {
    if ws == [] || !Lossy(ws[|ws| - 1]) then 0 else 1 + TrailingLossy(ws[..|ws| - 1])
  }

  class Pacer {
    const frameInterval: real
    var interval: real
    var highLossWindows: nat
    ghost var history: seq<Window>

    /** The interval never leaves the range from the frame interval to 200 ms. */
    ghost predicate Valid()
      reads this
    {
      && 0.0 < frameInterval <= interval <= PACE_MAX_INTERVAL
      && highLossWindows == TrailingLossy(history)
    }

    constructor (frameInterval: real)
      requires 0.0 < frameInterval && 2.0 * frameInterval <= PACE_MAX_INTERVAL
      ensures Valid() && history == [] && interval == 2.0 * frameInterval && this.frameInterval == frameInterval
    {
      this.frameInterval := frameInterval;
      interval := 2.0 * frameInterval;
      highLossWindows, history := 0, [];
    }

    method OnWindow(w: Window)
      requires Valid()
      modifies this
      ensures Valid() && history == old(history) + [w]
      ensures interval == NextInterval(frameInterval, old(interval), old(history), w)
    {
      hide Lossy;
      history := history + [w];
      assert history[..|history| - 1] == old(history);
      if Lossy(w) {
        highLossWindows := highLossWindows + 1;
        if highLossWindows >= PACE_SLOWDOWN_WINDOWS {
          interval := MinReal(interval * PACE_SLOWDOWN_FACTOR, PACE_MAX_INTERVAL);
        }
      } else {
        highLossWindows := 0;
        if w.sent > 0 {
          var gap := if interval > frameInterval then interval - frameInterval else 0.0;
          interval := frameInterval + gap * PACE_RECOVERY_FRACTION;
        }
      }
    }
  }

  /** The interval after one more window, by the windows alone: slower by half when this and the window
      before it were lossy, half way back to the frame interval when this one sent frames without loss. */
  function NextInterval(frame: real, interval: real, before: seq<Window>, w: Window): real {
    if Lossy(w) then
      if before != [] && Lossy(before[|before| - 1]) then MinReal(interval * 1.5, PACE_MAX_INTERVAL) else interval
    else if w.sent > 0 then (frame + interval) / 2.0
    else interval
  }

  /** The interval after a run of windows. */
  function IntervalAfter(frame: real, ws: seq<Window>): real {
    if ws == [] then 2.0 * frame
    else
      var init := ws[..|ws| - 1];
      NextInterval(frame, IntervalAfter(frame, init), init, ws[|ws| - 1])
  }

  predicate GoodFrame(frame: real) {
    0.0 < frame && 2.0 * frame <= PACE_MAX_INTERVAL
  }

  /** Any run of feedback: the pacer's interval is that of `IntervalAfter`, within its range. */
  method RunPacer(frame: real, ws: seq<Window>) returns (interval: real)
    requires GoodFrame(frame)
    ensures interval == IntervalAfter(frame, ws)
    ensures frame <= interval <= 200.0
  {
    hide NextInterval, TrailingLossy;
    var pacer := new Pacer(frame);
    for i := 0 to |ws|
      invariant pacer.Valid() && pacer.frameInterval == frame && pacer.history == ws[..i]
      invariant pacer.interval == IntervalAfter(frame, ws[..i])
    {
      pacer.OnWindow(ws[i]);
      assert ws[..i + 1] == ws[..i] + [ws[i]] && ws[..i + 1][..i] == ws[..i];
    }
    assert ws[..|ws|] == ws;
    return pacer.interval;
  }

  lemma {:induction false} IntervalRange(frame: real, ws: seq<Window>)
    requires GoodFrame(frame)
    ensures frame <= IntervalAfter(frame, ws) <= PACE_MAX_INTERVAL
  {
    if ws != [] {
      IntervalRange(frame, ws[..|ws| - 1]);
    }
  }

  /** The interval grows only in a lossy window that follows a lossy window. */
  lemma SlowsOnlyOnSecondLoss(frame: real, ws: seq<Window>)
    requires GoodFrame(frame) && ws != []
    requires IntervalAfter(frame, ws) > IntervalAfter(frame, ws[..|ws| - 1])
    ensures |ws| >= 2 && Lossy(ws[|ws| - 1]) && Lossy(ws[|ws| - 2])
  {
    hide Lossy;
    IntervalRange(frame, ws[..|ws| - 1]);
  }

  function Halved(x: real, k: nat): real {
    if k == 0 then x else Halved(x, k - 1) / 2.0
  }

  function Grown(x: real, k: nat): real {
    if k == 0 then x else Grown(x, k - 1) * 1.5
  }

  /** `k` clean windows that sent frames divide the gap to the frame interval by 2 to the `k`. */
  lemma {:induction false} CleanWindowsHalveTheGap(frame: real, ws: seq<Window>, clean: seq<Window>)
    requires forall i :: 0 <= i < |clean| ==> clean[i].sent > 0 && !Lossy(clean[i])
    ensures IntervalAfter(frame, ws + clean) - frame == Halved(IntervalAfter(frame, ws) - frame, |clean|)
    decreases |clean|
  {
    hide Lossy;
    if clean == [] {
      assert ws + clean == ws;
    } else {
      var init := clean[..|clean| - 1];
      CleanWindowsHalveTheGap(frame, ws, init);
      assert (ws + clean)[..|ws + clean| - 1] == ws + init;
    }
  }

  /** An idle window keeps the interval and ends a streak of lossy ones. */
  lemma IdleWindowKeepsPace(frame: real, ws: seq<Window>, dropped: nat)
    ensures IntervalAfter(frame, ws + [Window(dropped, 0)]) == IntervalAfter(frame, ws)
    ensures TrailingLossy(ws + [Window(dropped, 0)]) == 0
  {
    assert (ws + [Window(dropped, 0)])[..|ws|] == ws;
  }

  /** In a streak of lossy windows the first is forgiven and every later one multiplies by 1.5 up to the cap. */
  lemma {:induction false} LossyStreak(frame: real, ws: seq<Window>, lossy: seq<Window>)
    requires GoodFrame(frame) && lossy != [] && forall i :: 0 <= i < |lossy| ==> Lossy(lossy[i])
    requires ws == [] || !Lossy(ws[|ws| - 1])
    ensures var x := Grown(IntervalAfter(frame, ws), |lossy| - 1);
            IntervalAfter(frame, ws + lossy) == if x < 200.0 then x else 200.0
    decreases |lossy|
  {
    hide Lossy;
    var init := lossy[..|lossy| - 1];
    assert (ws + lossy)[..|ws + lossy| - 1] == ws + init;
    if init == [] {
      assert ws + init == ws;
      IntervalRange(frame, ws);
    } else {
      LossyStreak(frame, ws, init);
    }
  }

  // ----- the bandwidth verdict

  const LOSS_RATE_FORCES_AR: real := 0.02
  const JITTER_FORCES_AR_US: nat := 50_000
  const MIN_FRAMES_FOR_RATE: nat := 20
  const CONSECUTIVE_REQUIRED: nat := 2
  const BANDWIDTH_FORCES_AR_BPS: nat := 200_000

  datatype Feedback = Feedback(dropped: nat, sent: nat, jitterUs: nat)

  function TrustedRate(f: Feedback): Option<real> {
    if f.sent >= MIN_FRAMES_FOR_RATE then Some(f.dropped as real / f.sent as real) else None
  }

  predicate Constrained(f: Feedback) {
    var rate := TrustedRate(f);
    (rate.Some? && rate.value > LOSS_RATE_FORCES_AR) || f.jitterUs > JITTER_FORCES_AR_US
  }

  /** The number of latest consecutive samples with the given verdict. */
  function TrailingEqual(fs: seq<Feedback>, constrained: bool): nat {
    if fs == [] || Constrained(fs[|fs| - 1]) != constrained then 0
    else 1 + TrailingEqual(fs[..|fs| - 1], constrained)
  }

  /** The verdict of the latest two consecutive samples that agree; clear before there are any. */
  function Verdict(fs: seq<Feedback>): bool {
    if |fs| < 2 then false
    else if Constrained(fs[|fs| - 1]) == Constrained(fs[|fs| - 2]) then Constrained(fs[|fs| - 1])
    else Verdict(fs[..|fs| - 1])
  }

  class BandwidthEstimator {
    var consecutiveConstrained: nat
    var consecutiveClear: nat
    var forced: bool
    ghost var history: seq<Feedback>

    ghost predicate Valid()
      reads this
    {
      && consecutiveConstrained == TrailingEqual(history, true)
      && consecutiveClear == TrailingEqual(history, false)
      && forced == Verdict(history)
    }

    constructor ()
      ensures Valid() && history == []
    {
      consecutiveConstrained, consecutiveClear, forced, history := 0, 0, false, [];
    }

    /** The reported bandwidth is below the mode switch's floor exactly when the verdict is constrained. */
    method OnFeedback(f: Feedback) returns (bps: nat, rate: Option<real>)
      requires Valid()
      modifies this
      ensures Valid() && history == old(history) + [f]
      ensures bps < BANDWIDTH_FORCES_AR_BPS <==> Verdict(history)
      ensures bps == if Verdict(history) then 100_000 else 4_294_967_295
      ensures rate == TrustedRate(f)
    {
      hide Constrained;
      rate := TrustedRate(f);
      ConstrainedIs(f);
      var constrained := (rate.Some? && rate.value > LOSS_RATE_FORCES_AR) || f.jitterUs > JITTER_FORCES_AR_US;
      ghost var before := history;
      history := history + [f];
      assert history[..|before|] == before;
      if constrained {
        consecutiveConstrained := consecutiveConstrained + 1;
        consecutiveClear := 0;
      } else {
        consecutiveClear := consecutiveClear + 1;
        consecutiveConstrained := 0;
      }
      if consecutiveConstrained >= CONSECUTIVE_REQUIRED {
        forced := true;
      } else if consecutiveClear >= CONSECUTIVE_REQUIRED {
        forced := false;
      }
      bps := if forced then BANDWIDTH_FORCES_AR_BPS / 2 else 0xFFFF_FFFF;
    }
  }

  /** In numbers: at least 20 frames were sent and more than one in fifty of them was dropped, or the jitter is over
      50 milliseconds. */
  lemma ConstrainedMeans(f: Feedback)
    ensures Constrained(f) <==> (f.sent >= 20 && 50 * f.dropped > f.sent) || f.jitterUs > 50_000
    ensures TrustedRate(f).Some? <==> f.sent >= 20
    ensures TrustedRate(f).Some? ==> TrustedRate(f).value * f.sent as real == f.dropped as real
  {
    if f.sent >= 20 {
      QuotientAbove(f.dropped as real, f.sent as real, LOSS_RATE_FORCES_AR);
    }
  }

  /** The verdict is that of the latest two neighbouring samples that agree; before there are any it is clear. */
  lemma {:induction false} VerdictMeans(fs: seq<Feedback>, k: nat)
    requires 1 <= k <= |fs|
    requires forall j :: k < j < |fs| ==> Constrained(fs[j]) != Constrained(fs[j - 1])
    ensures k < |fs| && Constrained(fs[k]) == Constrained(fs[k - 1]) ==> Verdict(fs) == Constrained(fs[k])
    ensures k == 1 && (|fs| < 2 || Constrained(fs[1]) != Constrained(fs[0])) ==> !Verdict(fs)
    decreases |fs|
  {
    hide Constrained;
    var n := |fs|;
    if n >= 2 && k < n - 1 {
      VerdictMeans(fs[..n - 1], k);
    } else if n >= 2 && k == n - 1 {
      OneSample(fs[..1]);
      assert k == 1 ==> fs[..n - 1] == fs[..1];
    }
  }

  lemma OneSample(fs: seq<Feedback>)
    requires |fs| < 2
    ensures !Verdict(fs)
  {
  }

  lemma ConstrainedIs(f: Feedback)
    ensures Constrained(f) <==> var rate := TrustedRate(f);
                                (rate.Some? && rate.value > LOSS_RATE_FORCES_AR) || f.jitterUs > JITTER_FORCES_AR_US
  {
  }

  /** A flip of the verdict needs two consecutive samples against the old one. */
  lemma FlipNeedsTwo(fs: seq<Feedback>, f: Feedback)
    requires Verdict(fs + [f]) != Verdict(fs)
    ensures fs != [] && Constrained(f) == Constrained(fs[|fs| - 1]) == Verdict(fs + [f])
  {
    hide Constrained;
    assert (fs + [f])[..|fs|] == fs;
  }

  /** Samples that alternate never flip the verdict. */
  lemma {:induction false} AlternatingNeverFlips(fs: seq<Feedback>, more: seq<Feedback>)
    requires fs != []
    requires forall i :: |fs| <= i < |fs + more| ==> Constrained((fs + more)[i]) != Constrained((fs + more)[i - 1])
    ensures Verdict(fs + more) == Verdict(fs)
    decreases |more|
  {
    hide Constrained;
    var all := fs + more;
    if more == [] {
      assert all == fs;
    } else {
      var init := more[..|more| - 1];
      assert all[..|all| - 1] == fs + init;
      assert Constrained(all[|all| - 1]) != Constrained(all[|all| - 2]);
      AlternatingNeverFlips(fs, init);
    }
  }
}

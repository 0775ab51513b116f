/** The sampling scheduler of `process_video`: a frame is saved when its
    index has reached `next_frame_to_save`, which then grows by
    `frame_interval`. After k saves the threshold is exactly k * interval,
    so the k-th save falls on a frame given in closed form by `SaveFrame`. */
module Scheduler {
  import opened Base

  function Ceil(x: real): (c: int)
    ensures c as real - 1.0 < x <= c as real
  {
    -((-x).Floor)
  }

  /** An integer reaches a real threshold exactly when it reaches the
      threshold's ceiling. */
  lemma CeilReached(n: int, x: real)
    ensures n as real >= x <==> n >= Ceil(x)
  {
  }

  lemma ScaleAtMost(k: real, interval: real)
    requires k >= 0.0 && interval <= 1.0
    ensures k * interval <= k
  {
    assert k - k * interval == k * (1.0 - interval);
  }

  lemma ScaleAtLeast(k: real, interval: real)
    requires k >= 0.0 && interval >= 1.0
    ensures k * interval >= k
  {
    assert k * interval - k == k * (interval - 1.0);
  }

  /** `next_frame_to_save` after k saves: the interval added k times. */
  function Threshold(k: nat, interval: real): real {
    if k == 0 then 0.0 else Threshold(k - 1, interval) + interval
  }

  /** Accumulating the interval loses nothing: after k saves the threshold
      is exactly k * interval. */
  lemma {:induction false} ThresholdIsProduct(k: nat, interval: real)
    ensures Threshold(k, interval) == k as real * interval
  {
    if k > 0 {
      ThresholdIsProduct(k - 1, interval);
      assert (k - 1) as real * interval + interval == k as real * interval;
    }
  }

  /** The frame index of the k-th save (0-based) of a run with the given
      interval: the first frame at or after both the previous save plus one
      and the threshold k * interval. */
  function SaveFrame(k: nat, interval: real): (f: nat)
    ensures f >= k && f as real >= k as real * interval
    ensures f == k || (f - 1) as real < k as real * interval
  {
    Max(k, Ceil(k as real * interval))
  }

  lemma SaveFrameZero(interval: real)
    ensures SaveFrame(0, interval) == 0
  {
  }

  /** Saves fall on strictly increasing frames. */
  lemma SaveFrameIncreasing(k: nat, interval: real)
    ensures SaveFrame(k, interval) < SaveFrame(k + 1, interval)
  {
    if interval <= 1.0 {
      SaveFrameIsEveryFrame(k, interval);
      SaveFrameIsEveryFrame(k + 1, interval);
    } else {
      var a := k as real * interval;
      var b := (k + 1) as real * interval;
      assert b == a + interval;
      CeilStep(a, b);
    }
  }

  lemma CeilStep(a: real, b: real)
    requires b > a + 1.0
    ensures Ceil(a) < Ceil(b)
  {
  }

  /** Any later save falls on a later frame, so the saved indices are
      strictly increasing and no frame is saved twice. */
  lemma {:induction false} SaveFramesIncrease(a: nat, b: nat, interval: real)
    requires a < b
    ensures SaveFrame(a, interval) < SaveFrame(b, interval)
    decreases b - a
  {
    SaveFrameIncreasing(a, interval);
    if a + 1 < b {
      SaveFramesIncrease(a + 1, b, interval);
    }
  }

  /** For an interval of at least one frame, the k-th save is at frame
      ceil(k * interval). */
  lemma SaveFrameIsCeiling(k: nat, interval: real)
    requires interval >= 1.0
    ensures SaveFrame(k, interval) == Ceil(k as real * interval)
  {
    ScaleAtLeast(k as real, interval);
  }

  /** For an interval of at most one frame, every frame is saved. */
  lemma SaveFrameIsEveryFrame(k: nat, interval: real)
    requires interval <= 1.0
    ensures SaveFrame(k, interval) == k
  {
    ScaleAtMost(k as real, interval);
  }

  /** The loop's test `frame_count >= next_frame_to_save`: when `m` saves
      have happened, all before frame `n`, and the next one is not due
      before `n`, frame `n` is saved exactly when it is the m-th save. */
  lemma SaveDecision(m: nat, n: nat, interval: real)
    requires m == 0 || SaveFrame(m - 1, interval) < n
    requires SaveFrame(m, interval) >= n
    ensures n as real >= Threshold(m, interval) <==> SaveFrame(m, interval) == n
  {
    ThresholdIsProduct(m, interval);
    CeilReached(n, m as real * interval);
  }

  function SavedCountFrom(n: nat, interval: real, k: nat): (m: nat)
    requires k <= n
    requires forall j :: 0 <= j < k ==> SaveFrame(j, interval) < n
    ensures k <= m <= n
    ensures forall j :: 0 <= j < m ==> SaveFrame(j, interval) < n
    ensures SaveFrame(m, interval) >= n
    decreases n - k
  {
    if SaveFrame(k, interval) >= n then k else SavedCountFrom(n, interval, k + 1)
  }

  /** The number of saves among the first `n` frames: the saves before it
      all fall below `n`, the next one does not. */
  function SavedCount(n: nat, interval: real): (m: nat)
    ensures m <= n
    ensures forall j :: 0 <= j < m ==> SaveFrame(j, interval) < n
    ensures SaveFrame(m, interval) >= n
  {
    SavedCountFrom(n, interval, 0)
  }

  /** Those two facts pin the count down. */
  lemma SavedCountUnique(n: nat, interval: real, m: nat)
    requires forall j :: 0 <= j < m ==> SaveFrame(j, interval) < n
    requires SaveFrame(m, interval) >= n
    ensures m == SavedCount(n, interval)
  {
  }

  lemma DivFloorBound(a: int, x: real, interval: real)
    requires interval > 0.0
    ensures a as real * interval <= x <==> a <= (x / interval).Floor
  {
    var y := x / interval;
    assert y * interval == x;
    ScaleMonotone(a as real, y, interval);
  }

  lemma ScaleMonotone(u: real, v: real, interval: real)
    requires interval > 0.0
    ensures u <= v <==> u * interval <= v * interval
  {
    assert v * interval - u * interval == (v - u) * interval;
  }

  /** After n >= 1 frames, `min(n, floor((n - 1) / interval) + 1)` frames
      have been saved. */
  lemma SavedCountClosedForm(n: nat, interval: real)
    requires n >= 1 && interval > 0.0
    ensures SavedCount(n, interval) == Min(n, ((n - 1) as real / interval).Floor + 1)
  {
    var m := SavedCount(n, interval);
    var f := ((n - 1) as real / interval).Floor;
    SaveFrameZero(interval);
    assert m >= 1;
    if interval <= 1.0 {
      SaveFrameIsEveryFrame(m - 1, interval);
      SaveFrameIsEveryFrame(m, interval);
      assert m == n;
      ScaleAtMost((n - 1) as real, interval);
      DivFloorBound(n - 1, (n - 1) as real, interval);
    } else {
      SaveFrameIsCeiling(m - 1, interval);
      SaveFrameIsCeiling(m, interval);
      CeilReached(n - 1, (m - 1) as real * interval);
      DivFloorBound(m - 1, (n - 1) as real, interval);
      DivFloorBound(m, (n - 1) as real, interval);
      assert m == f + 1;
    }
  }

  /** A 30 fps source sampled at 12 fps (interval 2.5): over frames 0..9
      the saves are frames 0, 3, 5 and 8. */
  lemma TwoAndAHalfTrace()
    ensures SavedCount(10, 2.5) == 4
    ensures [SaveFrame(0, 2.5), SaveFrame(1, 2.5), SaveFrame(2, 2.5), SaveFrame(3, 2.5)] == [0, 3, 5, 8]
  {
    assert SaveFrame(1, 2.5) == 3;
    assert SaveFrame(2, 2.5) == 5;
    assert SaveFrame(3, 2.5) == 8;
    assert SaveFrame(4, 2.5) == 10;
    SavedCountUnique(10, 2.5, 4);
  }

  /** One second of 30 fps video sampled at 1 fps yields one frame. */
  lemma OneSecondAtOneFps()
    ensures SavedCount(30, 30.0) == 1
  {
    assert SaveFrame(1, 30.0) == 30;
    SavedCountUnique(30, 30.0, 1);
  }
}

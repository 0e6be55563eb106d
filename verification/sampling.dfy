/** The sampling arithmetic of the extraction loop: which frame each sample
    reads, the relative time it is stamped with, and when the loop stops
    asking for samples. Frame rate and times are exact reals here; the
    source computes them in floating point. */
module Sampling {

  /** The run parameters that drive sampling. `interval` is the number of
      frames between two samples. */
  datatype Plan = Plan(fps: real, startTime: real, endTime: real, interval: int)

  /** What the loop needs in order to terminate without dividing by zero:
      a positive frame rate and an interval of at least one frame (an
      interval of 0 keeps seeking the same frame forever). */
  predicate ValidPlan(p: Plan)
  {
    p.fps > 0.0 && p.interval >= 1
  }

  /** Python's `int()` on a float: truncation toward zero. */
  function Trunc(x: real): (r: int)
    ensures x >= 0.0 ==> r as real <= x < r as real + 1.0
    ensures x < 0.0 ==> r as real - 1.0 < x <= r as real
  {
    if x >= 0.0 then x.Floor else -((-x).Floor)
  }

  /** The smallest integer not below `x`. */
  function Ceil(x: real): (r: int)
    ensures r as real - 1.0 < x <= r as real
  {
    -((-x).Floor)
  }

  /** The frame the source is first seeked to. */
  function StartFrame(p: Plan): (f: int)
    ensures p.startTime * p.fps >= 0.0 ==> f as real <= p.startTime * p.fps < f as real + 1.0
    ensures p.startTime * p.fps < 0.0 ==> f as real - 1.0 < p.startTime * p.fps <= f as real
  {
    Trunc(p.startTime * p.fps)
  }

  /** The absolute frame that sample `k` reads: the start frame plus `k`
      intervals. */
  function FrameIndex(p: Plan, k: nat): (f: int)
    ensures p.interval >= 1 ==> f >= StartFrame(p) + k
    ensures p.interval >= 1 && k > 0 ==> f > StartFrame(p)
  {
    StartFrame(p) + k * p.interval
  }

  /** The relative timestamp of sample `k`, in seconds. */
  function RelTime(p: Plan, k: nat): (t: real)
    requires ValidPlan(p)
    ensures t >= 0.0
    ensures t * p.fps == (k * p.interval) as real
  {
    (k * p.interval) as real / p.fps
  }

  /** The loop's guard: sample `k` is taken only while its relative time is
      strictly before the length of the requested window. */
  predicate InRange(p: Plan, k: nat)
    requires ValidPlan(p)
  {
    RelTime(p, k) < p.endTime - p.startTime
  }

  /** The window length measured in intervals: how many intervals of frames
      fit before the end time. */
  function Window(p: Plan): real
    requires ValidPlan(p)
  {
    (p.endTime - p.startTime) * p.fps / p.interval as real
  }

  /** How many sample indices the guard admits. */
  function NumSamples(p: Plan): (n: nat)
    requires ValidPlan(p)
    ensures p.endTime <= p.startTime ==> n == 0
    ensures p.endTime > p.startTime ==> n >= 1 && (n - 1) as real < Window(p) <= n as real
  {
    if p.endTime <= p.startTime then 0 else Ceil(Window(p))
  }

  lemma RelTimeStartsAtZero(p: Plan)
    requires ValidPlan(p)
    ensures RelTime(p, 0) == 0.0
  {
  }

  /** With at least one frame per interval, later samples carry strictly
      later timestamps. */
  lemma RelTimeStrictlyIncreasing(p: Plan, j: nat, k: nat)
    requires ValidPlan(p)
    requires j < k
    ensures RelTime(p, j) < RelTime(p, k)
  {
    assert j * p.interval < k * p.interval;
    DivMonotone((j * p.interval) as real, (k * p.interval) as real, p.fps);
  }

  lemma DivMonotone(a: real, b: real, c: real)
    requires a < b && c > 0.0
    ensures a / c < b / c
  {
    assert b / c - a / c == (b - a) / c;
  }

  /** Consecutive samples are one interval of frames apart, so the seek
      after sample `k` lands on the frame sample `k + 1` reads. */
  lemma FrameIndexAdvance(p: Plan, k: nat)
    ensures FrameIndex(p, 0) == StartFrame(p)
    ensures FrameIndex(p, k + 1) == FrameIndex(p, k) + p.interval
  {
  }

  /** The guard admits exactly the indices below `NumSamples`: the window is
      a prefix of the sample indices, with no gaps. */
  lemma InRangeIff(p: Plan, k: nat)
    requires ValidPlan(p)
    ensures InRange(p, k) <==> k < NumSamples(p)
  {
    var i := p.interval as real;
    RelTimeAsProduct(p, k);
    if p.endTime <= p.startTime {
      NonNegDiv(k as real * i, p.fps);
    } else {
      ScaleIff(k as real, i, p.fps, p.endTime - p.startTime);
      CeilIff(k, Window(p));
    }
  }

  lemma RelTimeAsProduct(p: Plan, k: nat)
    requires ValidPlan(p)
    ensures RelTime(p, k) == k as real * p.interval as real / p.fps
  {
  }

  lemma NonNegDiv(a: real, c: real)
    requires a >= 0.0 && c > 0.0
    ensures a / c >= 0.0
  {
  }

  lemma CeilIff(k: int, x: real)
    ensures k as real < x <==> k < Ceil(x)
  {
    var n := Ceil(x);
    if k < n {
      assert k as real <= n as real - 1.0;
    }
  }

  lemma ScaleIff(k: real, i: real, f: real, d: real)
    requires i > 0.0 && f > 0.0
    ensures k * i / f < d <==> k < d * f / i
  {
    assert k * i / f < d <==> k * i < d * f;
    assert k * i < d * f <==> k < d * f / i;
  }

  /** Sampling 2 seconds of 30 fps video every 30 frames gives two samples,
      at 0 and 1 seconds. */
  lemma TwoSecondsEveryThirtyFrames()
    ensures var p := Plan(30.0, 0.0, 2.0, 30);
      ValidPlan(p) && NumSamples(p) == 2
      && RelTime(p, 0) == 0.0 && RelTime(p, 1) == 1.0
      && FrameIndex(p, 0) == 0 && FrameIndex(p, 1) == 30
  {
    var p := Plan(30.0, 0.0, 2.0, 30);
    assert 2.0 * 30.0 / 30.0 == 2.0;
  }
}

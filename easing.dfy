/** The quadratic ease-in that carries the slider's value from where the
    finger let go to the snapped tick (`nextAnimatedStep`). */
module Easing {
  import opened SwiftNumerics

  /** Value after `currentTime` of an animation of length `duration` from
      `startValue` to `endValue`: the distance covered grows with the square
      of the elapsed fraction of the duration. */
  function NextAnimatedStep(currentTime: real, startValue: real, endValue: real, duration: real): (r: real)
    requires duration != 0.0
    ensures currentTime == 0.0 ==> r == startValue
    ensures currentTime == duration ==> r == endValue
    ensures currentTime == duration / 2.0 ==> r == startValue + (endValue - startValue) / 4.0
  {
    var progress := currentTime / duration;
    (endValue - startValue) * (progress * progress) + startValue
  }

  /** On `[0, duration]` the squared progress lies in `[0, 1]`. */
  lemma ProgressSquaredInUnit(t: real, d: real)
    requires 0.0 < d && 0.0 <= t <= d
    ensures 0.0 <= (t / d) * (t / d) <= 1.0
  {
    var p := t / d;
    assert 0.0 <= p <= 1.0;
    MulNonneg(p, p);
    MulNonneg(p, 1.0 - p);
    MulNonneg(1.0 - p, 1.0);
  }

  /** Between the start and the end of the animation the value never
      leaves the segment from `startValue` to `endValue`. */
  lemma {:induction false} StepStaysBetween(t: real, s: real, e: real, d: real)
    requires 0.0 < d && 0.0 <= t <= d
    ensures Min(s, e) <= NextAnimatedStep(t, s, e, d) <= Max(s, e)
  {
    var p2 := (t / d) * (t / d);
    ProgressSquaredInUnit(t, d);
    if s <= e {
      MulNonneg(e - s, p2);
      MulNonneg(e - s, 1.0 - p2);
    } else {
      MulNonneg(s - e, p2);
      MulNonneg(s - e, 1.0 - p2);
    }
  }

  /** Squared progress grows with time. */
  lemma ProgressSquaredMonotone(t1: real, t2: real, d: real)
    requires 0.0 < d && 0.0 <= t1 <= t2
    ensures (t1 / d) * (t1 / d) <= (t2 / d) * (t2 / d)
  {
    var p1, p2 := t1 / d, t2 / d;
    assert 0.0 <= p1 <= p2;
    MulNonneg(p2 - p1, p2 + p1);
    assert (p2 - p1) * (p2 + p1) == p2 * p2 - p1 * p1;
  }

  lemma StepDifference(t1: real, t2: real, s: real, e: real, d: real)
    requires d != 0.0
    ensures NextAnimatedStep(t2, s, e, d) - NextAnimatedStep(t1, s, e, d)
            == (e - s) * ((t2 / d) * (t2 / d) - (t1 / d) * (t1 / d))
  {
    var q1, q2 := (t1 / d) * (t1 / d), (t2 / d) * (t2 / d);
    assert (e - s) * (q2 - q1) == (e - s) * q2 - (e - s) * q1;
  }

  /** The ease-in moves in one direction only: toward `endValue`. */
  lemma {:induction false} StepMonotone(t1: real, t2: real, s: real, e: real, d: real)
    requires 0.0 < d && 0.0 <= t1 <= t2 <= d
    ensures s <= e ==> NextAnimatedStep(t1, s, e, d) <= NextAnimatedStep(t2, s, e, d)
    ensures e <= s ==> NextAnimatedStep(t2, s, e, d) <= NextAnimatedStep(t1, s, e, d)
  {
    var q1, q2 := (t1 / d) * (t1 / d), (t2 / d) * (t2 / d);
    ProgressSquaredMonotone(t1, t2, d);
    StepDifference(t1, t2, s, e, d);
    if s <= e {
      MulNonneg(e - s, q2 - q1);
    } else {
      MulNonneg(s - e, q2 - q1);
    }
  }
}

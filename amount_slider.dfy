/** The `AmountSlider` control: a horizontally scrolling ruler whose value
    follows the finger while it drags, snaps to the nearest tick when it is
    released (eased in over `animateDuration` by a repeating timer), and
    reports to its delegate. The delegate's optional callbacks and the
    haptic pulse are recorded, in order, in the `events` log; the clock is
    the `now` argument; the repeating timer is the `timerActive` flag, and
    each of its firings is a call of `Step`. */
module Control {
  import opened SwiftNumerics
  import opened Easing
  import opened MarkLayout

  /** A touch location in the control's coordinates. */
  datatype Point = Point(x: real, y: real)

  /** What the control does outside itself: the delegate's `beginTracking`,
      `endTracking` and `valueChanged(_:)`, and the haptic `Feedback` pulse. */
  datatype Event = BeganTracking | EndedTracking | ValueChanged(value: real) | Feedback

  // ----- Value notification (`updateValue`) -----

  /** `tick * round(value / tick)`: a whole number of ticks, the one
      nearest to `value` (counted in ticks). */
  function RoundedValue(value: real, tick: real): (r: real)
    requires tick != 0.0
    ensures IsIntegral(r / tick)
    ensures Abs(r / tick - value / tick) <= 0.5
  {
    var n := Round(value / tick);
    CancelFactor(tick, n);
    tick * n as real
  }

  lemma CancelFactor(tick: real, n: int)
    requires tick != 0.0
    ensures tick * n as real / tick == n as real
    ensures IsIntegral(n as real)
  {
  }

  /** Whether `updateValue` calls the delegate:
      `Int(roundedValue) % Int(tick) == 0`. */
  predicate Notifies(value: real, tick: real)
    requires Trunc(tick) != 0
  {
    Rem(Trunc(RoundedValue(value, tick)), Trunc(tick)) == 0
  }

  /** What `updateValue` adds to the event log. */
  function Notification(value: real, tick: real): seq<Event>
    requires Trunc(tick) != 0
  {
    if Notifies(value, tick) then [ValueChanged(RoundedValue(value, tick))] else []
  }

  /** With a whole-number tick the rounded value is always a whole number
      of ticks, so every assignment to `value` notifies the delegate. */
  lemma {:induction false} WholeTickAlwaysNotifies(value: real, k: int)
    requires k != 0
    ensures Notifies(value, k as real)
    ensures Notification(value, k as real) == [ValueChanged(RoundedValue(value, k as real))]
  {
    var n := Round(value / k as real);
    assert RoundedValue(value, k as real) == (k * n) as real;
    assert Trunc((k * n) as real) == k * n;
    assert Trunc(k as real) == k;
    RemOfMultiple(k, n);
  }

  /** With a fractional tick the test can fail: at tick 2.5 (`Int(tick)`
      is 2) the value 2.5 is reported, but 5.0 (`Int(5.0) % 2` is 1) is not. */
  lemma FractionalTickSkipsSomeTicks()
    ensures Notification(2.5, 2.5) == [ValueChanged(2.5)]
    ensures Notification(5.0, 2.5) == []
  {
    assert Trunc(2.5) == 2;
    assert Round(2.5 / 2.5) == 1;
    assert Round(5.0 / 2.5) == 2;
    assert Trunc(5.0) == 5;
  }

  // ----- Dragging (`continueTracking`) -----

  /** Value change for a finger movement of `deltaLocation` points: one
      tick per tick spacing (`width / markCount`). */
  function DragDelta(deltaLocation: real, width: real, markCount: int, tick: real): real
    requires width > 0.0 && markCount >= 1
  {
    deltaLocation / (width / markCount as real) * tick
  }

  /** The clamp of `continueTracking`: at or below `lo` gives `lo`, else at
      or above `hi` gives `hi`. */
  function Clamp(v: real, lo: real, hi: real): (r: real)
    ensures lo <= hi ==> lo <= r <= hi
    ensures lo < v < hi ==> r == v
    ensures v <= lo ==> r == lo
    ensures lo < v && hi <= v ==> r == hi
  {
    if v <= lo then lo else if v >= hi then hi else v
  }

  /** The value after a drag from `previousX` to `x`: moved against the
      finger and clamped to the range. */
  function DraggedValue(value: real, previousX: real, x: real, width: real, markCount: int,
                        tick: real, lo: real, hi: real): real
    requires width > 0.0 && markCount >= 1
  {
    Clamp(value - DragDelta(x - previousX, width, markCount, tick), lo, hi)
  }

  lemma DragDeltaSign(deltaLocation: real, width: real, markCount: int, tick: real)
    requires width > 0.0 && markCount >= 1 && tick > 0.0
    ensures 0.0 < deltaLocation ==> 0.0 < DragDelta(deltaLocation, width, markCount, tick)
    ensures deltaLocation < 0.0 ==> DragDelta(deltaLocation, width, markCount, tick) < 0.0
    ensures deltaLocation == 0.0 ==> DragDelta(deltaLocation, width, markCount, tick) == 0.0
  {
    var spacing := width / markCount as real;
    assert 0.0 < spacing;
    if 0.0 < deltaLocation {
      MulPos(deltaLocation / spacing, tick);
    } else if deltaLocation < 0.0 {
      MulPos(-deltaLocation / spacing, tick);
    }
  }

  /** The ruler is inverted: with a positive tick, dragging right lowers
      the value (strictly, unless it already sits at the minimum), dragging
      left raises it, and the result never leaves the range. */
  lemma {:induction false} DragDirection(value: real, previousX: real, x: real, width: real,
                                         markCount: int, tick: real, lo: real, hi: real)
    requires width > 0.0 && markCount >= 1 && tick > 0.0 && lo <= value <= hi
    ensures var v := DraggedValue(value, previousX, x, width, markCount, tick, lo, hi);
      lo <= v <= hi &&
      (previousX < x ==> v <= value && (lo < value ==> v < value)) &&
      (x < previousX ==> value <= v && (value < hi ==> value < v)) &&
      (x == previousX ==> v == value)
  {
    DragDeltaSign(x - previousX, width, markCount, tick);
  }

  /** With the defaults (range -100...100, tick 1, 20 marks) in a view 200
      wide, a drag 50 points to the right from value 0 gives -5, and a drag
      of 2000 points stops at the minimum. */
  lemma DragExamples()
    ensures DraggedValue(0.0, 0.0, 50.0, 200.0, 20, 1.0, -100.0, 100.0) == -5.0
    ensures DraggedValue(0.0, 0.0, 2000.0, 200.0, 20, 1.0, -100.0, 100.0) == -100.0
  {
  }

  // ----- Snapping on release (`endTracking`) -----

  /** `round(value * (10 / tick) / 10) * (10 / (10 / tick))`, as written. */
  function EndTrackingRound(value: real, tick: real): (r: real)
    requires tick != 0.0
    ensures r == RoundedValue(value, tick)
  {
    assert value * (10.0 / tick) / 10.0 == value / tick;
    assert 10.0 / (10.0 / tick) == tick;
    Round(value * (10.0 / tick) / 10.0) as real * (10.0 / (10.0 / tick))
  }

  /** Target of the snap animation: the rounded value, or the bound it
      passes. */
  function SnapTarget(value: real, tick: real, lo: real, hi: real): (r: real)
    requires tick != 0.0
    ensures lo <= hi ==> lo <= r <= hi
    ensures lo <= RoundedValue(value, tick) <= hi ==> r == RoundedValue(value, tick)
    ensures RoundedValue(value, tick) < lo ==> r == lo
    ensures lo <= RoundedValue(value, tick) && hi < RoundedValue(value, tick) ==> r == hi
  {
    var calculatedValue := EndTrackingRound(value, tick);
    if calculatedValue < lo then lo else if calculatedValue > hi then hi else calculatedValue
  }

  /** Releasing on a tick inside the range starts no animation. */
  lemma {:induction false} SnapOnTickStays(k: int, tick: real, lo: real, hi: real)
    requires tick != 0.0 && lo <= k as real * tick <= hi
    ensures SnapTarget(k as real * tick, tick, lo, hi) == k as real * tick
  {
    assert k as real * tick / tick == k as real;
    RoundIntegral(k);
  }

  /** Releasing at 4.6 with tick 1 aims at 5. */
  lemma SnapExample()
    ensures SnapTarget(4.6, 1.0, -100.0, 100.0) == 5.0
  {
    assert Round(4.6) == 5;
  }

  // ----- The control -----

  class AmountSlider {
    var minimumValue: real
    var maximumValue: real
    var value: real
    var tick: real
    var markWidth: real
    var markCount: int

    var previousValue: real
    var previousLocation: Point
    var nextValue: real
    var slidePosition: real
    const animateDuration: real := 0.2
    var lastTime: real
    var timerActive: bool
    var animating: bool

    /** Calls made to the delegate and haptic pulses, oldest first. */
    var events: seq<Event>

    /** The range is ordered and the value, the animation's start and its
        target all lie within it. */
    predicate InRange()
      reads this
    {
      minimumValue <= maximumValue &&
      minimumValue <= value <= maximumValue &&
      minimumValue <= previousValue <= maximumValue &&
      minimumValue <= nextValue <= maximumValue
    }

    /** What `draw` reads, in a view of the given size. */
    function GeometryIn(width: real, height: real): Geometry
      reads this
    {
      Geometry(value, width, height, markCount, tick, minimumValue, maximumValue, markWidth)
    }

    /** A new control with the declared defaults; `now` is the clock
        reading that `lastTime` starts from. */
    constructor (now: real)
      ensures minimumValue == -100.0 && maximumValue == 100.0 && value == 0.0 && tick == 1.0
      ensures markWidth == 1.0 && markCount == 20
      ensures previousValue == 0.0 && previousLocation == Point(0.0, 0.0) && nextValue == 0.0
      ensures slidePosition == 0.0 && animateDuration == 0.2 && lastTime == now
      ensures !timerActive && !animating && events == []
      ensures InRange()
    {
      minimumValue, maximumValue, value, tick := -100.0, 100.0, 0.0, 1.0;
      markWidth, markCount := 1.0, 20;
      previousValue, previousLocation, nextValue := 0.0, Point(0.0, 0.0), 0.0;
      slidePosition, lastTime := 0.0, now;
      timerActive, animating, events := false, false, [];
    }

    /** Assigning `value`: its `didSet` runs `updateValue`. The value is
        stored as given, without clamping. */
    method SetValue(v: real)
      requires Trunc(tick) != 0
      modifies this`value, this`events
      ensures value == v
      ensures events == old(events) + Notification(v, tick)
    {
      value := v;
      UpdateValue();
    }

    /** `updateValue`: reports the value rounded to a tick when
        `Int(roundedValue) % Int(tick) == 0`. */
    method UpdateValue()
      requires Trunc(tick) != 0
      modifies this`events
      ensures events == old(events) + Notification(value, tick)
    {
      var roundedValue := RoundedValue(value, tick);
      if Rem(Trunc(roundedValue), Trunc(tick)) == 0 {
        events := events + [ValueChanged(roundedValue)];
      }
    }

    /** `beginTracking`: refused when `tick` is 0; otherwise tells the
        delegate, marks the control animating and remembers the touch. A
        running snap timer is left running. */
    method BeginTracking(touch: Point) returns (handled: bool)
      modifies this`events, this`animating, this`previousLocation
      ensures handled == (tick != 0.0)
      ensures !handled ==> unchanged(this)
      ensures handled ==> events == old(events) + [BeganTracking] && animating && previousLocation == touch
    {
      if tick == 0.0 {
        return false;
      }
      events := events + [BeganTracking];
      animating := true;
      previousLocation := touch;
      return true;
    }

    /** `continueTracking` in a view `width` wide: refused when `tick` is 0;
        otherwise moves the value against the finger by one tick per tick
        spacing, clamps it to the range, remembers the touch and pulses. */
    method ContinueTracking(touch: Point, width: real) returns (handled: bool)
      requires tick != 0.0 ==> width > 0.0 && markCount >= 1 && Trunc(tick) != 0
      modifies this`animating, this`previousLocation, this`value, this`events
      ensures handled == (tick != 0.0)
      ensures !handled ==> unchanged(this)
      ensures handled ==> animating && previousLocation == touch
      ensures handled ==> value == DraggedValue(old(value), old(previousLocation).x, touch.x, width,
                                                markCount, tick, minimumValue, maximumValue)
      ensures handled ==> events == old(events) + Notification(value, tick) + [Feedback]
      ensures old(InRange()) ==> InRange()
    {
      if tick == 0.0 {
        return false;
      }
      animating := true;
      var location := touch;
      var deltaLocation := location.x - previousLocation.x;
      var deltaValue := DragDelta(deltaLocation, width, markCount, tick);
      previousLocation := location;
      var calculatedValue := value - deltaValue;
      var newValue := calculatedValue;
      if calculatedValue <= minimumValue {
        newValue := minimumValue;
      } else if calculatedValue >= maximumValue {
        newValue := maximumValue;
      }
      SetValue(newValue);
      events := events + [Feedback];
      return true;
    }

    /** `endTracking` at time `now`: nothing when `tick` is 0; otherwise
        tells the delegate, clears the animating flag and animates toward
        the snapped value. */
    method EndTracking(now: real)
      modifies this`events, this`animating, this`previousValue, this`nextValue, this`lastTime, this`timerActive
      ensures tick == 0.0 ==> unchanged(this)
      ensures tick != 0.0 ==> events == old(events) + [EndedTracking] && !animating
      ensures tick != 0.0 ==> previousValue == value && nextValue == SnapTarget(value, tick, minimumValue, maximumValue)
      ensures tick != 0.0 && nextValue == value ==> lastTime == old(lastTime) && timerActive == old(timerActive)
      ensures tick != 0.0 && nextValue != value ==> lastTime == now && timerActive
      ensures old(InRange()) ==> InRange()
    {
      if tick == 0.0 {
        return;
      }
      events := events + [EndedTracking];
      animating := false;
      var calculatedValue := EndTrackingRound(value, tick);
      var target := calculatedValue;
      if calculatedValue < minimumValue {
        target := minimumValue;
      } else if calculatedValue > maximumValue {
        target := maximumValue;
      }
      AnimateWithValueUpdate(target, now);
    }

    /** `animateWithValueUpdate` at time `now`: records the start and the
        target; when they differ, replaces any running timer with a new one
        starting now. */
    method AnimateWithValueUpdate(target: real, now: real)
      modifies this`previousValue, this`nextValue, this`lastTime, this`timerActive
      ensures previousValue == value && nextValue == target
      ensures target == value ==> lastTime == old(lastTime) && timerActive == old(timerActive)
      ensures target != value ==> lastTime == now && timerActive
      ensures old(InRange()) && minimumValue <= target <= maximumValue ==> InRange()
    {
      previousValue := value;
      nextValue := target;
      if target == previousValue {
        return;
      }
      StopAnimation();
      lastTime := now;
      timerActive := true;
    }

    /** One firing of the timer at time `now`: the value follows the ease-in
        curve, at most `animateDuration` along it; once that much time has
        passed the value is the target and the timer stops. */
    method Step(now: real)
      requires Trunc(tick) != 0
      modifies this`value, this`events, this`timerActive
      ensures value == NextAnimatedStep(Min(animateDuration, now - lastTime), previousValue, nextValue, animateDuration)
      ensures events == old(events) + Notification(value, tick)
      ensures timerActive == (old(timerActive) && now - lastTime < animateDuration)
      ensures animateDuration <= now - lastTime ==> value == nextValue && !timerActive
      ensures lastTime <= now ==> Min(previousValue, nextValue) <= value <= Max(previousValue, nextValue)
      ensures old(InRange()) && lastTime <= now ==> InRange()
    {
      var currentTime := now;
      var elapsedTime := currentTime - lastTime;
      var time := Min(animateDuration, elapsedTime);
      if lastTime <= now {
        StepStaysBetween(time, previousValue, nextValue, animateDuration);
      }
      SetValue(NextAnimatedStep(time, previousValue, nextValue, animateDuration));
      if time >= animateDuration {
        StopAnimation();
      }
    }

    /** `stopAnimation`: invalidates the timer. */
    method StopAnimation()
      modifies this`timerActive
      ensures !timerActive
    {
      timerActive := false;
    }

    /** `draw` in a view of the given size: writes `slidePosition` and,
        when there is a graphics context, fills one mark per index
        `0...markCount`. */
    method Draw(width: real, height: real, hasContext: bool) returns (marks: seq<Mark>)
      requires WellFormed(GeometryIn(width, height))
      requires hasContext ==> Drawable(GeometryIn(width, height))
      modifies this`slidePosition
      ensures slidePosition == SlidePosition(GeometryIn(width, height))
      ensures !hasContext ==> marks == []
      ensures hasContext ==> |marks| == markCount + 1
      ensures hasContext ==> forall i :: 0 <= i < |marks| ==> marks[i] == MarkAt(GeometryIn(width, height), i)
    {
      var g := GeometryIn(width, height);
      var tickSpacing := TickSpacing(g);
      slidePosition := SlidePosition(g);
      marks := [];
      if !hasContext {
        return;
      }
      for index := 0 to markCount + 1
        invariant slidePosition == SlidePosition(g)
        invariant |marks| == index
        invariant forall i :: 0 <= i < index ==> marks[i] == MarkAt(g, i)
      {
        var mark := PlaceMark(g, tickSpacing, slidePosition, index);
        marks := marks + [mark];
      }
    }
  }

  /** One pass of the loop in `draw`: where mark `index` lands once the
      strip has slid by `slidePosition`, how faded it is and how tall. */
  method PlaceMark(g: Geometry, tickSpacing: real, slidePosition: real, index: int) returns (mark: Mark)
    requires Drawable(g)
    requires tickSpacing == TickSpacing(g) && slidePosition == SlidePosition(g)
    ensures mark == MarkAt(g, index)
  {
    var width, height, markWidth := g.width, g.height, g.markWidth;
    ghost var raw := tickSpacing * index as real + slidePosition - width / 2.0;
    assert raw == RawPosition(g, index);
    var relativePosition := TruncatingRemainder(tickSpacing * index as real + slidePosition - width / 2.0, width);
    if relativePosition < 0.0 {
      relativePosition := relativePosition + width;
    }
    assert relativePosition == RelativePosition(g, index);
    var alpha := MarkAlpha(g, index, relativePosition);
    var markX := relativePosition - markWidth / 2.0;
    var markHeight := HeightFor(height, Ceil(Abs(markX - width / 2.0)), tickSpacing);
    mark := Mark(markX, (height - markHeight as real) / 2.0, markHeight, alpha);
  }

  /** The alpha step of the loop in `draw`: the spotlight at
      `relativePosition`, cleared to 0 inside the gap of the band the value
      is in. */
  method MarkAlpha(g: Geometry, index: int, relativePosition: real) returns (alpha: real)
    requires Drawable(g) && relativePosition == RelativePosition(g, index)
    ensures alpha == Alpha(g, index)
  {
    alpha := Spotlight(relativePosition, g.width);
    if InLowBand(g) {
      var endRange := LowEndRange(g);
      if 0.0 <= relativePosition <= endRange {
        alpha := 0.0;
      }
    } else if InHighBand(g) {
      var endRange := HighCutOff(g);
      if endRange >= g.width {
        endRange := endRange - g.width / 2.0 + g.markWidth;
      }
      if endRange <= relativePosition <= g.width {
        alpha := 0.0;
      }
    }
  }

  /** The ease from 4.6 to 5 over 0.2, sampled at each quarter. */
  lemma QuarterSteps()
    ensures NextAnimatedStep(0.05, 4.6, 5.0, 0.2) == 4.625
    ensures NextAnimatedStep(0.1, 4.6, 5.0, 0.2) == 4.7
    ensures NextAnimatedStep(0.15, 4.6, 5.0, 0.2) == 4.825
    ensures NextAnimatedStep(0.2, 4.6, 5.0, 0.2) == 5.0
  {
  }

  /** Every value that rounds to 5 reports 5 when the tick is 1. */
  lemma ReportsFive(v: real)
    requires 4.5 <= v < 5.5
    ensures Notification(v, 1.0) == [ValueChanged(5.0)]
  {
    assert Round(v / 1.0) == 5;
    WholeTickAlwaysNotifies(v, 1);
  }

  /** A fresh control with its value set to 4.6 and released at time 1:
      it reports 5, tells the delegate and starts easing toward 5. */
  method ReleasedAtFourPointSix() returns (slider: AmountSlider)
    ensures fresh(slider)
    ensures slider.value == 4.6 && slider.previousValue == 4.6 && slider.nextValue == 5.0
    ensures slider.tick == 1.0 && slider.animateDuration == 0.2
    ensures slider.lastTime == 1.0 && slider.timerActive
    ensures slider.events == [ValueChanged(5.0), EndedTracking]
  {
    slider := new AmountSlider(0.0);
    ReportsFive(4.6);
    slider.SetValue(4.6);
    SnapExample();
    slider.EndTracking(1.0);
  }

  /** Release at 4.6 (tick 1, default range) and four timer firings a
      quarter of the duration apart: the value eases to exactly 5 and the
      timer stops. With a whole-number tick every step is reported. */
  method SnapScenario() returns (settled: real, timerRunning: bool, log: seq<Event>)
    ensures settled == 5.0 && !timerRunning
    ensures log == [ValueChanged(5.0), EndedTracking, ValueChanged(5.0), ValueChanged(5.0),
                    ValueChanged(5.0), ValueChanged(5.0)]
  {
    var slider := ReleasedAtFourPointSix();
    QuarterSteps();
    ReportsFive(4.625);
    slider.Step(1.05);
    ReportsFive(4.7);
    slider.Step(1.1);
    ReportsFive(4.825);
    slider.Step(1.15);
    ReportsFive(5.0);
    slider.Step(1.2);
    settled, timerRunning, log := slider.value, slider.timerActive, slider.events;
  }
}

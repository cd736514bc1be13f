/** The per-mark geometry that `AmountSlider.draw` computes before it paints:
    where each of the `markCount + 1` marks of the ruler lands on the strip
    (wrapped around its width), how opaque it is (a spotlight around the
    centre, and a gap near either end of the value range), and how tall it
    is (tapering away from the centre). The painting itself is not modelled:
    a mark is the rect and alpha that `draw` hands to the graphics context. */
module MarkLayout {
  import opened SwiftNumerics

  /** Everything one pass of `draw` reads: the slider's value and
      configuration, and the view's width and height (`frame` and `bounds`
      have the same width here). */
  datatype Geometry = Geometry(
    value: real,
    width: real,
    height: real,
    markCount: int,
    tick: real,
    minimumValue: real,
    maximumValue: real,
    markWidth: real)

  /** One mark as `draw` fills it: the rect's left edge `x` and top `y`, its
      `height` (always a whole number), and the alpha of its fill colour. */
  datatype Mark = Mark(x: real, y: real, height: int, alpha: real)

  /** The divisions of `draw` are defined: at least one mark interval, a
      view with a width, and a non-zero tick. */
  predicate WellFormed(g: Geometry) {
    g.markCount >= 1 && g.width > 0.0 && g.tick != 0.0
  }

  /** Screen distance between two neighbouring marks. */
  function TickSpacing(g: Geometry): (r: real)
    requires WellFormed(g)
    ensures 0.0 < r && r * g.markCount as real == g.width
  {
    g.width / g.markCount as real
  }

  /** Offset of the ruler that brings the point for `value` to the centre
      (the `slidePosition` field that `draw` writes). */
  function SlidePosition(g: Geometry): real
    requires WellFormed(g)
  {
    -g.value * TickSpacing(g) / g.tick + g.width / 2.0
  }

  /** Position of mark `index` before it is wrapped onto the strip. */
  function RawPosition(g: Geometry, index: int): real
    requires WellFormed(g)
  {
    TickSpacing(g) * index as real + SlidePosition(g) - g.width / 2.0
  }

  lemma IntegralShift(x: real, n: int)
    requires IsIntegral(x)
    ensures IsIntegral(-x + n as real)
  {
    var k := x.Floor;
    assert -x + n as real == (n - k) as real;
  }

  /** Moving `r` by `n` widths changes its offset from `raw`, in widths, by `n`. */
  lemma WidthsMoved(raw: real, r: real, w: real, n: int)
    requires w > 0.0
    ensures (r + n as real * w - raw) / w == -((raw - r) / w) + n as real
  {
    var k := (raw - r) / w;
    assert raw - r == k * w;
    assert r + n as real * w - raw == (n as real - k) * w;
  }

  /** Wrapping a position onto a strip of width `w`: the truncating
      remainder, moved up by one width when it is negative. */
  function Wrap(raw: real, w: real): (p: real)
    requires w > 0.0
    ensures 0.0 <= p < w
    ensures IsIntegral((p - raw) / w)
  {
    var r := TruncatingRemainder(raw, w);
    if r < 0.0 then
      WidthsMoved(raw, r, w, 1);
      IntegralShift((raw - r) / w, 1);
      r + w
    else
      WidthsMoved(raw, r, w, 0);
      IntegralShift((raw - r) / w, 0);
      r
  }

  /** Position of mark `index` on the strip: its raw position wrapped into
      `[0, width)`, that is, moved by a whole number of widths. */
  function RelativePosition(g: Geometry, index: int): (p: real)
    requires WellFormed(g)
    ensures 0.0 <= p < g.width
    ensures IsIntegral((p - RawPosition(g, index)) / g.width)
  {
    Wrap(RawPosition(g, index), g.width)
  }

  /** The spotlight: full opacity at the centre of the strip, fading
      linearly over a fifth of the width on either side, never below 0.2. */
  function Spotlight(position: real, width: real): (alpha: real)
    requires width > 0.0
    ensures 0.2 <= alpha <= 1.0
    ensures position == width / 2.0 ==> alpha == 1.0
  {
    Max(0.2, 1.0 - Abs(position - width / 2.0) / (width / 5.0))
  }

  lemma DivMonotone(a: real, b: real, c: real)
    requires 0.0 < c && a <= b
    ensures a / c <= b / c
  {
    MulNonneg(b - a, 1.0 / c);
    assert (b - a) * (1.0 / c) == b / c - a / c;
  }

  /** A mark farther from the centre is never brighter. */
  lemma SpotlightFallsOff(p1: real, p2: real, width: real)
    requires width > 0.0
    requires Abs(p1 - width / 2.0) <= Abs(p2 - width / 2.0)
    ensures Spotlight(p2, width) <= Spotlight(p1, width)
  {
    DivMonotone(Abs(p1 - width / 2.0), Abs(p2 - width / 2.0), width / 5.0);
  }

  /** The index of the middle mark, `markCount / 2` in Int arithmetic. */
  function MiddleMark(g: Geometry): real {
    Quot(g.markCount, 2) as real
  }

  /** The value is near the low end: within `minimumValue ... (middleMark - 1) * tick`. */
  predicate InLowBand(g: Geometry) {
    g.minimumValue <= g.value <= (MiddleMark(g) - 1.0) * g.tick
  }

  /** The value is near the high end: within
      `(maximumValue - (middleMark - 1) * tick) ... maximumValue`. */
  predicate InHighBand(g: Geometry) {
    g.maximumValue - (MiddleMark(g) - 1.0) * g.tick <= g.value <= g.maximumValue
  }

  /** `markCount * Int(tick) / 2`, the Int modulus of the gap computation. */
  function RemainderModulus(g: Geometry): int {
    Quot(g.markCount * Trunc(g.tick), 2)
  }

  /** `Int(value) % (markCount * Int(tick) / 2)`. */
  function Remainder(g: Geometry): int
    requires RemainderModulus(g) != 0
  {
    Rem(Trunc(g.value), RemainderModulus(g))
  }

  /** In the low band, marks at or left of this position are hidden. */
  function LowEndRange(g: Geometry): real
    requires WellFormed(g) && RemainderModulus(g) != 0
  {
    (0.5 + MiddleMark(g) - Remainder(g) as real / g.tick) * TickSpacing(g)
  }

  /** The high cut-off as first computed, before it is pulled back. */
  function HighCutOff(g: Geometry): real
    requires WellFormed(g) && RemainderModulus(g) != 0
  {
    (g.markCount as real - Remainder(g) as real / g.tick) * TickSpacing(g)
  }

  /** In the high band, marks at or right of this position are hidden; a
      cut-off past the strip is pulled back by half the width less one mark
      width. */
  function HighEndRange(g: Geometry): real
    requires WellFormed(g) && RemainderModulus(g) != 0
  {
    var endRange := HighCutOff(g);
    if endRange >= g.width then endRange - g.width / 2.0 + g.markWidth else endRange
  }

  /** `draw` runs without a trap: its divisions are defined, every closed
      range it builds has ordered bounds, and the Int `%` it evaluates has
      a non-zero divisor. The low-band range is always built; the high-band
      range only when the value is outside the low band; the modulus and
      the cut-off ranges only inside the band that uses them. */
  predicate Drawable(g: Geometry) {
    WellFormed(g) &&
    g.minimumValue <= (MiddleMark(g) - 1.0) * g.tick &&
    if InLowBand(g) then
      RemainderModulus(g) != 0 && 0.0 <= LowEndRange(g)
    else
      g.maximumValue - (MiddleMark(g) - 1.0) * g.tick <= g.maximumValue &&
      (InHighBand(g) ==> RemainderModulus(g) != 0 && HighEndRange(g) <= g.width)
  }

  /** Mark `index` is in the gap: the value is in the low band and the mark
      is at or left of the low cut-off, or, the low band not holding, the
      value is in the high band and the mark is at or right of the high
      cut-off. */
  predicate Hidden(g: Geometry, index: int)
    requires Drawable(g)
  {
    (InLowBand(g) && RelativePosition(g, index) <= LowEndRange(g)) ||
    (!InLowBand(g) && InHighBand(g) && HighEndRange(g) <= RelativePosition(g, index))
  }

  /** Alpha of mark `index`: the spotlight, or 0 inside the gap. */
  function Alpha(g: Geometry, index: int): (alpha: real)
    requires Drawable(g)
    ensures alpha == 0.0 || alpha == Spotlight(RelativePosition(g, index), g.width)
    ensures 0.0 <= alpha <= 1.0
  {
    var position := RelativePosition(g, index);
    var spotlight := Spotlight(position, g.width);
    if InLowBand(g) then
      if 0.0 <= position <= LowEndRange(g) then 0.0 else spotlight
    else if InHighBand(g) then
      if HighEndRange(g) <= position <= g.width then 0.0 else spotlight
    else
      spotlight
  }

  /** A mark is invisible exactly when it is in the gap; every other mark
      shows the spotlight alpha, at least 0.2. */
  lemma AlphaCases(g: Geometry, index: int)
    requires Drawable(g)
    ensures Alpha(g, index) == 0.0 <==> Hidden(g, index)
    ensures !Hidden(g, index) ==> Alpha(g, index) == Spotlight(RelativePosition(g, index), g.width) >= 0.2
  {
  }

  /** When the value is in both bands, only the low cut-off decides. */
  lemma LowBandWins(g: Geometry, index: int)
    requires Drawable(g) && InLowBand(g) && InHighBand(g)
    ensures Alpha(g, index) == 0.0 <==> RelativePosition(g, index) <= LowEndRange(g)
  {
  }

  /** Away from both ends of the range no mark is hidden. */
  lemma NoGapAwayFromEnds(g: Geometry, index: int)
    requires Drawable(g) && !InLowBand(g) && !InHighBand(g)
    ensures 0.2 <= Alpha(g, index) <= 1.0
  {
  }

  /** Height of a mark whose left edge is `distanceFromMiddle` (rounded up)
      away from the centre: the frame height less two units per tick
      spacing of distance, rounded to an even number, and at least 20. */
  function HeightFor(frameHeight: real, distanceFromMiddle: int, tickSpacing: real): (h: int)
    requires tickSpacing > 0.0
    ensures 20 <= h && h % 2 == 0
  {
    var roundedHeight := Round((frameHeight - distanceFromMiddle as real / tickSpacing * 2.0) / 2.0) * 2;
    if 20 <= roundedHeight then roundedHeight else 20
  }

  /** Marks shrink, never grow, with distance from the centre. */
  lemma {:induction false} TallerNearCentre(frameHeight: real, d1: int, d2: int, tickSpacing: real)
    requires tickSpacing > 0.0 && d1 <= d2
    ensures HeightFor(frameHeight, d2, tickSpacing) <= HeightFor(frameHeight, d1, tickSpacing)
  {
    DivMonotone(d1 as real, d2 as real, tickSpacing);
    var x1 := (frameHeight - d1 as real / tickSpacing * 2.0) / 2.0;
    var x2 := (frameHeight - d2 as real / tickSpacing * 2.0) / 2.0;
    RoundMonotone(x2, x1);
  }

  /** A mark whose rounded-up distance from the centre is at most half a
      tick spacing, in a view of even whole height at least 20, takes the
      full height. */
  lemma {:induction false} FullHeightAtCentre(k: int, distanceFromMiddle: int, tickSpacing: real)
    requires tickSpacing > 0.0 && k >= 10
    requires 0 <= distanceFromMiddle && 2.0 * distanceFromMiddle as real <= tickSpacing
    ensures HeightFor((2 * k) as real, distanceFromMiddle, tickSpacing) == 2 * k
  {
    var f := distanceFromMiddle as real / tickSpacing;
    assert 0.0 <= f <= 0.5 by {
      DivMonotone(2.0 * distanceFromMiddle as real, tickSpacing, tickSpacing);
      assert (2.0 * distanceFromMiddle as real) / tickSpacing == 2.0 * f;
    }
    var x := ((2 * k) as real - f * 2.0) / 2.0;
    assert x == k as real - f;
    var n := Round(x);
    assert n == k;
  }

  /** Left edge of the rect of mark `index`: centred on its position. */
  function MarkX(g: Geometry, index: int): real
    requires WellFormed(g)
  {
    RelativePosition(g, index) - g.markWidth / 2.0
  }

  /** `ceil(abs(markX - width / 2))`. */
  function DistanceFromMiddle(g: Geometry, index: int): (d: int)
    requires WellFormed(g)
    ensures 0 <= d
  {
    Ceil(Abs(MarkX(g, index) - g.width / 2.0))
  }

  /** The mark `draw` fills for `index`. */
  function MarkAt(g: Geometry, index: int): (m: Mark)
    requires Drawable(g)
    ensures -g.markWidth / 2.0 <= m.x < g.width - g.markWidth / 2.0
    ensures 20 <= m.height && m.height % 2 == 0
    ensures m.alpha == 0.0 || 0.2 <= m.alpha <= 1.0
    ensures m.y == (g.height - m.height as real) / 2.0
  {
    var h := HeightFor(g.height, DistanceFromMiddle(g, index), TickSpacing(g));
    Mark(MarkX(g, index), (g.height - h as real) / 2.0, h, Alpha(g, index))
  }

  /** The control's defaults (range -100...100, tick 1, 20 marks, mark
      width 1) at value 0, in a view 200 by 40. */
  function DefaultGeometry(): Geometry {
    Geometry(0.0, 200.0, 40.0, 20, 1.0, -100.0, 100.0, 1.0)
  }

  /** With the defaults, mark 10 sits exactly at the centre where the
      spotlight is full, yet it is hidden: value 0 lies in the low band
      `-100 ... 9`, whose cut-off is 105. */
  lemma CentreMarkAtDefaults()
    ensures Drawable(DefaultGeometry())
    ensures TickSpacing(DefaultGeometry()) == 10.0
    ensures RelativePosition(DefaultGeometry(), 10) == 100.0
    ensures Spotlight(RelativePosition(DefaultGeometry(), 10), 200.0) == 1.0
    ensures InLowBand(DefaultGeometry()) && LowEndRange(DefaultGeometry()) == 105.0
    ensures Alpha(DefaultGeometry(), 10) == 0.0
    ensures MarkAt(DefaultGeometry(), 10).height == 40
  {
    var g := DefaultGeometry();
    assert Quot(20, 2) == 10;
    assert Trunc(1.0) == 1;
    assert RemainderModulus(g) == 10;
    assert Remainder(g) == 0;
    assert RawPosition(g, 10) == 100.0;
    assert Trunc(100.0 / 200.0) == 0;
    assert RelativePosition(g, 10) == 100.0;
    assert DistanceFromMiddle(g, 10) == 1;
    assert Round((40.0 - 1.0 / 10.0 * 2.0) / 2.0) == 20;
  }
}

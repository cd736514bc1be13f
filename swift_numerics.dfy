/** Swift's numeric primitives used by the slider, stated over Dafny's
    unbounded `real` and `int`: `round`, `ceil`, `truncatingRemainder`,
    the `Int(_:)` conversion, and Int's `/` and `%`, which truncate toward
    zero (Dafny's own `/` and `%` on `int` are Euclidean). */
module SwiftNumerics {

  function Abs(x: real): (r: real)
    ensures r >= 0.0 && (r == x || r == -x)
  {
    if x < 0.0 then -x else x
  }

  function AbsInt(n: int): (r: nat)
    ensures r == n || r == -n
  {
    if n < 0 then -n else n
  }

  /** Swift's `max` on two Doubles. */
  function Max(a: real, b: real): (r: real)
    ensures a <= r && b <= r && (r == a || r == b)
  {
    if a < b then b else a
  }

  /** Swift's `min` on two Doubles. */
  function Min(a: real, b: real): (r: real)
    ensures r <= a && r <= b && (r == a || r == b)
  {
    if b < a then b else a
  }

  /** `x` has no fractional part. */
  predicate IsIntegral(x: real) {
    x.Floor as real == x
  }

  /** `Int(x)`: a Double converted to Int loses its fractional part,
      rounding toward zero. */
  function Trunc(x: real): (n: int)
    ensures Abs(x - n as real) < 1.0
    ensures Abs(n as real) <= Abs(x)
    ensures 0.0 <= x ==> 0 <= n
    ensures x <= 0.0 ==> n <= 0
    ensures IsIntegral(x) ==> n as real == x
  {
    if x >= 0.0 then x.Floor
    else
      var k := x.Floor;
      assert IsIntegral(x) ==> ((-k) as real).Floor == -k;
      -((-x).Floor)
  }

  /** `round(x)` on Double: the nearest integer, halfway cases rounded
      away from zero. */
  function Round(x: real): (n: int)
    ensures Abs(x - n as real) <= 0.5
    ensures Abs(x - n as real) == 0.5 ==> Abs(x) < Abs(n as real)
  {
    if x >= 0.0 then (x + 0.5).Floor else -((-x + 0.5).Floor)
  }

  /** `ceil(x)` on Double: the least integer not below `x`. */
  function Ceil(x: real): (n: int)
    ensures x <= n as real < x + 1.0
  {
    -((-x).Floor)
  }

  /** Rounding an integral value leaves it as it is. */
  lemma RoundIntegral(k: int)
    ensures Round(k as real) == k
  {
  }

  /** `round` never reverses the order of its arguments. */
  lemma {:induction false} RoundMonotone(x: real, y: real)
    requires x <= y
    ensures Round(x) <= Round(y)
  {
    if x >= 0.0 {
      assert (x + 0.5).Floor <= (y + 0.5).Floor;
    } else if y < 0.0 {
      assert (-y + 0.5).Floor <= (-x + 0.5).Floor;
    }
  }

  /** `x.truncatingRemainder(dividingBy: d)`: what is left of `x` after
      taking away the whole multiple of `d` obtained by truncating `x / d`
      toward zero. It keeps the sign of `x` and is smaller than `d` in
      magnitude. */
  function TruncatingRemainder(x: real, d: real): (r: real)
    requires d != 0.0
    ensures Abs(r) < Abs(d)
    ensures 0.0 <= x ==> 0.0 <= r
    ensures x <= 0.0 ==> r <= 0.0
    ensures IsIntegral((x - r) / d)
  {
    var q := Trunc(x / d);
    TruncatingRemainderFacts(x, d, q);
    x - d * q as real
  }

  lemma MulNonneg(a: real, b: real)
    requires 0.0 <= a && 0.0 <= b
    ensures 0.0 <= a * b
  {
  }

  lemma MulPos(a: real, b: real)
    requires 0.0 < a && 0.0 < b
    ensures 0.0 < a * b
  {
  }

  lemma MulAbs(a: real, b: real)
    ensures Abs(a * b) == Abs(a) * Abs(b)
  {
    if a >= 0.0 && b >= 0.0 {
      MulNonneg(a, b);
    } else if a >= 0.0 {
      MulNonneg(a, -b);
    } else if b >= 0.0 {
      MulNonneg(-a, b);
    } else {
      MulNonneg(-a, -b);
    }
  }

  lemma MulAbsBelow(d: real, f: real)
    requires d != 0.0 && Abs(f) < 1.0
    ensures Abs(d * f) < Abs(d)
  {
    MulAbs(d, f);
    MulPos(Abs(d), 1.0 - Abs(f));
  }

  /** `d * f` has the sign of `x` when `f` has the sign of `x / d`. */
  lemma MulKeepsSign(x: real, d: real, f: real)
    requires d != 0.0
    requires 0.0 <= x / d ==> 0.0 <= f
    requires x / d <= 0.0 ==> f <= 0.0
    ensures 0.0 <= x ==> 0.0 <= d * f
    ensures x <= 0.0 ==> d * f <= 0.0
  {
    if d > 0.0 {
      if 0.0 <= x { MulNonneg(d, x / d); MulNonneg(d, f); }
      if x <= 0.0 { MulNonneg(d, -x / d); MulNonneg(d, -f); }
    } else {
      if 0.0 <= x { MulNonneg(-d, -x / d); MulNonneg(-d, -f); }
      if x <= 0.0 { MulNonneg(-d, x / d); MulNonneg(-d, f); }
    }
  }

  /** The part of `f` that truncation drops keeps the sign of `f`. */
  lemma TruncDropped(f: real, q: int)
    requires q == Trunc(f)
    ensures Abs(f - q as real) < 1.0
    ensures 0.0 <= f ==> 0.0 <= f - q as real
    ensures f <= 0.0 ==> f - q as real <= 0.0
  {
  }

  /** What truncation leaves over is `d` times the dropped fraction of `x / d`. */
  lemma LeftOverIsScaledFraction(x: real, d: real, q: int)
    requires d != 0.0
    ensures x - d * q as real == d * (x / d - q as real)
  {
    assert d * (x / d) == x;
  }

  lemma LeftOverBound(x: real, d: real, q: int)
    requires d != 0.0 && q == Trunc(x / d)
    ensures Abs(x - d * q as real) < Abs(d)
  {
    LeftOverIsScaledFraction(x, d, q);
    TruncDropped(x / d, q);
    MulAbsBelow(d, x / d - q as real);
  }

  lemma LeftOverSign(x: real, d: real, q: int)
    requires d != 0.0 && q == Trunc(x / d)
    ensures 0.0 <= x ==> 0.0 <= x - d * q as real
    ensures x <= 0.0 ==> x - d * q as real <= 0.0
  {
    LeftOverIsScaledFraction(x, d, q);
    TruncDropped(x / d, q);
    MulKeepsSign(x, d, x / d - q as real);
  }

  lemma LeftOverQuotient(x: real, d: real, q: int)
    requires d != 0.0
    ensures (x - (x - d * q as real)) / d == q as real
  {
    assert x - (x - d * q as real) == d * q as real;
  }

  lemma TruncatingRemainderFacts(x: real, d: real, q: int)
    requires d != 0.0 && q == Trunc(x / d)
    ensures Abs(x - d * q as real) < Abs(d)
    ensures 0.0 <= x ==> 0.0 <= x - d * q as real
    ensures x <= 0.0 ==> x - d * q as real <= 0.0
    ensures IsIntegral((x - (x - d * q as real)) / d)
  {
    LeftOverBound(x, d, q);
    LeftOverSign(x, d, q);
    LeftOverQuotient(x, d, q);
  }

  /** Int `a / b` in Swift: the exact quotient truncated toward zero, so
      its magnitude is the quotient of the magnitudes and its sign is the
      product of the signs (Dafny's `/` on `int` is Euclidean instead). */
  function Quot(a: int, b: int): (q: int)
    requires b != 0
    ensures AbsInt(q) == AbsInt(a) / AbsInt(b)
    ensures (0 <= a) == (0 < b) ==> 0 <= q
    ensures (0 <= a) != (0 < b) ==> q <= 0
  {
    var n: int, m: int := AbsInt(a), AbsInt(b);
    DivNonneg(n, m);
    if (0 <= a) == (0 < b) then n / m else -(n / m)
  }

  lemma DivNonneg(n: int, m: int)
    requires 0 <= n && 0 < m
    ensures 0 <= n / m
  {
  }

  lemma DivModSplit(n: int, m: int)
    requires 0 < m
    ensures n == m * (n / m) + n % m
  {
  }

  /** Int `a % b` in Swift: it takes the sign of the dividend `a` and is
      smaller than `b` in magnitude, unlike Dafny's `%`, which is never
      negative. */
  function Rem(a: int, b: int): (r: int)
    requires b != 0
    ensures AbsInt(r) < AbsInt(b)
    ensures 0 <= a ==> 0 <= r
    ensures a <= 0 ==> r <= 0
  {
    var n: int, m: int := AbsInt(a), AbsInt(b);
    if 0 <= a then n % m else -(n % m)
  }

  /** Swift's `/` and `%` on Int split the dividend exactly:
      `a == (a / b) * b + a % b`. */
  lemma {:induction false} QuotRemSplit(a: int, b: int)
    requires b != 0
    ensures a == Quot(a, b) * b + Rem(a, b)
  {
    var n: int, m: int := AbsInt(a), AbsInt(b);
    var q, r := n / m, n % m;
    DivModSplit(n, m);
    if 0 <= a && 0 < b {
      assert Quot(a, b) == q && Rem(a, b) == r;
    } else if 0 <= a {
      assert Quot(a, b) == -q && Rem(a, b) == r && b == -m;
      assert (-q) * (-m) == m * q;
    } else if 0 < b {
      assert Quot(a, b) == -q && Rem(a, b) == -r && a == -n;
      assert (-q) * m == -(m * q);
    } else {
      assert Quot(a, b) == q && Rem(a, b) == -r && a == -n && b == -m;
      assert q * (-m) == -(m * q);
    }
  }

  /** A multiple of `b` leaves no remainder. */
  lemma {:induction false} RemOfMultiple(b: int, n: int)
    requires b != 0
    ensures Rem(b * n, b) == 0
  {
    var k: int, m: int := AbsInt(b), AbsInt(n);
    assert AbsInt(b * n) == k * m by {
      if b < 0 && n < 0 { assert b * n == (-b) * (-n); }
      else if b < 0 { assert -(b * n) == (-b) * n; }
      else if n < 0 { assert -(b * n) == b * (-n); }
    }
    MultipleModulo(k, m);
  }

  lemma MultipleModulo(k: int, m: int)
    requires 0 < k
    ensures (k * m) % k == 0
  {
    var q, r := (k * m) / k, (k * m) % k;
    DivModSplit(k * m, k);
    assert k * (m - q) == r;
    if m - q >= 1 {
      MulAtLeast(k, m - q);
    } else if m - q <= -1 {
      MulAtLeast(k, q - m);
    }
  }

  lemma MulAtLeast(k: int, j: int)
    requires 0 < k && 1 <= j
    ensures k <= k * j
  {
    assert k * j == k + k * (j - 1);
  }
}

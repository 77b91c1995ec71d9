/** The width of the inner (filled) rectangle of the bar, in pixels. The
    source computes `380 * current / max` in C++ `int` arithmetic, adds 0.5
    and takes the floor. */
module Width {

  function Abs(x: int): (r: nat)
    ensures r == x || r == -x
  {
    if x < 0 then -x else x
  }

  /** C++ integer division: the quotient truncated toward zero. Dafny's own
      `/` is Euclidean, which differs for a negative dividend. */
  function TruncDiv(a: int, b: int): (q: int)
    requires b != 0
    ensures Abs(q) == Abs(a) / Abs(b)
    ensures q > 0 ==> (a < 0) == (b < 0)
    ensures q < 0 ==> (a < 0) != (b < 0)
  {
    var m: int := Abs(a) / Abs(b);
    assert m >= 0;
    if (a < 0) == (b < 0) then m else -m
  }

  /** The remainder `a - TruncDiv(a, b) * b` is smaller than the divisor in
      magnitude and never has the opposite sign to the dividend: the rule the
      C++ standard gives for `/` and `%` on integers. */
  lemma TruncDivRemainder(a: int, b: int)
    requires b != 0
    ensures Abs(a - TruncDiv(a, b) * b) < Abs(b)
    ensures a >= 0 ==> a - TruncDiv(a, b) * b >= 0
    ensures a <= 0 ==> a - TruncDiv(a, b) * b <= 0
  {
    var n, d := Abs(a), Abs(b);
    var m: int, r: int := n / d, n % d;
    assert n == m * d + r && 0 <= r < d;
    MagnitudeRemainder(a, b, TruncDiv(a, b), m, r);
  }

  /** The sign cases of TruncDivRemainder, given the quotient q whose
      magnitude is m and the Euclidean remainder r of the magnitudes. */
  lemma MagnitudeRemainder(a: int, b: int, q: int, m: int, r: int)
    requires b != 0 && 0 <= m && 0 <= r < Abs(b) && Abs(a) == m * Abs(b) + r
    requires q == (if (a < 0) == (b < 0) then m else -m)
    ensures Abs(a - q * b) < Abs(b)
    ensures a >= 0 ==> a - q * b >= 0
    ensures a <= 0 ==> a - q * b <= 0
  {
    if b > 0 {
      assert Abs(b) == b;
      if a >= 0 { assert a - q * b == r; } else { assert q * b == -(m * b); assert a - q * b == -r; }
    } else {
      assert Abs(b) == -b;
      if a >= 0 { assert q == -m; assert q * b == m * -b; assert a - q * b == r; } else { assert q == m; assert q * b == -(m * -b); assert a - q * b == -r; }
    }
  }

  /** `floor(380 * current / max + 0.5)`: adding one half to an integer
      quotient and flooring gives the quotient back, so the width is the
      truncated quotient. */
  function InnerWidth(current: int, max: int): (w: int)
    requires max != 0
    ensures w == TruncDiv(380 * current, max)
  {
    (TruncDiv(380 * current, max) as real + 0.5).Floor
  }

  /** The inner rectangle is drawn only for a positive width. */
  predicate DrawsInner(current: int, max: int)
    requires max != 0
  {
    InnerWidth(current, max) > 0
  }

  /** Multiplying by a non-negative factor keeps the order. */
  lemma MulMonotonic(x: int, y: int, z: int)
    requires x <= y && 0 <= z
    ensures x * z <= y * z
  {
    assert y * z - x * z == (y - x) * z;
  }

  /** A bar between empty and full has a width between 0 and the full 380. */
  lemma WidthInRange(current: int, max: int)
    requires 0 < max && 0 <= current <= max
    ensures 0 <= InnerWidth(current, max) <= 380
  {
    var q := InnerWidth(current, max);
    TruncDivRemainder(380 * current, max);
    MulMonotonic(current, max, 380);
    if q > 380 {
      MulMonotonic(381, q, max);
    } else if q < 0 {
      MulMonotonic(q, -1, max);
    }
  }

  /** With a positive maximum, the inner rectangle is drawn exactly when
      380 times the current reaches the maximum, i.e. when at least one whole
      pixel is filled. */
  lemma DrawnIff(current: int, max: int)
    requires 0 < max
    ensures DrawsInner(current, max) <==> 380 * current >= max
  {
    var q := InnerWidth(current, max);
    TruncDivRemainder(380 * current, max);
    if q >= 1 {
      MulMonotonic(1, q, max);
    } else {
      MulMonotonic(q, 0, max);
    }
  }

  /** The demo's bar: full, at its start value, and at -1 after depletion has
      run out, where the width is negative and nothing is drawn. */
  lemma DemoWidths()
    ensures InnerWidth(100, 100) == 380
    ensures InnerWidth(90, 100) == 342
    ensures InnerWidth(-1, 100) == -3 && !DrawsInner(-1, 100)
  {
  }
}

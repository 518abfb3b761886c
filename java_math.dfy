/**
 * Integer and floating-point conversions as the Java source performs them.
 * Dafny's `/` and `%` are Euclidean; Java's truncate toward zero, which
 * matters for the grid snapping of negative coordinates. Doubles are
 * modelled as exact reals.
 */
module JavaMath {

  /** Java's `a / b` on int: the quotient truncated toward zero. */
  function Div(a: int, b: int): (q: int)
    requires b != 0
    ensures a >= 0 && b > 0 ==> q == a / b
    ensures (a >= 0) == (b > 0) ==> q >= 0
  {
    if a >= 0 then (if b > 0 then a / b else -(a / -b))
    else (if b > 0 then -((-a) / b) else (-a) / (-b))
  }

  /** Java's `a % b` on int: the remainder takes the sign of the dividend. */
  function Rem(a: int, b: int): (r: int)
    requires b != 0
    ensures a == Div(a, b) * b + r
    ensures a >= 0 ==> 0 <= r < if b > 0 then b else -b
    ensures a < 0 ==> -(if b > 0 then b else -b) < r <= 0
  {
    if a >= 0 then (if b > 0 then a % b else a % -b)
    else (if b > 0 then -((-a) % b) else -((-a) % -b))
  }

  /** On a non-negative dividend and a positive divisor Java agrees with Dafny. */
  lemma RemNonNegative(a: int, b: int)
    requires a >= 0 && b > 0
    ensures Rem(a, b) == a % b
  {
  }

  /** `(int) Math.floor(v)` */
  function Floor(v: real): (r: int)
    ensures r as real <= v < r as real + 1.0
  {
    v.Floor
  }

  /** `(int) Math.ceil(v)` */
  function Ceil(v: real): (r: int)
    ensures r as real - 1.0 < v <= r as real
  {
    -((-v).Floor)
  }

  /** `(int) v`: a cast from double truncates toward zero. */
  function Trunc(v: real): (r: int)
    ensures v >= 0.0 ==> r == Floor(v)
    ensures v < 0.0 ==> r == Ceil(v)
  {
    if v >= 0.0 then Floor(v) else Ceil(v)
  }

  /** `Math.round(v)`: the nearest integer, halves rounded up. */
  function Round(v: real): (r: int)
    ensures v - 0.5 < r as real <= v + 0.5
  {
    Floor(v + 0.5)
  }

  /** BigDecimal's `setScale(0, ROUND_HALF_UP)`: the nearest integer, halves rounded away from zero. */
  function RoundHalfUp(v: real): (r: int)
    ensures v >= 0.0 ==> v - 0.5 < r as real <= v + 0.5
    ensures v < 0.0 ==> v - 0.5 <= r as real < v + 0.5
  {
    if v >= 0.0 then Floor(v + 0.5) else -Floor(-v + 0.5)
  }

  /** Floor and ceiling are odd with respect to each other: the identity that
      makes a shear by `-s` undo a shear by `s`. */
  lemma CeilNeg(v: real)
    ensures Ceil(-v) == -Floor(v)
    ensures Floor(-v) == -Ceil(v)
  {
  }

  lemma FloorMono(a: real, b: real)
    requires a <= b
    ensures Floor(a) <= Floor(b)
  {
  }

  lemma CeilMono(a: real, b: real)
    requires a <= b
    ensures Ceil(a) <= Ceil(b)
  {
  }

  /** Multiplying an ordered pair of integers by a real keeps or reverses the order. */
  lemma MulMono(a: int, b: int, s: real)
    requires a <= b
    ensures s >= 0.0 ==> a as real * s <= b as real * s
    ensures s < 0.0 ==> b as real * s <= a as real * s
  {
    var d := (b - a) as real;
    assert b as real * s - a as real * s == d * s;
    if s >= 0.0 {
      assert d * s >= 0.0;
    } else {
      assert d * s <= 0.0;
    }
  }

  /** Euclidean remainder of h + g*k is h when 0 <= h < g. */
  lemma LatticeMod(h: int, g: int, k: int)
    requires 0 <= h < g
    ensures (h + g * k) % g == h
  {
    var x := h + g * k;
    var q := x / g;
    var r := x % g;
    assert x == g * q + r;
    assert g * (k - q) == r - h;
    MultipleInWindow(g, k - q, r - h);
  }

  /** The only multiple of g strictly between -g and g is 0. */
  lemma MultipleInWindow(g: int, d: int, m: int)
    requires g > 0 && g * d == m && -g < m < g
    ensures d == 0
  {
  }
}

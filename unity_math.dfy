/**
 * The scalar helpers of Unity's Mathf that the host code relies on, and the
 * special values of single-precision floats where the host code branches on
 * them. Finite floats are exact reals: rounding is not modelled.
 */
module UnityMath {

  /** A single-precision value: finite, one of the two infinities, or NaN. */
  datatype Float = Finite(value: real) | PositiveInfinity | NegativeInfinity | NaN

  /** float.IsInfinity: true for both infinities and for nothing else (in particular not for NaN). */
  predicate IsInfinity(f: Float)
  {
    f.PositiveInfinity? || f.NegativeInfinity?
  }

  /**
   * The IEEE product of a finite factor c and f: finite exactly when f is,
   * NaN exactly when f is NaN or an infinity times zero.
   */
  function Mul(c: real, f: Float): (r: Float)
    ensures r.Finite? <==> f.Finite?
    ensures f.Finite? ==> r.value == c * f.value
    ensures r.NaN? <==> f.NaN? || (IsInfinity(f) && c == 0.0)
    ensures c > 0.0 ==> (r.PositiveInfinity? <==> f.PositiveInfinity?) && (r.NegativeInfinity? <==> f.NegativeInfinity?)
  {
    match f
    case Finite(x) => Finite(c * x)
    case NaN => NaN
    case PositiveInfinity =>
      if c > 0.0 then PositiveInfinity else if c < 0.0 then NegativeInfinity else NaN
    case NegativeInfinity =>
      if c > 0.0 then NegativeInfinity else if c < 0.0 then PositiveInfinity else NaN
  }

  /** The IEEE quotient a / n of a finite dividend by an integer count. */
  function Div(a: real, n: int): (r: Float)
    ensures n != 0 ==> r.Finite? && (n as real) * r.value == a
    ensures n == 0 ==> !r.Finite?
    ensures n == 0 && a > 0.0 ==> r == PositiveInfinity
    ensures n == 0 && a == 0.0 ==> r == NaN
  {
    if n != 0 then Finite(a / n as real)
    else if a > 0.0 then PositiveInfinity
    else if a < 0.0 then NegativeInfinity
    else NaN
  }

  /**
   * The IEEE quotient a / d of a finite dividend by a float (a zero divisor is
   * taken as +0): finite for a non-zero finite divisor and zero for an
   * infinite one; a zero divisor gives an infinity or NaN.
   */
  function FDiv(a: real, d: Float): (q: Float)
    ensures d.Finite? && d.value != 0.0 ==> q.Finite? && q.value * d.value == a
    ensures IsInfinity(d) ==> q == Finite(0.0)
    ensures d.NaN? || d == Finite(0.0) ==> !q.Finite?
    ensures d == Finite(0.0) && a > 0.0 ==> q == PositiveInfinity
    ensures d == Finite(0.0) && a == 0.0 ==> q == NaN
  {
    match d
    case Finite(x) => if x != 0.0 then Finite(a / x) else Div(a, 0)
    case NaN => NaN
    case _ => Finite(0.0)
  }

  /** The range of C#'s int. */
  const Int32Min: int := -0x8000_0000
  const Int32Max: int := 0x7FFF_FFFF
  const TwoTo32: int := 0x1_0000_0000

  predicate InInt32(k: int)
  {
    Int32Min <= k <= Int32Max
  }

  /**
   * Unchecked int arithmetic: the int32 value congruent to k modulo 2^32,
   * which is k itself when k is in range.
   */
  function Wrap32(k: int): (w: int)
    ensures InInt32(w)
    ensures (k - w) % TwoTo32 == 0
    ensures InInt32(k) ==> w == k
  {
    (k - Int32Min) % TwoTo32 + Int32Min
  }

  /** Values congruent modulo 2^32 wrap to the same int32. */
  lemma SameWrap(x: int, y: int)
    requires (x - y) % TwoTo32 == 0
    ensures Wrap32(x) == Wrap32(y)
  {
  }

  /** Wrapping an intermediate product changes nothing: (a * b) computed in int32 steps is Wrap32 of the exact product. */
  lemma Wrap32Mul(a: int, b: int)
    ensures Wrap32(Wrap32(a) * b) == Wrap32(a * b)
  {
    var w := Wrap32(a);
    var q := (a - w) / TwoTo32;
    assert a - w == q * TwoTo32;
    assert a * b - w * b == (q * b) * TwoTo32;
    SameWrap(a * b, w * b);
  }

  /**
   * (int)Math.Ceiling(f), which is what Mathf.CeilToInt does with a float: the
   * ceiling when it is an int32. C# leaves the conversion of an infinity, NaN
   * or an out-of-range value unspecified; the platform's result is the
   * parameter unspecified (int.MinValue on x86-64).
   */
  function CeilToInt32(f: Float, unspecified: int): (k: int)
    requires InInt32(unspecified)
    ensures InInt32(k)
    ensures f.Finite? && InInt32(CeilToInt(f.value)) ==> k as real >= f.value && (k - 1) as real < f.value
    ensures !f.Finite? || !InInt32(CeilToInt(f.value)) ==> k == unspecified
  {
    if f.Finite? && InInt32(CeilToInt(f.value)) then CeilToInt(f.value) else unspecified
  }

  /** Mathf.CeilToInt: the least integer not below r. */
  function CeilToInt(r: real): (k: int)
    ensures k as real >= r
    ensures (k - 1) as real < r
  {
    -((-r).Floor)
  }

  /** Mathf.FloorToInt: the greatest integer not above r. */
  function FloorToInt(r: real): (k: int)
    ensures k as real <= r < (k + 1) as real
  {
    r.Floor
  }

  /** Mathf.RoundToInt, which rounds to the nearest integer and breaks ties towards the even one. */
  function RoundToInt(r: real): (k: int)
    ensures k as real - r <= 0.5 && r - k as real <= 0.5
    ensures (k as real - r == 0.5 || r - k as real == 0.5) ==> k % 2 == 0
  {
    var f := r.Floor;
    var frac := r - f as real;
    if frac < 0.5 then f
    else if frac > 0.5 then f + 1
    else if f % 2 == 0 then f
    else f + 1
  }

  /** Mathf.Clamp01: r limited to [0, 1]. */
  function Clamp01(r: real): (c: real)
    ensures 0.0 <= c <= 1.0
    ensures 0.0 <= r <= 1.0 ==> c == r
  {
    if r < 0.0 then 0.0 else if r > 1.0 then 1.0 else r
  }

  /** Mathf.Max on two values. */
  function Max(a: real, b: real): (m: real)
    ensures m >= a && m >= b
    ensures m == a || m == b
  {
    if a >= b then a else b
  }

  /** A lower bound for the integer part of a quotient of reals scaled by a positive factor. */
  lemma {:induction false} CeilTimesCovers(d: real, l: real, k: int)
    requires l > 0.0
    requires k == CeilToInt(d / l)
    ensures k as real * l >= d
    ensures (k - 1) as real * l < d
  {
    var q := d / l;
    assert q * l == d;
    assert k as real >= q;
    assert (k as real - q) * l >= 0.0;
    assert (k - 1) as real < q;
    assert (q - (k - 1) as real) * l > 0.0;
  }
}

/**
 * Numbers as the loan engine uses them, idealised: a JavaScript double is a
 * `real`, and the two infinities the engine can produce are explicit.
 */
module Numbers {

  /** A number that may have overflowed to an infinity. */
  datatype Extended = Finite(value: real) | PosInf | NegInf

  function Min(a: real, b: real): (m: real)
    ensures m <= a && m <= b && (m == a || m == b)
  {
    if a <= b then a else b
  }

  function Max(a: real, b: real): (m: real)
    ensures m >= a && m >= b && (m == a || m == b)
  {
    if a >= b then a else b
  }

  function Abs(x: real): (a: real)
    ensures a >= 0.0 && (a == x || a == -x)
  {
    if x >= 0.0 then x else -x
  }

  /** `Math.pow(x, n)` for a whole exponent. */
  function Pow(x: real, n: nat): real
  {
    if n == 0 then 1.0 else x * Pow(x, n - 1)
  }

  /** `Math.round`: the nearest integer, a half rounded up. */
  function Round(x: real): (k: int)
    ensures x - 0.5 < k as real <= x + 0.5
  {
    (x + 0.5).Floor
  }

  /** Truncation toward zero. */
  function Trunc(x: real): (k: int)
    ensures Abs(k as real) <= Abs(x) < Abs(k as real) + 1.0
    ensures x >= 0.0 ==> k >= 0
    ensures x <= 0.0 ==> k <= 0
  {
    if x >= 0.0 then x.Floor else -((-x).Floor)
  }

  /** JavaScript `a % b`: the remainder of truncated division, with the sign of `a`. */
  function Rem(a: real, b: real): real
    requires b != 0.0
  {
    a - b * Trunc(a / b) as real
  }

  /** JavaScript `a % b` on whole numbers: truncated division, so the remainder
      takes the sign of `a` and differs from `a` by a multiple of `b`. */
  function JsRem(a: int, b: int): (r: int)
    requires b > 0
    ensures (a - r) % b == 0
    ensures a >= 0 ==> 0 <= r < b
    ensures a < 0 ==> -b < r <= 0
  {
    var m := if a >= 0 then a else -a;
    RemainderLeavesMultiple(m, b);
    if a >= 0 then m % b else -(m % b)
  }

  /** Taking the remainder off, or adding it to the negation, leaves a multiple of `b`. */
  lemma RemainderLeavesMultiple(m: int, b: int)
    requires m >= 0 && b > 0
    ensures (m - m % b) % b == 0
    ensures (-m + m % b) % b == 0
  {
    var q := m / b;
    assert m - m % b == q * b;
    assert -m + m % b == (-q) * b;
    MultipleMod(q, b);
    MultipleMod(-q, b);
  }

  /** A multiple of `b` leaves no remainder. */
  lemma MultipleMod(k: int, b: int)
    requires b > 0
    ensures (k * b) % b == 0
  {
    var d := (k * b) / b;
    var r := (k * b) % b;
    assert (k - d) * b == r;
    if k - d >= 1 {
      ProductAtLeast(k - d, b);
      assert false;
    } else if k - d <= -1 {
      ProductAtLeast(d - k, b);
      assert false;
    }
  }

  lemma ProductAtLeast(y: int, b: int)
    requires y >= 1 && b > 0
    ensures y * b >= b && (-y) * b <= -b
  {
  }

  /** Between `q * b` and `q * b + b` the quotient by `b` is between `q` and `q + 1`. */
  lemma QuotientBetween(m: real, b: real, q: real)
    requires b > 0.0 && q * b <= m < q * b + b
    ensures q <= m / b < q + 1.0
  {
    var x := m / b;
    assert x * b == m;
    assert (x - q) * b == m - q * b;
    assert (q + 1.0 - x) * b == q * b + b - m;
    PositiveFactor(x - q, b);
    PositiveFactor(q + 1.0 - x, b);
  }

  /** A product with a positive factor has the sign of the other factor. */
  lemma PositiveFactor(y: real, b: real)
    requires b > 0.0
    ensures y * b >= 0.0 ==> y >= 0.0
    ensures y * b > 0.0 ==> y > 0.0
  {
  }

  /** On whole numbers the remainder of reals and of integers agree. */
  lemma RemOfIntegers(a: int, b: int)
    requires b > 0
    ensures Rem(a as real, b as real) == JsRem(a, b) as real
  {
    var q := if a >= 0 then a / b else -((-a) / b);
    TruncOfQuotient(a, b);
    assert JsRem(a, b) == a - b * q;
    CastProduct(b, q);
  }

  lemma CastProduct(x: int, y: int)
    ensures (x * y) as real == x as real * y as real
  {
  }

  /** Truncating the real quotient of whole numbers is the integer quotient
      of their magnitudes, with the sign of the dividend. */
  lemma TruncOfQuotient(a: int, b: int)
    requires b > 0
    ensures Trunc(a as real / b as real) == if a >= 0 then a / b else -((-a) / b)
  {
    if a >= 0 {
      FloorOfQuotient(a, b);
    } else {
      FloorOfQuotient(-a, b);
      assert a as real / b as real == -((-a) as real / b as real);
    }
  }

  /** The floor of the real quotient of non-negative whole numbers is their integer quotient. */
  lemma FloorOfQuotient(m: int, b: int)
    requires m >= 0 && b > 0
    ensures (m as real / b as real).Floor == m / b
  {
    var q := m / b;
    assert m == q * b + m % b && 0 <= m % b < b;
    CastProduct(q, b);
    QuotientBetween(m as real, b as real, q as real);
  }

  /** A whole number of cents. */
  predicate IsCents(y: real) {
    (y * 100.0).Floor as real == y * 100.0
  }

  /** `Math.round(x * 100) / 100`: to the nearest cent, half a cent rounded up. */
  function Round2(x: real): (y: real)
    ensures IsCents(y)
    ensures x - 0.005 < y <= x + 0.005
  {
    var k := Round(x * 100.0);
    assert (k as real / 100.0) * 100.0 == k as real;
    k as real / 100.0
  }

  /** `y` is `x` to the nearest cent: a whole number of cents within half a cent. */
  predicate RoundsTo(y: real, x: real) {
    IsCents(y) && x - 0.005 < y <= x + 0.005
  }

  /** `y` is `e` to the nearest cent, finite exactly when `e` is; infinities are kept. */
  predicate RoundsToExt(y: Extended, e: Extended) {
    if e.Finite? then y.Finite? && RoundsTo(y.value, e.value) else y == e
  }

  /** `Math.round(x * 100) / 100` on a number that may be infinite (infinities are kept). */
  function Round2Ext(e: Extended): (r: Extended)
    ensures RoundsToExt(r, e)
  {
    match e
    case Finite(x) => Finite(Round2(x))
    case _ => e
  }

  /** `a - e` for a finite `a`. */
  function Minus(a: real, e: Extended): (r: Extended)
    ensures e.Finite? ==> r == Finite(a - e.value)
    ensures e == PosInf ==> r == NegInf
    ensures e == NegInf ==> r == PosInf
  {
    match e
    case Finite(x) => Finite(a - x)
    case PosInf => NegInf
    case NegInf => PosInf
  }

  /** The half-open interval `(x - 0.005, x + 0.005]` holds exactly one whole number
      of cents, and `Round2` picks it. */
  lemma Round2Unique(x: real, y: real)
    requires IsCents(y)
    requires x - 0.005 < y <= x + 0.005
    ensures y == Round2(x)
  {
    var z := Round2(x);
    var a := (y * 100.0).Floor;
    var b := (z * 100.0).Floor;
    assert (a - b) as real == y * 100.0 - z * 100.0;
    assert -1.0 < (a - b) as real < 1.0;
  }

  /** Rounding to cents twice is rounding once. */
  lemma Round2Idempotent(x: real)
    ensures Round2(Round2(x)) == Round2(x)
  {
    Round2Unique(Round2(x), Round2(x));
  }

  /** Rounding to cents keeps a non-negative amount non-negative. */
  lemma Round2NonNegative(x: real)
    requires x >= 0.0
    ensures Round2(x) >= 0.0
  {
    var y := Round2(x);
    var a := (y * 100.0).Floor;
    assert a as real > -0.5;
  }

  lemma {:induction false} PowAbs(x: real, n: nat)
    ensures Abs(Pow(x, n)) == Pow(Abs(x), n)
  {
    if n > 0 {
      PowAbs(x, n - 1);
      assert Abs(x * Pow(x, n - 1)) == Abs(x) * Abs(Pow(x, n - 1));
    }
  }

  lemma {:induction false} PowNonNegative(x: real, n: nat)
    requires x >= 0.0
    ensures Pow(x, n) >= 0.0
  {
    if n > 0 {
      PowNonNegative(x, n - 1);
    }
  }

  /** A base above one raised to a positive power stays above one. */
  lemma {:induction false} PowAboveOne(x: real, n: nat)
    requires x > 1.0 && n >= 1
    ensures Pow(x, n) > 1.0
  {
    if n > 1 {
      PowAboveOne(x, n - 1);
      assert x * Pow(x, n - 1) > 1.0 * Pow(x, n - 1);
    }
  }

  /** A non-negative base below one raised to a positive power stays below one. */
  lemma {:induction false} PowBelowOne(x: real, n: nat)
    requires 0.0 <= x < 1.0 && n >= 1
    ensures Pow(x, n) < 1.0
  {
    if n > 1 {
      PowBelowOne(x, n - 1);
      PowNonNegative(x, n - 1);
      assert x * Pow(x, n - 1) <= 1.0 * Pow(x, n - 1);
    }
  }

  lemma {:induction false} PowMinusOne(n: nat)
    ensures Pow(-1.0, n) == if n % 2 == 0 then 1.0 else -1.0
  {
    if n > 0 {
      PowMinusOne(n - 1);
    }
  }

  /** A positive power is one only for the bases 1 and, at an even power, -1. */
  lemma PowIsOne(x: real, n: nat)
    requires n >= 1
    ensures Pow(x, n) == 1.0 <==> x == 1.0 || (x == -1.0 && n % 2 == 0)
  {
    PowAbs(x, n);
    PowMinusOne(n);
    if Abs(x) > 1.0 {
      PowAboveOne(Abs(x), n);
    } else if Abs(x) < 1.0 {
      PowBelowOne(Abs(x), n);
    } else if x == 1.0 {
      assert Pow(x, n) == 1.0 by {
        PowOne(n);
      }
    }
  }

  lemma {:induction false} PowOne(n: nat)
    ensures Pow(1.0, n) == 1.0
  {
    if n > 0 {
      PowOne(n - 1);
    }
  }
}

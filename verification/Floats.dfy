/** Double arithmetic: real arithmetic with the result rounded to a nearest double. */
module Floats {
  import opened Pow5s
  import opened Decimals

  const TWO_53: int := 9007199254740992
  const TWO_52: int := 4503599627370496
  /** 2^-53, the relative error of one rounding. */
  const H: real := 1.0 / 9007199254740992.0

  ghost function Float(m: int, e: int): real {
    m as real * RPow(2, e)
  }

  /** A double, normal or not; there is no greatest one. */
  ghost predicate IsDouble(x: real) {
    exists m: int, e: int :: -TWO_53 < m < TWO_53 && e >= -1074 && x == Float(m, e)
  }

  /** The result of an operation is a double that none is nearer to; ties are decided somehow. */
  ghost predicate Rounds(fl: real -> real) {
    forall x: real {:trigger fl(x)} :: IsDouble(fl(x)) && Closest(fl(x), x)
  }

  ghost predicate Closest(d: real, x: real) {
    forall y: real {:trigger IsDouble(y)} :: IsDouble(y) ==> Abs(d - x) <= Abs(y - x)
  }

  /** A product and a quotient in double arithmetic. */
  function Mul(fl: real -> real, a: real, b: real): real {
    fl(a * b)
  }

  function Div(fl: real -> real, a: real, b: real): real
    requires b != 0.0
  {
    fl(a / b)
  }

  lemma MulIs(fl: real -> real, a: real, b: real, z: real)
    requires z == a * b
    ensures Mul(fl, a, b) == fl(z)
  {
  }

  lemma RoundsTo(fl: real -> real, x: real, y: real)
    requires Rounds(fl) && IsDouble(y)
    ensures IsDouble(fl(x)) && Abs(fl(x) - x) <= Abs(y - x)
  {
    hide IsDouble;
  }

  lemma IsRounded(fl: real -> real, x: real)
    requires Rounds(fl)
    ensures IsDouble(fl(x))
  {
    hide IsDouble;
  }

  lemma ExactFloat(fl: real -> real, x: real)
    requires Rounds(fl) && IsDouble(x)
    ensures fl(x) == x
  {
    hide IsDouble, Rounds;
    RoundsTo(fl, x, x);
  }

  lemma MonoFloat(fl: real -> real, x: real, y: real)
    requires Rounds(fl) && x <= y
    ensures fl(x) <= fl(y)
  {
    hide IsDouble, Rounds;
    IsRounded(fl, x);
    IsRounded(fl, y);
    RoundsTo(fl, x, fl(y));
    RoundsTo(fl, y, fl(x));
  }

  lemma ZeroIsDouble()
    ensures IsDouble(0.0)
  {
    assert Float(0, 0) == 0.0;
  }

  lemma NegateDouble(x: real)
    requires IsDouble(x)
    ensures IsDouble(-x)
  {
    hide RPow;
    var m: int, e: int :| -TWO_53 < m < TWO_53 && e >= -1074 && x == Float(m, e);
    assert Float(-m, e) == -x;
  }

  // ---- The error of a rounding ----

  /** 2^-1022, the least normal double. */
  ghost function Least(): (r: real)
    ensures r > 0.0
  {
    TWO_52 as real * RPow(2, -1074)
  }

  lemma PowersOfTwo()
    ensures Pow(2, 53) == TWO_53 && Pow(2, 52) == TWO_52 && RPow(2, -53) == H && RPow(2, -52) == 2.0 * H
  {
    hide Pow, RPow;
    assert Pow(2, 4) == 16 by { PowNext(2, 3); PowNext(2, 2); PowNext(2, 1); PowNext(2, 0); }
    PowAdd(2, 4, 4);
    PowAdd(2, 8, 8);
    PowAdd(2, 16, 16);
    PowAdd(2, 32, 16);
    PowAdd(2, 48, 4);
    PowNext(2, 52);
    RPowAdd(2, 53, -53);
    RPowIs(2, 53);
    RPowZero(2);
    RPowNext(2, -53);
  }

  lemma LeastIsTiny()
    ensures Least() <= H * H && IsDouble(Least())
  {
    hide RPow, Pow;
    PowersOfTwo();
    RPowAdd(2, -53, -53);
    RPowAdd(2, -106, -53);
    RPowMono(2, -1074, -159);
    assert Float(TWO_52, -1074) == Least();
  }

  /** The exponent of a normal number. */
  lemma {:induction false} UnitOf(x: real, e: int) returns (e': int)
    requires x >= TWO_52 as real * RPow(2, e)
    ensures e' >= e && TWO_52 as real * RPow(2, e') <= x < TWO_53 as real * RPow(2, e')
    decreases (x / RPow(2, e)).Floor
  {
    hide RPow;
    e' := e;
    if x >= TWO_53 as real * RPow(2, e) {
      RPowNext(2, e);
      HalvesFloor(x, RPow(2, e), RPow(2, e + 1));
      e' := UnitOf(x, e + 1);
    }
  }

  lemma HalvesFloor(x: real, p: real, q: real)
    requires p > 0.0 && q == 2.0 * p && x >= p * 9007199254740992.0
    ensures 0 <= (x / q).Floor < (x / p).Floor
  {
    assert x / p == 2.0 * (x / q);
    Scaled(9007199254740992.0, x / p, p);
  }

  /** A double near x. */
  lemma NearDouble(x: real) returns (d: real)
    requires x >= Least()
    ensures IsDouble(d) && Abs(d - x) <= H * x
  {
    hide RPow;
    var e := UnitOf(x, -1074);
    var p := RPow(2, e);
    var m := (x / p + 0.5).Floor;
    d := Float(m, e);
    NearestMultiple(x, p, m);
    if m == TWO_53 {
      RPowNext(2, e);
      assert Float(TWO_52, e + 1) == d;
    }
  }

  lemma NearestMultiple(x: real, p: real, m: int)
    requires p > 0.0 && TWO_52 as real * p <= x < TWO_53 as real * p && m == (x / p + 0.5).Floor
    ensures TWO_52 <= m <= TWO_53 && Abs(m as real * p - x) <= H * x
  {
    var z := x / p;
    Quotient(TWO_52 as real, x, TWO_53 as real, p);
    HalfAway(m, z);
    WithinHalf(m as real, z, p, m as real * p, x);
    HalfOfUnit(x, p, m as real * p);
  }

  lemma HalfOfUnit(x: real, p: real, y: real)
    requires p > 0.0 && TWO_52 as real * p <= x && -0.5 * p <= y - x <= 0.5 * p
    ensures Abs(y - x) <= H * x
  {
  }

  lemma HalfAway(m: int, z: real)
    requires TWO_52 as real <= z < TWO_53 as real && m == (z + 0.5).Floor
    ensures TWO_52 <= m <= TWO_53 && -0.5 <= m as real - z <= 0.5
  {
  }

  lemma Quotient(lo: real, x: real, hi: real, p: real)
    requires p > 0.0 && lo * p <= x < hi * p
    ensures lo <= x / p < hi && x / p * p == x
  {
    Scaled(lo, x / p, p);
    Scaled(x / p, hi, p);
  }

  lemma WithinHalf(m: real, z: real, p: real, y: real, x: real)
    requires p > 0.0 && -0.5 <= m - z <= 0.5 && y == m * p && x == z * p
    ensures -0.5 * p <= y - x <= 0.5 * p
  {
    Difference(m, z, m - z, p);
    HalfOf(m - z, p, y - x);
  }

  lemma HalfOf(d: real, p: real, r: real)
    requires p > 0.0 && -0.5 <= d <= 0.5 && r == d * p
    ensures -0.5 * p <= r <= 0.5 * p
  {
    NotNegative(0.5 - d, p);
    NotNegative(d + 0.5, p);
    assert (d + 0.5) * p == r + 0.5 * p;
  }

  lemma NotNegative(a: real, b: real)
    requires a >= 0.0 && b >= 0.0
    ensures a * b >= 0.0
  {
  }

  lemma Difference(m: real, z: real, d: real, p: real)
    requires d == m - z
    ensures m * p - z * p == d * p
  {
  }

  lemma ScaledBelow(a: real, b: real, c: real)
    requires a <= b && c > 0.0
    ensures a * c <= b * c
  {
    Scaled(a, b, c);
  }

  /** The error of a rounding: relative, but for numbers that are not normal. */
  lemma NearFloat(fl: real -> real, x: real)
    requires Rounds(fl)
    ensures Abs(fl(x) - x) <= H * Abs(x) + H * H && (Abs(x) >= Least() ==> Abs(fl(x) - x) <= H * Abs(x))
  {
    hide IsDouble, Rounds, Least;
    LeastIsTiny();
    if Abs(x) >= Least() {
      var d := NearDouble(Abs(x));
      NegateDouble(d);
      RoundsTo(fl, x, if x < 0.0 then -d else d);
    } else {
      ZeroIsDouble();
      RoundsTo(fl, x, 0.0);
    }
  }

  // ---- Which numbers are doubles ----

  lemma SmallIsDouble(n: int)
    requires -TWO_53 < n < TWO_53
    ensures IsDouble(n as real)
  {
    RPowZero(2);
    assert Float(n, 0) == n as real;
  }

  /** m * 2^e for any m in range of a finer unit. */
  lemma FinerUnit(m: int, e: int, f: int) returns (c: int)
    requires e >= f
    ensures c as real * RPow(2, f) == m as real * RPow(2, e)
  {
    hide RPow, Pow;
    c := m * Pow(2, e - f);
    RPowIs(2, e - f);
    RPowAdd(2, e - f, f);
    ProductReal(m, Pow(2, e - f));
    RegroupThree(m as real, Pow(2, e - f) as real, RPow(2, f));
  }

  /** An integer multiple of a double has a relative error even if it is not normal: then it is exact. */
  lemma MultipleFloat(fl: real -> real, x: real, c: real, z: real)
    requires Rounds(fl) && IsDouble(x) && x > 0.0 && c >= 1.0 && c.Floor as real == c && z == x * c
    ensures z > 0.0 && Abs(fl(z) - z) <= H * z
  {
    hide RPow, Rounds;
    PositiveProduct(x, c);
    if z >= Least() {
      NearFloat(fl, z);
    } else {
      var m: int, e: int :| -TWO_53 < m < TWO_53 && e >= -1074 && x == Float(m, e);
      var n := FinerUnit(m, e, -1074);
      var p := RPow(2, -1074);
      MultipleOfUnit(n, c.Floor, c, p, x, z);
      assert z == Float(n * c.Floor, -1074);
      ExactFloat(fl, z);
    }
  }

  lemma MultipleOfUnit(n: int, k: int, c: real, p: real, x: real, z: real)
    requires p > 0.0 && x == n as real * p && c == k as real && z == x * c && 0.0 < z < TWO_52 as real * p
    ensures z == (n * k) as real * p && -TWO_53 < n * k < TWO_53
  {
    ProductReal(n, k);
    RegroupReal(c, n as real, p);
    RegroupThree(n as real, c, p);
    Scaled((n * k) as real, TWO_52 as real, p);
    Scaled(0.0, (n * k) as real, p);
  }

  /** Large doubles are integers. */
  lemma LargeIsInteger(x: real)
    requires IsDouble(x) && x >= TWO_53 as real
    ensures x.Floor as real == x
  {
    hide RPow, Pow;
    var m: int, e: int :| -TWO_53 < m < TWO_53 && e >= -1074 && x == Float(m, e);
    if e < 0 {
      RPowMono(2, e, 0);
      RPowZero(2);
      AtMost(m, RPow(2, e));
      assert false;
    }
    RPowIs(2, e);
    ProductReal(m, Pow(2, e));
    assert x == (m * Pow(2, e)) as real;
  }

  lemma AtMost(m: int, r: real)
    requires 0.0 < r <= 1.0
    ensures m as real * r <= if m > 0 then m as real else 0.0
  {
    if m > 0 {
      Scaled(r, 1.0, m as real);
    } else {
      Scaled(m as real, 0.0, r);
    }
  }

  /** The fraction of a double is a double. */
  lemma FractionIsDouble(x: real)
    requires IsDouble(x) && x >= 0.0
    ensures IsDouble(x - x.Floor as real)
  {
    hide RPow, Pow;
    var m: int, e: int :| -TWO_53 < m < TWO_53 && e >= -1074 && x == Float(m, e);
    if e >= 0 {
      RPowIs(2, e);
      ProductReal(m, Pow(2, e));
      assert x == (m * Pow(2, e)) as real;
      ZeroIsDouble();
    } else {
      var n := FinerUnit(x.Floor, 0, e);
      RPowZero(2);
      var p := RPow(2, e);
      assert x - x.Floor as real == (m - n) as real * p;
      Scaled(0.0, n as real, p);
      Scaled(0.0, (m - n) as real, p);
      assert Float(m - n, e) == x - x.Floor as real;
    }
  }

  /** Doubles are apart by at least one part in 2^53 of the greater. */
  lemma DoublesApart(x: real, y: real)
    requires IsDouble(x) && IsDouble(y) && 0.0 <= x < y
    ensures y - x >= H * y
  {
    hide RPow, Pow;
    var m: int, e: int :| -TWO_53 < m < TWO_53 && e >= -1074 && x == Float(m, e);
    var m': int, e': int :| -TWO_53 < m' < TWO_53 && e' >= -1074 && y == Float(m', e');
    if e >= e' {
      var c := FinerUnit(m, e, e');
      UnitApart(c, m', RPow(2, e'), x, y);
    } else {
      var c := FinerUnit(m', e', e);
      UnitApart(m, c, RPow(2, e), x, y);
    }
  }

  lemma UnitApart(c: int, d: int, p: real, x: real, y: real)
    requires p > 0.0 && x == c as real * p && y == d as real * p && 0.0 <= x < y && (c < TWO_53 || d < TWO_53)
    ensures y - x >= H * y
  {
    Scaled(c as real, d as real, p);
    Scaled(0.0, c as real, p);
    Scaled(d as real, c as real, p);
    assert c < d && c >= 0;
    PartOf(c, d);
    Difference(d as real, c as real, (d - c) as real, p);
    PartTimes((d - c) as real, d as real, p, y - x, y);
  }

  lemma PartTimes(r: real, s: real, p: real, diff: real, y: real)
    requires p > 0.0 && r >= H * s && diff == r * p && y == s * p
    ensures diff >= H * y
  {
    ScaledBelow(H * s, r, p);
    RegroupThree(H, s, p);
  }

  lemma PartOf(c: int, d: int)
    requires 0 <= c < d && c < TWO_53
    ensures (d - c) as real >= H * d as real
  {
  }

  // ---- There is such an arithmetic ----

  /** The multiple of the unit p that is nearest to x. */
  ghost function Multiples(x: real, p: real): int
    requires p > 0.0
  {
    (x / p + 0.5).Floor
  }

  lemma NearestOfUnit(x: real, p: real, d: real, c: int, y: real)
    requires p > 0.0 && d == Multiples(x, p) as real * p && y == c as real * p
    ensures Abs(d - x) <= Abs(y - x)
  {
    var z, m := x / p, Multiples(x, p);
    NearestInteger(z, m, c);
    ComparedTo(m as real, c as real, z, p, d, y, x);
  }

  lemma ComparedTo(m: real, c: real, z: real, p: real, y: real, w: real, x: real)
    requires p > 0.0 && y == m * p && w == c * p && x == z * p && Abs(m - z) <= Abs(c - z)
    ensures Abs(y - x) <= Abs(w - x)
  {
    Difference(m, z, m - z, p);
    Difference(c, z, c - z, p);
    Compared(m - z, c - z, p, y - x, w - x);
  }

  /** Distances compare as before when both are multiplied. */
  lemma Compared(a: real, b: real, p: real, y: real, w: real)
    requires p > 0.0 && Abs(a) <= Abs(b) && y == a * p && w == b * p
    ensures Abs(y) <= Abs(w)
  {
    AbsProduct(a, p, y);
    AbsProduct(b, p, w);
    ScaledBelow(Abs(a), Abs(b), p);
  }

  lemma AbsProduct(a: real, p: real, y: real)
    requires p > 0.0 && (y == a * p || y == -(a * p))
    ensures Abs(y) == Abs(a) * p
  {
    if a >= 0.0 {
      NotNegative(a, p);
    } else {
      NotNegative(-a, p);
      assert (-a) * p == -(a * p);
    }
  }

  lemma NearestInteger(z: real, m: int, c: int)
    requires m == (z + 0.5).Floor
    ensures Abs(m as real - z) <= Abs(c as real - z)
  {
    if c < m {
      assert c as real <= m as real - 1.0;
    } else if c > m {
      assert c as real >= m as real + 1.0;
    }
  }

  /** The unit at x, and the double that is nearest to x. */
  lemma NearestAt(x: real, e: int)
    requires x >= 0.0 && e >= -1074 && x < TWO_53 as real * RPow(2, e) && (e == -1074 || x >= TWO_52 as real * RPow(2, e))
    ensures var d := Multiples(x, RPow(2, e)) as real * RPow(2, e); IsDouble(d) && Closest(d, x)
  {
    hide RPow;
    var p := RPow(2, e);
    var m := Multiples(x, p);
    var d := m as real * p;
    InRange(x, p, m);
    if m == TWO_53 {
      RPowNext(2, e);
      assert Float(TWO_52, e + 1) == d;
    } else {
      assert Float(m, e) == d;
    }
    forall y: real | IsDouble(y) ensures Abs(d - x) <= Abs(y - x) {
      NoNearer(x, e, d, y);
    }
  }

  lemma InRange(x: real, p: real, m: int)
    requires p > 0.0 && 0.0 <= x < TWO_53 as real * p && m == Multiples(x, p)
    ensures 0 <= m <= TWO_53
  {
    Quotient(0.0, x, TWO_53 as real, p);
  }

  lemma NoNearer(x: real, e: int, d: real, y: real)
    requires d == Multiples(x, RPow(2, e)) as real * RPow(2, e) && x >= 0.0 && e >= -1074 && (e == -1074 || x >= TWO_52 as real * RPow(2, e)) && IsDouble(y)
    ensures Abs(d - x) <= Abs(y - x)
  {
    hide RPow, Multiples, Pow;
    var p := RPow(2, e);
    var m: int, f: int :| -TWO_53 < m < TWO_53 && f >= -1074 && y == Float(m, f);
    if f >= e {
      var c := FinerUnit(m, f, e);
      NearestOfUnit(x, p, d, c, y);
    } else {
      RPowMono(2, f, e - 1);
      RPowNext(2, e - 1);
      BelowUnit(m, RPow(2, f), RPow(2, e - 1), y);
      NearestOfUnit(x, p, d, TWO_52, TWO_52 as real * p);
      Farther(y, TWO_52 as real * p, x);
    }
  }

  lemma Farther(y: real, w: real, x: real)
    requires y <= w <= x
    ensures Abs(w - x) <= Abs(y - x)
  {
  }

  lemma BelowUnit(m: int, q: real, h: real, y: real)
    requires m < TWO_53 && 0.0 < q <= h && y == m as real * q
    ensures y <= TWO_52 as real * (2.0 * h)
  {
    ScaledBelow(m as real, TWO_53 as real, q);
    ScaledBelow(q, h, TWO_53 as real);
  }

  lemma NearestExists(x: real) returns (d: real)
    ensures IsDouble(d) && Closest(d, x)
    decreases x < 0.0
  {
    hide RPow, Multiples;
    if x < 0.0 {
      d := NearestExists(-x);
      NegateDouble(d);
      d := -d;
      forall y: real | IsDouble(y) ensures Abs(d - x) <= Abs(y - x) {
        NegateDouble(y);
        assert IsDouble(-y);
      }
    } else {
      var e := -1074;
      if x >= TWO_53 as real * RPow(2, e) {
        e := UnitOf(x, e);
      }
      NearestAt(x, e);
      d := Multiples(x, RPow(2, e)) as real * RPow(2, e);
    }
  }

  lemma SomeNearest(x: real)
    ensures exists d: real :: IsDouble(d) && Closest(d, x)
  {
    var d := NearestExists(x);
  }

  ghost function Nearest(x: real): (d: real)
    ensures IsDouble(d) && Closest(d, x)
  {
    SomeNearest(x);
    var d: real :| IsDouble(d) && Closest(d, x);
    d
  }

  lemma RoundingExists()
    ensures exists fl: real -> real :: Rounds(fl)
  {
    hide IsDouble, Closest;
    var fl: real -> real := x => Nearest(x);
    assert Rounds(fl);
  }
}

/** Scaling a double by a power of ten in double arithmetic, with the errors counted. */
module Scaling {
  import opened BigWords
  import opened Pow5s
  import opened Decimals
  import opened Floats

  // ---- Counting roundings ----

  /** 1 / (1 - 2^-53), to the power n. */
  ghost function Drift(n: nat): (q: real)
    ensures q >= 1.0
  {
    if n == 0 then 1.0 else Drift(n - 1) * (9007199254740992.0 / 9007199254740991.0)
  }

  lemma {:induction false} DriftAdd(m: nat, n: nat)
    ensures Drift(m + n) == Drift(m) * Drift(n)
    decreases n
  {
    if n > 0 {
      DriftAdd(m, n - 1);
      assert Drift(m) * Drift(n - 1) * (9007199254740992.0 / 9007199254740991.0)
          == Drift(m) * (Drift(n - 1) * (9007199254740992.0 / 9007199254740991.0));
    }
  }

  /** After at most 14 roundings the drift is below one more part in 2^53 than that. */
  lemma {:induction false} DriftBound(n: nat)
    requires n <= 14
    ensures Drift(n) <= 1.0 + n as real * (1.0 / 9007199254740900.0)
  {
    if n > 0 {
      DriftBound(n - 1);
      DriftStep(n, Drift(n - 1));
    }
  }

  lemma DriftStep(n: nat, q: real)
    requires 1 <= n <= 14 && q <= 1.0 + (n - 1) as real * (1.0 / 9007199254740900.0)
    ensures q * (9007199254740992.0 / 9007199254740991.0) <= 1.0 + n as real * (1.0 / 9007199254740900.0)
  {
    var r := n as real - 1.0;
    assert (n - 1) as real == r;
  }

  /** a is b up to n roundings. */
  ghost predicate Close(a: real, b: real, n: nat) {
    a > 0.0 && b > 0.0 && a <= b * Drift(n) && b <= a * Drift(n)
  }

  lemma CloseMore(a: real, b: real, m: nat, n: nat)
    requires Close(a, b, m) && m <= n
    ensures Close(a, b, n)
  {
    hide Drift;
    DriftAdd(m, n - m);
    Grows(b, Drift(m), Drift(n - m));
    Grows(a, Drift(m), Drift(n - m));
  }

  lemma Grows(b: real, p: real, q: real)
    requires b > 0.0 && p >= 1.0 && q >= 1.0
    ensures b * p <= b * (p * q)
  {
    NotNegative(b * p, q - 1.0);
    assert b * (p * q) == (b * p) * q;
  }

  lemma CloseTrans(a: real, b: real, c: real, m: nat, n: nat)
    requires Close(a, b, m) && Close(b, c, n)
    ensures Close(a, c, m + n)
  {
    hide Drift;
    DriftAdd(m, n);
    Chain(a, b, c, Drift(m), Drift(n));
    Chain(c, b, a, Drift(n), Drift(m));
    assert Drift(n) * Drift(m) == Drift(m) * Drift(n);
  }

  lemma Chain(a: real, b: real, c: real, p: real, q: real)
    requires a <= b * p && b <= c * q && p >= 1.0 && q >= 1.0
    ensures a <= c * (p * q)
  {
    NotNegative(c * q - b, p);
    assert (c * q - b) * p == c * (p * q) - b * p;
  }

  lemma CloseProduct(a: real, b: real, c: real, d: real, m: nat, n: nat, x: real, y: real)
    requires Close(a, b, m) && Close(c, d, n) && x == a * c && y == b * d
    ensures Close(x, y, m + n)
  {
    hide Drift;
    DriftAdd(m, n);
    BothSides(a, b, c, d, Drift(m), Drift(n));
    BothSides(b, a, d, c, Drift(m), Drift(n));
  }

  lemma BothSides(a: real, b: real, c: real, d: real, p: real, q: real)
    requires a > 0.0 && b > 0.0 && c > 0.0 && d > 0.0 && a <= b * p && c <= d * q && p >= 1.0 && q >= 1.0
    ensures a * c > 0.0 && a * c <= (b * d) * (p * q)
  {
    NotNegative(b * p - a, c);
    assert (b * p - a) * c == (b * p) * c - a * c;
    PositiveProduct(b, p);
    NotNegative(b * p, d * q - c);
    assert (b * p) * (d * q - c) == (b * d) * (p * q) - (b * p) * c;
    PositiveProduct(a, c);
  }

  lemma CloseInverse(a: real, b: real, n: nat)
    requires Close(a, b, n)
    ensures Close(1.0 / a, 1.0 / b, n)
  {
    hide Drift;
    InverseBound(a, b, Drift(n));
    InverseBound(b, a, Drift(n));
  }

  lemma InverseBound(a: real, b: real, p: real)
    requires a > 0.0 && b > 0.0 && b <= a * p
    ensures 1.0 / a > 0.0 && 1.0 / a <= 1.0 / b * p
  {
    var x, y := 1.0 / a, 1.0 / b;
    assert x * a == 1.0 && y * b == 1.0;
    PositiveInverse(a);
    PositiveInverse(b);
    PositiveProduct(x, y);
    NotNegative(x * y, a * p - b);
    Regroup4(x, y, a, b, p);
  }

  lemma Regroup4(x: real, y: real, a: real, b: real, p: real)
    requires x * a == 1.0 && y * b == 1.0
    ensures (x * y) * (a * p - b) == y * p - x
  {
    assert (x * y) * (a * p - b) == (x * a) * (y * p) - x * (y * b);
  }

  lemma PositiveInverse(a: real)
    requires a > 0.0
    ensures 1.0 / a > 0.0
  {
  }

  lemma CloseSelf(a: real)
    requires a > 0.0
    ensures Close(a, a, 0)
  {
  }

  /** One rounding. */
  lemma CloseFloat(d: real, x: real)
    requires x > 0.0 && Abs(d - x) <= H * x
    ensures Close(d, x, 1)
  {
    assert Drift(1) == 9007199254740992.0 / 9007199254740991.0 by { assert Drift(0) == 1.0; }
  }

  /** The error in terms of the computed number. */
  lemma CloseDistance(a: real, b: real, n: nat)
    requires Close(a, b, n) && n <= 14
    ensures Abs(a - b) <= a * (n as real * (1.0 / 9007199254740900.0))
  {
    hide Drift;
    DriftBound(n);
    var t := n as real * (1.0 / 9007199254740900.0);
    Distance(a, b, Drift(n), t);
  }

  lemma Distance(a: real, b: real, q: real, t: real)
    requires a > 0.0 && b > 0.0 && a <= b * q && b <= a * q && 1.0 <= q <= 1.0 + t
    ensures Abs(a - b) <= a * t
  {
    NotNegative(a, 1.0 + t - q);
    NotNegative(b, 1.0 + t - q);
    if a > b {
      NotNegative(a - b, t);
      assert b * q <= b + b * t;
      assert a * t == b * t + (a - b) * t;
    }
  }

  // ---- The tables ----

  /** Entry i of `bigtens`. */
  function Bigten(fl: real -> real, i: nat): real {
    fl(RPow(10, 16 * Pow(2, i)))
  }

  lemma {:induction false} PowOfProduct(a: nat, b: nat, n: nat)
    ensures Pow(a * b, n) == Pow(a, n) * Pow(b, n)
  {
    if n > 0 {
      PowOfProduct(a, b, n - 1);
      FourProducts(a, b, Pow(a, n - 1), Pow(b, n - 1));
    }
  }

  lemma FourProducts(a: nat, b: nat, p: nat, q: nat)
    ensures (a * b) * (p * q) == (a * p) * (b * q)
  {
    Associate(a, b, p * q);
    Associate(b, p, q);
    Commute(b, p);
    Associate(p, b, q);
    Associate(a, p, b * q);
  }

  lemma {:induction false} PowMonoExp(b: nat, m: nat, n: nat)
    requires b >= 1 && m <= n
    ensures 1 <= Pow(b, m) <= Pow(b, n)
    decreases n
  {
    PowPositive(b, m);
    if m < n {
      PowMonoExp(b, m, n - 1);
      PowPositive(b, n - 1);
      MulMono(1, b, Pow(b, n - 1), Pow(b, n - 1));
    }
  }

  lemma FiveTo22()
    ensures Pow(5, 22) == 2384185791015625
  {
    hide Pow;
    assert Pow(5, 2) == 25 by { PowNext(5, 1); PowNext(5, 0); }
    PowNext(5, 2);
    PowAdd(5, 2, 3);
    PowAdd(5, 5, 5);
    PowNext(5, 10);
    PowAdd(5, 11, 11);
  }

  /** Powers of ten up to 10^22 are doubles. */
  lemma TenIsDouble(n: nat)
    requires n <= 22
    ensures IsDouble(RPow(10, n))
  {
    hide Pow, RPow;
    FiveTo22();
    PowMonoExp(5, n, 22);
    PowOfProduct(5, 2, n);
    RPowIs(10, n);
    RPowIs(2, n);
    ProductReal(Pow(5, n), Pow(2, n));
    assert Float(Pow(5, n), n) == RPow(10, n);
  }

  lemma SixteenZeros()
    ensures Pow(10, 16) == 10000000000000000
  {
    hide Pow;
    assert Pow(10, 4) == 10000 by { PowNext(10, 3); PowNext(10, 2); PowNext(10, 1); PowNext(10, 0); }
    PowAdd(10, 4, 4);
    PowAdd(10, 8, 8);
  }

  /** A large table entry is an integer, rounded once. */
  lemma BigtenClose(fl: real -> real, i: nat)
    requires Rounds(fl)
    ensures var c := Bigten(fl, i);
      IsDouble(c) && c >= TWO_53 as real && c.Floor as real == c && Close(c, RPow(10, 16 * Pow(2, i)), 1)
  {
    hide Pow, RPow, IsDouble, Rounds, Close, Least;
    var c, x := Bigten(fl, i), RPow(10, 16 * Pow(2, i));
    SixteenZeros();
    RPowIs(10, 16);
    PowPositive(2, i);
    RPowMono(10, 16, 16 * Pow(2, i));
    TenIsDouble(16);
    ExactFloat(fl, RPow(10, 16));
    MonoFloat(fl, RPow(10, 16), x);
    IsRounded(fl, x);
    LargeIsInteger(c);
    LeastIsTiny();
    NearFloat(fl, x);
    CloseFloat(c, x);
  }

  // ---- Scaling ----

  /** x * 10^k. */
  ghost function Shifted(x: real, k: int): real {
    x * RPow(10, k)
  }

  lemma ShiftedTwice(x: real, j: int, k: int)
    ensures Shifted(Shifted(x, j), k) == Shifted(x, j + k) && Shifted(x, 0) == x
  {
    hide RPow;
    RPowAdd(10, j, k);
    RPowZero(10);
    RegroupThree(x, RPow(10, j), RPow(10, k));
  }

  lemma ShiftedPower(j: int, k: int)
    ensures Shifted(RPow(10, j), k) == RPow(10, j + k)
  {
    hide RPow;
    RPowAdd(10, j, k);
  }

  /** The loops over the bits of j: a factor from the table for each bit. */
  method TimesBits(fl: real -> real, a0: real, j0: nat, ghost b: real, ghost n: nat) returns (a: real, count: nat)
    requires Rounds(fl) && IsDouble(a0) && Close(a0, b, n) && j0 < 32
    ensures IsDouble(a) && Close(a, Shifted(b, 16 * j0), n + 2 * count) && (a0 >= 1.0 ==> a >= 1.0)
    ensures count <= 5 && (j0 < 16 ==> count <= 4)
    ensures (j0 == 0 ==> a == a0) && (j0 == 1 ==> a == Mul(fl, a0, Bigten(fl, 0)))
  {
    hide Pow, RPow, IsDouble, Rounds, Close, Bigten, Least, Shifted, Mul;
    var j, i := j0, 0;
    a, count := a0, 0;
    ShiftedTwice(b, 0, 0);
    PowNext(2, 0);
    ghost var done: nat := 0;
    while j > 0
      invariant j >= 0 && IsDouble(a) && Close(a, Shifted(b, 16 * done), n + 2 * count) && (a0 >= 1.0 ==> a >= 1.0)
      invariant done + j * Pow(2, i) == j0
      invariant count <= i && BitsLeft(i, j) && (j0 < 16 ==> FewBits(i, j)) && (i == 0 ==> j == j0 && a == a0)
      invariant (j0 == 0 ==> i == 0) && (j0 == 1 && i > 0 ==> j == 0 && a == Mul(fl, a0, Bigten(fl, 0)))
      decreases j
    {
      ghost var w: nat := Pow(2, i);
      HalfTheBits(j, w);
      PowNext(2, i);
      if j % 2 == 1 {
        ShiftedTwice(b, 16 * done, 16 * w);
        a := TimesBig(fl, a, i, Shifted(b, 16 * done), n + 2 * count);
        count, done := count + 1, done + w;
      }
      j, i := j / 2, i + 1;
    }
    NoBits(j, Pow(2, i));
  }

  lemma NoBits(j: nat, w: nat)
    requires j == 0
    ensures j * w == 0
  {
  }

  /** What can be left of five bits after i of them. */
  predicate BitsLeft(i: nat, j: nat) {
    (i == 0 && j < 32) || (i == 1 && j < 16) || (i == 2 && j < 8) || (i == 3 && j < 4) || (i == 4 && j < 2) || (i == 5 && j == 0)
  }

  predicate FewBits(i: nat, j: nat) {
    (i == 0 && j < 16) || (i == 1 && j < 8) || (i == 2 && j < 4) || (i == 3 && j < 2) || (i == 4 && j == 0)
  }

  lemma HalfTheBits(j: nat, w: nat)
    ensures j * w == j % 2 * w + j / 2 * (2 * w)
  {
    assert j == j % 2 + 2 * (j / 2);
    assert (j % 2 + 2 * (j / 2)) * w == j % 2 * w + j / 2 * (2 * w);
  }

  /** One multiplication with a table entry. */
  method TimesBig(fl: real -> real, a: real, i: nat, ghost b: real, ghost n: nat) returns (r: real)
    requires Rounds(fl) && IsDouble(a) && Close(a, b, n)
    ensures IsDouble(r) && (a >= 1.0 ==> r >= 1.0) && Close(r, Shifted(b, 16 * Pow(2, i)), n + 2)
    ensures r == Mul(fl, a, Bigten(fl, i))
  {
    hide Pow, RPow, IsDouble, Rounds, Close, Bigten, Least, Mul;
    var c := Bigten(fl, i);
    BigtenClose(fl, i);
    ClosePositive(a, b, n);
    var z := a * c;
    ghost var y := Shifted(b, 16 * Pow(2, i));
    r := Mul(fl, a, c);
    MulIs(fl, a, c, z);
    MultipleFloat(fl, a, c, z);
    CloseFloat(r, z);
    CloseProduct(a, b, c, RPow(10, 16 * Pow(2, i)), n, 1, z, y);
    CloseTrans(r, z, y, 1, n + 1);
    IsRounded(fl, z);
    if a >= 1.0 {
      ProductAtLeast(a, c);
      SmallIsDouble(1);
      ExactFloat(fl, 1.0);
      MonoFloat(fl, 1.0, z);
    }
  }

  lemma ClosePositive(a: real, b: real, n: nat)
    requires Close(a, b, n)
    ensures a > 0.0 && b > 0.0
  {
  }

  lemma ProductAtLeast(a: real, c: real)
    requires a >= 1.0 && c >= 1.0
    ensures a * c >= 1.0
  {
    NotNegative(a - 1.0, c);
  }

  /** One division. */
  lemma QuotientClose(fl: real -> real, a: real, b: real, c: real, e: nat, m: nat, n: nat)
    requires Rounds(fl) && Close(a, b, m) && Close(c, RPow(10, e), n) && m + n <= 13 && Shifted(b, 0 - e) >= 0.01
    ensures c > 0.0 && IsDouble(Div(fl, a, c)) && Close(Div(fl, a, c), Shifted(b, 0 - e), m + n + 1)
  {
    hide RPow, IsDouble, Rounds, Close, Least;
    ClosePositive(c, RPow(10, e), n);
    CloseInverse(c, RPow(10, e), n);
    Inverse(e);
    var z, v := a / c, Shifted(b, 0 - e);
    CloseProduct(a, b, 1.0 / c, RPow(10, 0 - e), m, n, z, v);
    CloseLarge(z, v, m + n);
    LeastIsTiny();
    NearFloat(fl, z);
    CloseFloat(fl(z), z);
    CloseTrans(fl(z), z, v, 1, m + n);
    IsRounded(fl, z);
  }

  lemma CloseLarge(a: real, b: real, n: nat)
    requires Close(a, b, n) && n <= 14 && b >= 0.01
    ensures a >= 0.005
  {
    hide Drift;
    DriftBound(n);
    NotNegative(a, 2.0 - Drift(n));
    assert a * (2.0 - Drift(n)) == 2.0 * a - a * Drift(n);
  }

  /** Dividing by 10^k. */
  method ScaleDown(fl: real -> real, x: real, k: nat) returns (u: real, ieps: nat)
    requires Rounds(fl) && IsDouble(x) && 0 < k < 512 && x >= RPow(10, k - 1)
    ensures IsDouble(u) && 2 <= ieps <= 7 && Close(u, Shifted(x, 0 - k), 2 * ieps - 3)
    ensures k <= 22 ==> u == Div(fl, x, RPow(10, k))
  {
    hide Pow, RPow, IsDouble, Rounds, Close, Bigten, Least, Shifted, Mul, Div;
    var ds, j := RPow(10, k % 16), k / 16;
    ghost var n;
    u, j, ieps, n := AvoidOverflow(fl, x, j, k);
    ghost var e: nat := 16 * j + k % 16;
    CloseSelf(ds);
    TenIsDouble(k % 16);
    var count;
    ds, count := TimesBits(fl, ds, j, ds, 0);
    ShiftedPower(k % 16, 16 * j);
    ieps := ieps + count;
    ShiftedTwice(x, e - k, 0 - e);
    LargeEnough(x, k - 1, k);
    QuotientClose(fl, u, Shifted(x, e - k), ds, e, n, 2 * count);
    u := Div(fl, u, ds);
    if k <= 22 { ExactTens(fl, k, ds); }
  }

  /** A large number is divided by 10^256 first. */
  method AvoidOverflow(fl: real -> real, x: real, j0: nat, k: nat) returns (u: real, j: nat, ieps: nat, ghost n: nat)
    requires Rounds(fl) && IsDouble(x) && 0 < k < 512 && x >= RPow(10, k - 1) && j0 == k / 16
    ensures IsDouble(u) && j < 16 && ieps <= 3 && n == 2 * (ieps - 2) && Close(u, Shifted(x, 16 * (j - j0)), n)
    ensures j0 < 16 ==> u == x && j == j0
    ensures ieps >= 2
  {
    hide Pow, RPow, IsDouble, Rounds, Close, Bigten, Least, Shifted, Div;
    u, j, ieps, n := x, j0, 2, 0;
    ShiftedTwice(x, 0, 0);
    CloseSelf(x);
    if j >= 16 {
      j := j - 16;
      BigtenClose(fl, 4);
      Sixteen();
      LargeEnough(x, k - 1, 256);
      QuotientClose(fl, x, x, Bigten(fl, 4), 256, 0, 1);
      u := Div(fl, u, Bigten(fl, 4));
      ieps, n := 3, 2;
    }
  }

  /** Up to 10^22 the divisor is exact. */
  lemma ExactTens(fl: real -> real, k: nat, ds: real)
    requires Rounds(fl) && 0 < k <= 22
    requires ds == if k < 16 then RPow(10, k) else Mul(fl, RPow(10, k - 16), Bigten(fl, 0))
    ensures ds == RPow(10, k)
  {
    hide RPow, IsDouble, Rounds;
    if k >= 16 {
      assert Pow(2, 0) == 1;
      TenIsDouble(16);
      ExactFloat(fl, RPow(10, 16));
      RPowAdd(10, k - 16, 16);
      TenIsDouble(k);
      ExactFloat(fl, RPow(10, k));
    }
  }

  lemma Sixteen()
    ensures 16 * Pow(2, 4) == 256
  {
  }

  lemma Inverse(k: nat)
    ensures 1.0 / RPow(10, k) == RPow(10, 0 - k)
  {
    hide RPow;
    RPowAdd(10, k, 0 - k);
    RPowZero(10);
  }

  lemma LargeEnough(x: real, j: int, k: int)
    requires x >= RPow(10, j) && j >= k - 1
    ensures Shifted(x, -k) >= 0.1
  {
    hide RPow;
    RPowMono(10, k - 1, j);
    RPowAdd(10, k - 1, -k);
    RPowNext(10, -1);
    RPowZero(10);
    Scaled(RPow(10, k - 1), x, RPow(10, -k));
  }

  /** Multiplying with 10^k. */
  method ScaleUp(fl: real -> real, x: real, k: nat) returns (u: real, ieps: nat)
    requires Rounds(fl) && IsDouble(x) && 0 < k < 512 && x > 0.0
    ensures IsDouble(u) && 2 <= ieps <= 7 && Close(u, Shifted(x, k), 2 * ieps - 3)
    ensures k < 16 ==> u == Mul(fl, x, RPow(10, k))
  {
    hide Pow, RPow, IsDouble, Rounds, Close, Bigten, Least, Shifted;
    u := TimesPower(fl, x, k % 16);
    var count;
    u, count := TimesBits(fl, u, k / 16, Shifted(x, k % 16), 1);
    ieps := 2 + count;
    ShiftedTwice(x, k % 16, 16 * (k / 16));
  }

  /** One multiplication with an exact power of ten. */
  method TimesPower(fl: real -> real, x: real, n: nat) returns (u: real)
    requires Rounds(fl) && IsDouble(x) && x > 0.0
    ensures u == Mul(fl, x, RPow(10, n)) && IsDouble(u) && Close(u, Shifted(x, n), 1)
  {
    hide Pow, RPow, IsDouble, Rounds, Close, Mul;
    var t := RPow(10, n);
    u := Mul(fl, x, t);
    ghost var z := Shifted(x, n);
    IntegerPower(n);
    MulIs(fl, x, t, z);
    MultipleFloat(fl, x, t, z);
    IsRounded(fl, z);
    CloseFloat(u, z);
  }

  lemma IntegerPower(n: nat)
    ensures RPow(10, n).Floor as real == RPow(10, n) >= 1.0
  {
    RPowIs(10, n);
    PowPositive(10, n);
  }
}

/** What the printed digits mean, in real numbers. */
module Decimals {
  import opened Bits
  import opened BigWords
  import opened Pow5s
  import opened Digits
  import opened DtoaLoop
  import opened Dtoa

  /** b to an integer power. */
  function RPow(b: nat, e: int): (r: real)
    requires b > 0
    ensures r > 0.0
  {
    PowPositive(b, if e < 0 then -e else e);
    if e >= 0 then Pow(b, e) as real else 1.0 / (Pow(b, -e) as real)
  }

  lemma PowNext(b: nat, e: nat)
    ensures Pow(b, e + 1) == b * Pow(b, e) && Pow(b, 0) == 1
  {
  }

  lemma RPowNext(b: nat, e: int)
    requires b > 0
    ensures RPow(b, e + 1) == b as real * RPow(b, e)
  {
    hide Pow;
    if e >= 0 {
      PowNext(b, e);
      ProductReal(b, Pow(b, e));
    } else {
      var p := Pow(b, -e - 1);
      PowPositive(b, -e - 1);
      PowNext(b, -e - 1);
      ProductReal(b, p);
      Reciprocal(b as real, p as real);
    }
  }

  lemma ProductReal(a: int, b: int)
    ensures (a * b) as real == a as real * b as real
  {
  }

  lemma Reciprocal(b: real, p: real)
    requires b > 0.0 && p > 0.0
    ensures b * p > 0.0 && 1.0 / p == b * (1.0 / (b * p))
  {
    assert 1.0 / p == b / (b * p);
  }

  lemma {:induction false} RPowAdd(b: nat, x: int, y: int)
    requires b > 0
    ensures RPow(b, x + y) == RPow(b, x) * RPow(b, y)
    decreases if y < 0 then -y else y
  {
    hide RPow;
    var c := b as real;
    if y == 0 {
      RPowZero(b);
    } else if y > 0 {
      RPowAdd(b, x, y - 1);
      RPowNext(b, x + y - 1);
      RPowNext(b, y - 1);
      RegroupReal(c, RPow(b, x), RPow(b, y - 1));
    } else {
      RPowAdd(b, x, y + 1);
      RPowNext(b, x + y);
      RPowNext(b, y);
      RegroupReal(c, RPow(b, x), RPow(b, y));
      CancelReal(c, RPow(b, x + y), RPow(b, x) * RPow(b, y));
    }
  }

  lemma RPowZero(b: nat)
    requires b > 0
    ensures RPow(b, 0) == 1.0
  {
  }

  lemma RegroupReal(c: real, x: real, y: real)
    ensures c * (x * y) == x * (c * y)
  {
  }

  lemma CancelReal(c: real, x: real, y: real)
    requires c > 0.0 && c * x == c * y
    ensures x == y
  {
  }

  lemma {:induction false} RPowTen(e: int)
    ensures RPow(10, e) == RPow(2, e) * RPow(5, e)
    decreases if e < 0 then -e else e
  {
    hide RPow;
    if e == 0 {
      RPowZero(10);
      RPowZero(2);
      RPowZero(5);
    } else if e > 0 {
      RPowTen(e - 1);
      RPowNext(10, e - 1);
      RPowNext(2, e - 1);
      RPowNext(5, e - 1);
      TenTimes(RPow(2, e - 1), RPow(5, e - 1));
    } else {
      RPowTen(e + 1);
      RPowNext(10, e);
      RPowNext(2, e);
      RPowNext(5, e);
      TenTimes(RPow(2, e), RPow(5, e));
    }
  }

  lemma TenTimes(x: real, y: real)
    ensures 10.0 * (x * y) == (2.0 * x) * (5.0 * y)
  {
  }

  // ---- Fractions of integers as reals ----

  /** j * 10^q. */
  ghost function Multiple(j: int, q: int): real {
    j as real * RPow(10, q)
  }

  lemma {:induction false} Pow2Is(n: nat)
    ensures Pow2(n) == Pow(2, n)
  {
    if n > 0 { Pow2Is(n - 1); }
  }

  lemma NumReal(m: nat, e2: nat, e5: nat)
    ensures Num(m, e2, e5) as real == m as real * (RPow(2, e2) * RPow(5, e5))
  {
    Pow2Is(e2);
    ProductReal(Pow(2, e2), Pow(5, e5));
    ProductReal(m, Pow(2, e2) * Pow(5, e5));
  }

  lemma FourFactors(m: real, a: real, b: real, c: real, d: real)
    ensures (m * (a * b)) * (c * d) == m * ((a * c) * (b * d))
  {
    assert (a * b) * (c * d) == (a * c) * (b * d);
  }

  lemma ThreeFactors(a: real, b: real, m: real, c: real)
    ensures (1.0 * (a * b)) * (m * c) == m * ((a * c) * b)
  {
    assert (a * b) * (m * c) == m * ((a * c) * b);
  }

  /** v / s is m * 2^e / 10^k. */
  lemma RatioReal(v: nat, s: nat, m: nat, e: int, k: int)
    requires Ratio(v, s, m, e, k)
    ensures v as real * RPow(10, k) == s as real * (m as real * RPow(2, e))
  {
    hide RPow, Num;
    var b2: nat, b5: nat, s2: nat, s5: nat :|
      v == Num(m, b2, b5) && s == Num(1, s2, s5) && b2 - s2 == e - k && b5 - s5 == -k;
    NumReal(m, b2, b5);
    NumReal(1, s2, s5);
    RPowTen(k);
    FourFactors(m as real, RPow(2, b2), RPow(5, b5), RPow(2, k), RPow(5, k));
    RPowAdd(2, b2, k);
    RPowAdd(5, b5, k);
    ThreeFactors(RPow(2, s2), RPow(5, s5), m as real, RPow(2, e));
    RPowAdd(2, s2, e);
  }

  /** The reals that are rounded to a number x: `lo` below and `hi` above it, with or without the ends. */
  datatype Interval = Interval(x: real, lo: real, hi: real, closed: bool) {
    predicate Has(y: real) {
      if closed then x - lo <= y <= x + hi else x - lo < y < x + hi
    }
  }

  /** The operands of the digit loop are the interval, divided by 10^k. */
  ghost predicate Matches(g: Gen, k: int, i: Interval) {
    && g.s > 0 && g.closed == i.closed && i.x * g.s as real == g.v as real * RPow(10, k)
    && i.lo * g.s as real == g.lo as real * RPow(10, k) && i.hi * g.s as real == g.hi as real * RPow(10, k)
  }

  lemma Scaled(a: real, b: real, c: real)
    requires c > 0.0
    ensures (a <= b <==> a * c <= b * c) && (a < b <==> a * c < b * c)
  {
    assert (b - a) * c == b * c - a * c;
    if a < b { assert (b - a) * c > 0.0; }
    if a > b { assert (a - b) * c > 0.0; }
  }

  /** Comparing fractions after clearing denominators. */
  lemma Cleared(left: real, right: real, c: real, a: int, b: int, t: real)
    requires c > 0.0 && t > 0.0 && left * c == a as real * t && right * c == b as real * t
    ensures (left <= right <==> a <= b) && (left < right <==> a < b)
  {
    Scaled(left, right, c);
    Scaled(a as real, b as real, t);
  }

  /** The common denominator at the place m digits after the first. */
  ghost function Den(g: Gen, m: nat): real {
    g.s as real * Pow(10, m) as real
  }

  lemma DenPositive(g: Gen, m: nat)
    requires g.s > 0
    ensures Den(g, m) > 0.0
  {
    PowPositive(10, m);
    PositiveProduct(g.s as real, Pow(10, m) as real);
  }

  /** The place m digits after the first, cleared of denominators. */
  lemma Place(g: Gen, k: int, d: int, m: nat)
    ensures Multiple(d, k - m) * Den(g, m) == (d * g.s) as real * RPow(10, k)
    ensures RPow(10, k - m) * Den(g, m) == g.s as real * RPow(10, k)
  {
    hide Pow, RPow;
    RPowIs(10, m);
    RPowAdd(10, m, k - m);
    assert m + (k - m) == k;
    ProductReal(d, g.s);
    PlaceArith(d as real, RPow(10, k - m), g.s as real, Pow(10, m) as real, RPow(10, k));
  }

  lemma RPowIs(b: nat, n: nat)
    requires b > 0
    ensures RPow(b, n) == Pow(b, n) as real
  {
  }

  lemma PlaceArith(d: real, r: real, s: real, p: real, t: real)
    requires p * r == t
    ensures (d * r) * (s * p) == (d * s) * t && r * (s * p) == s * t
  {
    RegroupReal(r, s, p);
    assert r * p == p * r;
    RegroupThree(d, r, s * p);
    RegroupThree(d, s, t);
  }

  /** A number of the interval times the denominators. */
  lemma Bound(x: real, v: int, g: Gen, k: int, m: nat)
    requires x * g.s as real == v as real * RPow(10, k)
    ensures x * Den(g, m) == (v * Pow(10, m)) as real * RPow(10, k)
  {
    var p := Pow(10, m) as real;
    ProductReal(v, Pow(10, m));
    assert x * (g.s as real * p) == (x * g.s as real) * p;
    assert (v as real * RPow(10, k)) * p == (v as real * p) * RPow(10, k);
  }

  lemma WithinIff(g: Gen, k: int, i: Interval, d: int, m: nat)
    requires Matches(g, k, i)
    ensures g.Within(d, m) <==> i.Has(Multiple(d, k - m))
  {
    hide RPow, Pow, Multiple, Den;
    DenPositive(g, m);
    var y, c, t, p := Multiple(d, k - m), Den(g, m), RPow(10, k), Pow(10, m);
    Place(g, k, d, m);
    Bound(i.x, g.v, g, k, m);
    Bound(i.lo, g.lo, g, k, m);
    Bound(i.hi, g.hi, g, k, m);
    ClearedInterval(i, y, c, g.v * p, g.lo * p, g.hi * p, d * g.s, t);
  }

  lemma ClearedInterval(i: Interval, y: real, c: real, v: int, lo: int, hi: int, d: int, t: real)
    requires c > 0.0 && t > 0.0 && i.x * c == v as real * t && i.lo * c == lo as real * t
    requires i.hi * c == hi as real * t && y * c == d as real * t
    ensures (i.x - i.lo <= y <==> v - lo <= d) && (i.x - i.lo < y <==> v - lo < d)
    ensures (y <= i.x + i.hi <==> d <= v + hi) && (y < i.x + i.hi <==> d < v + hi)
  {
    assert (i.x - i.lo) * c == (v - lo) as real * t;
    assert (i.x + i.hi) * c == (v + hi) as real * t;
    Cleared(i.x - i.lo, y, c, v - lo, d, t);
    Cleared(y, i.x + i.hi, c, d, v + hi, t);
  }

  lemma PositiveProduct(a: real, b: real)
    requires a > 0.0 && b > 0.0
    ensures a * b > 0.0
  {
  }

  function Abs(x: real): real { if x < 0.0 then -x else x }

  /** Distances compare like those of the cleared fractions. */
  lemma DistanceReal(g: Gen, k: int, i: Interval, d: int, m: nat)
    requires Matches(g, k, i)
    ensures Den(g, m) > 0.0
    ensures Abs(Multiple(d, k - m) - i.x) * Den(g, m) == g.Distance(d, m) as real * RPow(10, k)
  {
    hide RPow, Pow, Multiple, Den;
    DenPositive(g, m);
    var y, c, t, p := Multiple(d, k - m), Den(g, m), RPow(10, k), Pow(10, m);
    Place(g, k, d, m);
    Bound(i.x, g.v, g, k, m);
    assert (y - i.x) * c == (d * g.s - g.v * p) as real * t;
    Cleared(y, i.x, c, d * g.s, g.v * p, t);
    assert (i.x - y) * c == (g.v * p - d * g.s) as real * t;
  }

  // ---- The printed decimal ----

  /** The decimal that digits with a decimal point after the first decpt of them stand for. */
  ghost function Decimal(t: seq<Digit>, decpt: int): real {
    DigVal(t) as real * RPow(10, decpt - |t|)
  }

  /** y is x rounded to a multiple of 10^place, ties to the even multiple. */
  ghost predicate RoundedAt(y: real, x: real, place: int) {
    exists d: int :: HalfEven(d, y, x, place)
  }

  ghost predicate HalfEven(d: int, y: real, x: real, place: int) {
    && y == Multiple(d, place) && 2.0 * Abs(y - x) <= RPow(10, place)
    && (2.0 * Abs(y - x) == RPow(10, place) ==> d % 2 == 0)
  }

  /** The digits t are x rounded to a multiple of 10^place, and have no place below that. */
  ghost predicate Rounded(t: seq<Digit>, decpt: int, x: real, place: int) {
    RoundedAt(Decimal(t, decpt), x, place) && decpt - |t| >= place && (t == [] ==> decpt == place)
  }

  /** An integer of at most n digits. */
  ghost predicate HasDigits(j: int, n: nat) {
    0 - Pow(10, n) < j < Pow(10, n)
  }

  /** A decimal of the interval such that no coarser one and none with fewer digits is in it, and none in it with as
      many digits is nearer to its x. */
  ghost predicate Shortest(t: seq<Digit>, decpt: int, i: Interval) {
    && |t| >= 1 && i.Has(Decimal(t, decpt))
    && (|t| > 1 ==> NoneCoarser(i, decpt - |t|)) && NoneFewer(i, |t| - 1) && NoneNearer(Decimal(t, decpt), i, |t|)
  }

  ghost predicate NoneCoarser(i: Interval, place: int) {
    forall j: int, q: int :: q > place ==> !i.Has(Multiple(j, q))
  }

  ghost predicate NoneFewer(i: Interval, n: nat) {
    forall j: int, q: int :: HasDigits(j, n) ==> !i.Has(Multiple(j, q))
  }

  ghost predicate NoneNearer(y: real, i: Interval, n: nat) {
    forall j: int, q: int :: HasDigits(j, n) && i.Has(Multiple(j, q)) ==> Abs(y - i.x) <= Abs(Multiple(j, q) - i.x)
  }

  /** The digits t, read with the decimal point in place, are the decimal d at the place m after the first digit. */
  lemma ReadsReal(t: seq<Digit>, n: nat, up: nat, d: nat, k: int)
    requires n >= 1 && ReadsAs(t, n, up, d)
    ensures Decimal(t, k + 1 + up) == Multiple(d, k - (n - 1))
  {
    hide RPow, Pow;
    var z := n + up - |t|;
    ProductReal(DigVal(t), Pow(10, z));
    RPowIs(10, z);
    RPowAdd(10, z, k - (n - 1));
    assert z + (k - (n - 1)) == k + 1 + up - |t|;
    RegroupThree(DigVal(t) as real, RPow(10, z), RPow(10, k - (n - 1)));
  }

  lemma RegroupThree(a: real, b: real, c: real)
    ensures (a * b) * c == a * (b * c)
  {
  }

  lemma MultipleFiner(j: int, q: int, p: int)
    requires p <= q
    ensures Multiple(j, q) == Multiple(j * Pow(10, q - p), p)
  {
    hide RPow, Pow;
    RPowIs(10, q - p);
    RPowAdd(10, q - p, p);
    ProductReal(j, Pow(10, q - p));
    RegroupThree(j as real, Pow(10, q - p) as real, RPow(10, p));
  }

  lemma RPowMono(b: nat, x: int, y: int)
    requires b >= 1 && x <= y
    ensures RPow(b, x) <= RPow(b, y)
  {
    hide RPow, Pow;
    RPowAdd(b, y - x, x);
    assert y - x + x == y;
    RPowIs(b, y - x);
    PowPositive(b, y - x);
    AtLeastOne(Pow(b, y - x), RPow(b, x), RPow(b, y));
  }

  lemma AtLeastOne(n: nat, c: real, r: real)
    requires n >= 1 && c > 0.0 && r == n as real * c
    ensures r >= c
  {
    Scaled(1.0, n as real, c);
  }

  /** A number of e digits at the place 10^q is below the power of ten e places up. */
  lemma BelowPower(j: int, q: int, e: nat, k: int)
    requires j < Pow(10, e) && q + e <= k
    ensures Multiple(j, q) < RPow(10, k)
  {
    hide RPow, Pow;
    RPowIs(10, e);
    RPowAdd(10, e, q);
    RPowMono(10, e + q, k);
    Scaled(j as real, Pow(10, e) as real, RPow(10, q));
  }

  /** Nearer to x on the same side is still in the interval. */
  lemma Between(i: Interval, y: real, z: real)
    requires i.Has(y) && y <= z <= i.x && i.lo > 0.0 && i.hi > 0.0
    ensures i.Has(z) && Abs(z - i.x) <= Abs(y - i.x)
  {
  }

  lemma OnePower(k: int)
    ensures Multiple(1, k) == RPow(10, k)
  {
  }

  lemma ZeroOnly(j: int)
    ensures HasDigits(j, 0) ==> j == 0
  {
  }

  /** No decimal with fewer digits: it would be at a coarser place, or below the power of ten that x is above. */
  lemma FewerDigits(i: Interval, n: nat, k: int, j: int, q: int)
    requires n >= 1 && (n > 1 ==> NoneCoarser(i, k - (n - 1))) && RPow(10, k) <= i.x && 0.0 < i.lo < i.x && i.hi > 0.0
    requires HasDigits(j, n - 1)
    ensures !i.Has(Multiple(j, q))
  {
    hide RPow, Pow, Multiple, Interval.Has;
    if n == 1 {
      ZeroOnly(j);
      ZeroOutside(i, q);
    } else if q <= k - (n - 1) && i.Has(Multiple(j, q)) {
      OnePower(k);
      assert !i.Has(Multiple(1, k));
      BelowPower(j, q, n - 1, k);
      Between(i, Multiple(j, q), RPow(10, k));
      assert false;
    }
  }

  lemma ZeroOutside(i: Interval, q: int)
    requires 0.0 < i.lo < i.x
    ensures !i.Has(Multiple(0, q))
  {
  }

  /** No coarser decimal is in the interval. */
  lemma CoarserOutside(g: Gen, k: int, i: Interval, n: nat, j: int, q: int)
    requires Matches(g, k, i) && n >= 2 && g.NoneShorter(n - 1) && q > k - (n - 1)
    ensures !i.Has(Multiple(j, q))
  {
    hide RPow, Pow, Gen.Within, Multiple;
    if q <= k {
      WithinIff(g, k, i, j, k - q);
    } else {
      MultipleFiner(j, q, k);
      WithinIff(g, k, i, j * Pow(10, q - k), 0);
    }
  }

  lemma NearestReal(g: Gen, k: int, i: Interval, d: int, m: nat, j: int)
    requires Matches(g, k, i) && g.Nearest(d, m) && i.Has(Multiple(j, k - m))
    ensures Abs(Multiple(d, k - m) - i.x) <= Abs(Multiple(j, k - m) - i.x)
  {
    hide RPow, Pow, Multiple, Den, Gen.Within, Gen.Distance, Abs;
    WithinIff(g, k, i, j, m);
    DistanceReal(g, k, i, d, m);
    DistanceReal(g, k, i, j, m);
    Cleared(Abs(Multiple(d, k - m) - i.x), Abs(Multiple(j, k - m) - i.x),
            Den(g, m), g.Distance(d, m), g.Distance(j, m), RPow(10, k));
  }

  lemma HalfEvenDistance(g: Gen, d: nat, m: nat)
    requires g.RoundedHalfEven(d, m)
    ensures 2 * g.Distance(d, m) <= g.s && (2 * g.Distance(d, m) == g.s ==> d % 2 == 0)
  {
  }

  lemma HalfEvenReal(g: Gen, k: int, i: Interval, d: nat, m: nat)
    requires Matches(g, k, i) && g.RoundedHalfEven(d, m)
    ensures RoundedAt(Multiple(d, k - m), i.x, k - m)
  {
    hide RPow, Pow, Multiple, Den, Abs, Gen.Distance, Gen.RoundedHalfEven;
    var y, c := Multiple(d, k - m), Den(g, m);
    HalfEvenDistance(g, d, m);
    DistanceReal(g, k, i, d, m);
    Place(g, k, d, m);
    Doubled(Abs(y - i.x), c, g.Distance(d, m), RPow(10, k));
    Cleared(2.0 * Abs(y - i.x), RPow(10, k - m), c, 2 * g.Distance(d, m), g.s, RPow(10, k));
    assert HalfEven(d, y, i.x, k - m);
  }

  lemma Doubled(a: real, c: real, n: int, t: real)
    requires a * c == n as real * t
    ensures (2.0 * a) * c == (2 * n) as real * t
  {
    RegroupThree(2.0, a, c);
    RegroupThree(2.0, n as real, t);
  }

  /** The first digit has the weight 10^k. */
  lemma FirstDigit(g: Gen, k: int, i: Interval)
    requires Matches(g, k, i) && g.s <= g.v < 10 * g.s
    ensures RPow(10, k) <= i.x < RPow(10, k + 1)
  {
    hide RPow;
    var t, c := RPow(10, k), g.s as real;
    RPowNext(10, k);
    RegroupThree(10.0, t, c);
    RegroupThree(10.0, c, t);
    Cleared(t, i.x, c, g.s, g.v, t);
    Cleared(i.x, 10.0 * t, c, g.v, 10 * g.s, t);
  }

  /** No decimal with as many digits is nearer: at this place or a coarser one by the choice of the last digit, at a
      finer one because the power of ten below x is in between. */
  lemma AsManyDigits(g: Gen, k: int, i: Interval, n: nat, d: int, j: int, q: int)
    requires Matches(g, k, i) && n >= 1 && g.Nearest(d, n - 1) && RPow(10, k) <= i.x && i.lo > 0.0 && i.hi > 0.0
    requires HasDigits(j, n) && i.Has(Multiple(j, q))
    ensures Abs(Multiple(d, k - (n - 1)) - i.x) <= Abs(Multiple(j, q) - i.x)
  {
    hide RPow, Pow, Multiple, Interval.Has, Matches, Gen.Nearest, Abs;
    var p := k - (n - 1);
    if q >= p {
      MultipleFiner(j, q, p);
      NearestReal(g, k, i, d, n - 1, j * Pow(10, q - p));
    } else {
      BelowPower(j, q, n, k);
      Between(i, Multiple(j, q), RPow(10, k));
      OnePower(k);
      MultipleFiner(1, k, p);
      NearestReal(g, k, i, d, n - 1, 1 * Pow(10, k - p));
    }
  }

  /** The result of the digit loop in reals, when the stopping tests ended it. */
  lemma ShortestReal(g: Gen, k: int, i: Interval, t: seq<Digit>, up: nat, n: nat, d: nat)
    requires Matches(g, k, i) && Printed(g, t, up, n, d, false) && g.s <= g.v < 10 * g.s && !g.BothEnds()
    requires 0.0 < i.lo < i.x && i.hi > 0.0
    ensures Shortest(t, k + 1 + up, i)
  {
    hide RPow, Pow, Multiple, Matches, Gen.Within, Gen.NoneShorter, Gen.Nearest, Abs, Interval.Has, Decimal, HasDigits;
    var y, decpt := Decimal(t, k + 1 + up), k + 1 + up;
    ReadsReal(t, n, up, d, k);
    WithinMultiple(g, k, i, d, n - 1);
    FirstDigit(g, k, i);
    if n > 1 {
      forall j: int, q: int | q > k - (n - 1) ensures !i.Has(Multiple(j, q)) {
        CoarserOutside(g, k, i, n, j, q);
      }
    }
    forall j: int, q: int | HasDigits(j, |t| - 1) ensures !i.Has(Multiple(j, q)) {
      FewerDigits(i, n, k, j, q);
    }
    forall j: int, q: int | HasDigits(j, |t|) && i.Has(Multiple(j, q)) ensures Abs(y - i.x) <= Abs(Multiple(j, q) - i.x) {
      AsManyDigits(g, k, i, n, d, j, q);
    }
  }

  lemma WithinMultiple(g: Gen, k: int, i: Interval, d: int, m: nat)
    requires Matches(g, k, i) && g.Within(d, m)
    ensures i.Has(Multiple(d, k - m))
  {
    WithinIff(g, k, i, d, m);
  }

  lemma RoundedReal(g: Gen, k: int, i: Interval, t: seq<Digit>, up: nat, n: nat, d: nat)
    requires Matches(g, k, i) && n >= 1 && ReadsAs(t, n, up, d) && g.RoundedHalfEven(d, n - 1)
    ensures RoundedAt(Decimal(t, k + 1 + up), i.x, k - (n - 1))
  {
    ReadsReal(t, n, up, d, k);
    HalfEvenReal(g, k, i, d, n - 1);
  }

  lemma ExactReal(g: Gen, k: int, i: Interval, d: nat, m: nat)
    requires Matches(g, k, i) && d * g.s == g.v * Pow(10, m)
    ensures Multiple(d, k - m) == i.x
  {
    hide RPow, Pow, Multiple, Den;
    DenPositive(g, m);
    var c := Den(g, m);
    Place(g, k, d, m);
    Bound(i.x, g.v, g, k, m);
    Cleared(Multiple(d, k - m), i.x, c, d * g.s, g.v * Pow(10, m), RPow(10, k));
  }

  /** A number that is a multiple of a coarser power of ten is rounded to itself. */
  lemma ExactRounds(j: int, q: int, x: real, place: int)
    requires x == Multiple(j, q) && place <= q
    ensures RoundedAt(x, x, place)
  {
    hide RPow, Multiple, Pow;
    MultipleFiner(j, q, place);
    assert HalfEven(j * Pow(10, q - place), x, x, place);
  }

  /** The number divided by a greater power of ten. */
  lemma CoarserMatch(v: nat, s: nat, x: real, k: int, n: nat)
    requires s > 0 && x * s as real == v as real * RPow(10, k)
    ensures Matches(Gen(v, s * Pow(10, n), 0, 0, false), k + n, Interval(x, 0.0, 0.0, false))
  {
    hide RPow, Pow;
    PowPositive(10, n);
    MulMono(1, s, 1, Pow(10, n));
    ProductReal(s, Pow(10, n));
    RPowIs(10, n);
    RPowAdd(10, k, n);
    RegroupThree(x, s as real, RPow(10, n));
    RegroupThree(v as real, RPow(10, k), RPow(10, n));
  }

  /** One digit or none, at the place asked for. */
  lemma AwayReal(v: nat, s: nat, x: real, k: int, lim: int, t: seq<Digit>, decpt: int, place: int)
    requires s > 0 && x * s as real == v as real * RPow(10, k) && RoundedAway(v, s, lim, t == [1]) && place == k + 1 - lim
    requires (t == [1] && decpt == place + 1) || (t == [] && decpt == place)
    ensures Rounded(t, decpt, x, place)
  {
    hide RPow, Pow, Gen.RoundedHalfEven, Matches;
    CoarserMatch(v, s, x, k, 1 - lim);
    var d := if t == [1] then 1 else 0;
    HalfEvenReal(Gen(v, s * Pow(10, 1 - lim), 0, 0, false), place, Interval(x, 0.0, 0.0, false), d, 0);
    SingleDigit(1);
  }

  /** There is only one number that x is rounded to. */
  lemma RoundedOnce(y: real, z: real, x: real, place: int)
    requires RoundedAt(y, x, place) && RoundedAt(z, x, place)
    ensures y == z
  {
    hide RPow;
    var c: int :| HalfEven(c, y, x, place);
    var d: int :| HalfEven(d, z, x, place);
    if c < d {
      NotBoth(c, d, y, z, x, place);
      assert false;
    } else if d < c {
      NotBoth(d, c, z, y, x, place);
      assert false;
    }
  }

  lemma StepsApart(c: int, d: int, p: real, y: real, z: real)
    requires c < d && p > 0.0 && y == c as real * p && z == d as real * p
    ensures if d == c + 1 then z - y == p else z - y >= 2.0 * p
  {
    var n := d - c;
    assert d as real == c as real + n as real;
    assert d as real * p - c as real * p == n as real * p;
    Scaled(2.0, n as real, p);
  }

  /** Two multiples are both nearest only if they are neighbours and x is halfway, and then one of them is odd. */
  lemma NotBoth(c: int, d: int, y: real, z: real, x: real, place: int)
    requires c < d && HalfEven(c, y, x, place)
    ensures !HalfEven(d, z, x, place)
  {
    hide RPow;
    if HalfEven(d, z, x, place) {
      StepsApart(c, d, RPow(10, place), y, z);
      assert false;
    }
  }

  /** Neither leading nor trailing zeros. */
  predicate Trimmed(t: seq<Digit>) {
    t == [] || (t[0] != 0 && t[|t| - 1] != 0)
  }

  /** The first digit has the weight 10^k. */
  ghost predicate Leads(x: real, k: int) {
    RPow(10, k) <= x < RPow(10, k + 1)
  }

  lemma SameFirstDigit(x: real, k: int, k': int)
    requires Leads(x, k) && Leads(x, k')
    ensures k == k'
  {
    hide RPow;
    if k < k' { RPowMono(10, k + 1, k'); }
    if k' < k { RPowMono(10, k' + 1, k); }
  }
}

/** What the paths of `dtoa` print for a double, in every mode. */
module Printing {
  import opened Bits
  import opened BigWords
  import opened Pow5s
  import opened Digits
  import opened DtoaLoop
  import opened Dtoa
  import opened DoubleBits
  import opened Decimals
  import opened SmallIntegers

  // ---- Doubles ----

  /** The value of a double, without its sign. */
  function DoubleValue(word0: Word, word1: Word): real {
    Significand(word0, word1) as real * RPow(2, Exponent(word0))
  }

  /** The estimate of the decimal exponent: right, or at most one too great where the code checks it. */
  ghost predicate Estimated(word0: Word, word1: Word, k0: int, kCheck: bool) {
    RPow(10, if kCheck then k0 - 1 else k0) <= DoubleValue(word0, word1) < RPow(10, k0 + 1)
  }

  lemma EstimatedFraction(v: nat, s: nat, x: real, k0: int, kCheck: bool)
    requires v as real * RPow(10, k0) == s as real * x && s > 0
    requires RPow(10, if kCheck then k0 - 1 else k0) <= x < RPow(10, k0 + 1)
    ensures v < 10 * s && if kCheck then s <= 10 * v else s <= v
  {
    hide RPow;
    var t, c := RPow(10, k0), s as real;
    RPowNext(10, k0);
    RPowNext(10, k0 - 1);
    TenLeft(x, t, c, v as real);
    Cleared(x, 10.0 * t, c, v, 10 * s, t);
    Cleared(t, x, c, s, v, t);
    Cleared(t, 10.0 * x, c, s, 10 * v, t);
    Scaled(RPow(10, k0 - 1), x, 10.0);
  }

  lemma TenLeft(x: real, t: real, c: real, v: real)
    requires v * t == c * x
    ensures x * c == v * t && t * c == c * t && (10.0 * t) * c == (10.0 * c) * t && (10.0 * x) * c == (10.0 * v) * t
  {
    RegroupThree(10.0, t, c);
    RegroupThree(10.0, c, t);
    RegroupThree(10.0, x, c);
    RegroupThree(10.0, v, t);
  }

  lemma PositiveDivisor(v: nat, s: nat, m: nat, e: int, k: int)
    requires Ratio(v, s, m, e, k)
    ensures s > 0
  {
    var b2: nat, b5: nat, s2: nat, s5: nat :|
      v == Num(m, b2, b5) && s == Num(1, s2, s5) && b2 - s2 == e - k && b5 - s5 == -k;
    PowPositive(5, s5);
    MulMono(1, Pow2(s2), 1, Pow(5, s5));
  }

  lemma EstimateIsGood(word0: Word, word1: Word, k0: int, kCheck: bool)
    requires Estimated(word0, word1, k0, kCheck)
    ensures GoodEstimate(Significand(word0, word1), Exponent(word0), k0, kCheck)
  {
    hide RPow, Ratio, Significand, Exponent;
    var m, e := Significand(word0, word1), Exponent(word0);
    forall v: nat, s: nat | Ratio(v, s, m, e, k0) ensures v < 10 * s && if kCheck then s <= 10 * v else s <= v {
      RatioReal(v, s, m, e, k0);
      PositiveDivisor(v, s, m, e, k0);
      EstimatedFraction(v, s, DoubleValue(word0, word1), k0, kCheck);
    }
  }

  /** The reals that are rounded to a double: half a unit in the last place to either side, a quarter below a
      power of two; the ends belong to it if its significand is even and they are asked for. */
  ghost function RoundingInterval(word0: Word, word1: Word, ends: bool): Interval {
    var half := RPow(2, Exponent(word0) - 1);
    Interval(DoubleValue(word0, word1), if IsPowerOfTwo(word0, word1) then RPow(2, Exponent(word0) - 2) else half, half,
             ends && word1 % 2 == 0)
  }

  lemma StandsMatches(g: Gen, word0: Word, word1: Word, ends: bool, m: nat, shift: nat, k: int)
    requires m * Pow2(shift) == Significand(word0, word1) && g.closed == (ends && word1 % 2 == 0)
    requires Stands(g, m, Exponent(word0) + shift, Exponent(word0) - 1, IsPowerOfTwo(word0, word1), k)
    ensures Matches(g, k, RoundingInterval(word0, word1, ends))
  {
    hide RPow, Pow, Pow2, Ratio, Significand, IsPowerOfTwo;
    var e := Exponent(word0);
    RatioReal(g.v, g.s, m, e + shift, k);
    RatioReal(g.hi, g.s, 1, e - 1, k);
    RatioReal(g.lo, g.s, 1, if IsPowerOfTwo(word0, word1) then e - 1 - 1 else e - 1, k);
    Pow2Is(shift);
    RPowIs(2, shift);
    RPowAdd(2, shift, e);
    ProductReal(m, Pow(2, shift));
    RegroupThree(m as real, RPow(2, shift), RPow(2, e));
    CommuteReal(DoubleValue(word0, word1), g.s as real);
    CommuteReal(RPow(2, e - 1), g.s as real);
    CommuteReal(RPow(2, e - 2), g.s as real);
  }

  lemma CommuteReal(a: real, b: real)
    ensures a * b == b * a && 1.0 * a == a
  {
  }

  lemma RatioMatches(v: nat, s: nat, word0: Word, word1: Word, m: nat, shift: nat, k: int)
    requires m * Pow2(shift) == Significand(word0, word1) && s > 0 && Ratio(v, s, m, Exponent(word0) + shift, k)
    ensures Matches(Gen(v, s, 0, 0, false), k, Interval(DoubleValue(word0, word1), 0.0, 0.0, false))
  {
    hide RPow, Pow, Pow2, Ratio, Significand;
    var e := Exponent(word0);
    RatioReal(v, s, m, e + shift, k);
    Pow2Is(shift);
    RPowIs(2, shift);
    RPowAdd(2, shift, e);
    ProductReal(m, Pow(2, shift));
    RegroupThree(m as real, RPow(2, shift), RPow(2, e));
    CommuteReal(DoubleValue(word0, word1), s as real);
  }

  /** The interval has its double inside and nothing that is not positive. */
  lemma IntervalAround(word0: Word, word1: Word, ends: bool)
    requires Significand(word0, word1) > 0
    ensures var i := RoundingInterval(word0, word1, ends); 0.0 < i.lo <= i.hi && i.lo < i.x
  {
    hide RPow, Significand, IsPowerOfTwo;
    var e := Exponent(word0);
    RPowNext(2, e - 1);
    RPowNext(2, e - 2);
    AtLeastOne(Significand(word0, word1), RPow(2, e), DoubleValue(word0, word1));
  }

  // ---- A nine between both ends ----

  lemma {:induction false} PowerOfTwoMod5(n: nat)
    ensures Pow(2, n) % 5 != 0
  {
    if n > 0 {
      PowerOfTwoMod5(n - 1);
      assert Pow(2, n) == 2 * Pow(2, n - 1);
    }
  }

  /** A power of two is not divisible by ten. */
  lemma NotDivisible(c: nat, n: nat, m: nat)
    requires m >= 1
    ensures c * Pow(10, m) != Pow(2, n)
  {
    hide Pow;
    PowerOfTwoMod5(n);
    PowNext(10, m - 1);
    FiveDivides(c, Pow(10, m));
  }

  lemma TooGreat(n: nat, q: nat)
    requires n >= 5
    ensures RPow(10, q) * Pow(2, n) as real >= 32.0
  {
    hide RPow, Pow;
    RPowMono(10, 0, q);
    RPowZero(10);
    AtLeast32(n);
    Scaled(1.0, RPow(10, q), Pow(2, n) as real);
  }

  /** A few half units of the smallest double are no power of ten. */
  lemma NoPowerOfTen(c: nat, n: nat, q: int)
    requires c <= 19 && n >= 5
    ensures c as real * RPow(2, 0 - n) != RPow(10, q)
  {
    hide RPow, Pow;
    if c as real * RPow(2, 0 - n) == RPow(10, q) {
      RPowAdd(2, 0 - n, n);
      RPowZero(2);
      RPowIs(2, n);
      RegroupThree(c as real, RPow(2, 0 - n), RPow(2, n));
      var p := Pow(2, n);
      assert c as real == RPow(10, q) * p as real;
      if q >= 0 {
        TooGreat(n, q);
      } else {
        RPowAdd(10, q, -q);
        RPowZero(10);
        RPowIs(10, -q);
        ProductReal(c, Pow(10, -q));
        Regroup(RPow(10, q), p as real, Pow(10, -q) as real);
        NotDivisible(c, n, -q);
      }
    }
  }

  lemma FiveDivides(c: nat, p: nat)
    requires p % 5 == 0
    ensures (c * p) % 5 == 0
  {
    assert c * p == 5 * (c * (p / 5));
  }

  lemma Regroup(r: real, p: real, t: real)
    requires r * t == 1.0
    ensures (r * p) * t == p
  {
    assert (r * p) * t == (r * t) * p;
  }

  lemma AtLeast32(n: nat)
    requires n >= 5
    ensures Pow(2, n) >= 32
    decreases n
  {
    if n > 5 {
      AtLeast32(n - 1);
    } else {
      assert Pow(2, 5) == 32;
    }
  }

  lemma SmallSignificand(word0: Word, word1: Word)
    requires Significand(word0, word1) <= 9
    ensures Exponent(word0) == -1074
  {
  }

  lemma HalfUnits(m: nat, h: real, x: real)
    requires h > 0.0 && x == m as real * (2.0 * h)
    ensures x + h == (2 * m + 1) as real * h && (x <= 19.0 * h ==> m <= 9)
  {
    RegroupReal(m as real, 2.0, h);
    assert x == (2 * m) as real * h;
    Scaled((2 * m) as real, 19.0, h);
  }

  /** The number and its upper margin make up ten, and the lower one reaches down to nine: few half units in all. */
  lemma EndsInReals(g: Gen, k: int, i: Interval)
    requires Matches(g, k, i) && g.BothEnds() && i.lo <= i.hi
    ensures i.x + i.hi == RPow(10, k + 1) && i.x <= 19.0 * i.hi
  {
    hide RPow;
    var t, c := RPow(10, k), g.s as real;
    RPowNext(10, k);
    Cleared(i.lo, i.hi, c, g.lo, g.hi, t);
    RegroupThree(10.0, t, c);
    RegroupThree(10.0, c, t);
    RegroupThree(19.0, i.hi, c);
    RegroupThree(19.0, g.hi as real, t);
    assert (i.x + i.hi) * c == (g.v + g.hi) as real * t;
    Cleared(i.x + i.hi, 10.0 * t, c, g.v + g.hi, 10 * g.s, t);
    Cleared(10.0 * t, i.x + i.hi, c, 10 * g.s, g.v + g.hi, t);
    Cleared(i.x, 19.0 * i.hi, c, g.v, 19 * g.hi, t);
  }

  /** No double is between both ends, so a nine that is rounded up always goes to the nearest decimal. */
  lemma NotBothEnds(g: Gen, k: int, word0: Word, word1: Word, ends: bool)
    requires Significand(word0, word1) > 0 && Matches(g, k, RoundingInterval(word0, word1, ends))
    ensures !g.BothEnds()
  {
    hide RPow, Significand, Exponent, IsPowerOfTwo, Matches, Gen.BothEnds;
    var i := RoundingInterval(word0, word1, ends);
    IntervalAround(word0, word1, ends);
    if g.BothEnds() {
      var m := Significand(word0, word1);
      EndsInReals(g, k, i);
      RPowNext(2, Exponent(word0) - 1);
      HalfUnits(m, i.hi, i.x);
      SmallSignificand(word0, word1);
      NoPowerOfTen(2 * m + 1, 1075, k + 1);
      assert false;
    }
  }

  // ---- What is printed ----

  /** What a mode promises for the double i.x with the rounding interval i, whose first digit has the weight 10^k: the
      shortest decimal that is read back as the double (0 and 1); the double rounded half-even at the place asked for,
      be it left of the first digit (2 and 3); or the shortest decimal if it does not reach below that place, otherwise
      the double rounded (4 and 5). */
  ghost predicate Prints(mode: nat, place: int, t: seq<Digit>, decpt: int, k: int, i: Interval) {
    if mode <= 1 then Shortest(t, decpt, i)
    else if mode >= 4 && place <= k && InInterval(i, place) then Shortest(t, decpt, i) && decpt - |t| >= place
    else Rounded(t, decpt, i.x, place)
  }

  /** Some multiple of 10^place is in the interval. */
  ghost predicate InInterval(i: Interval, place: int) {
    exists j: int :: i.Has(Multiple(j, place))
  }

  lemma NoneAtLimit(g: Gen, k: int, i: Interval, n: nat)
    requires Matches(g, k, i) && n >= 1 && g.NoneShorter(n)
    ensures !InInterval(i, k + 1 - n)
  {
    hide RPow, Gen.Within, Matches, Interval.Has, Multiple;
    var place := k + 1 - n;
    forall j: int ensures !i.Has(Multiple(j, place)) {
      WithinIff(g, k, i, j, n - 1);
    }
  }

  lemma PlaceReached(i: Interval, j: int, q: int, place: int)
    requires i.Has(Multiple(j, q)) && place <= q
    ensures InInterval(i, place)
  {
    hide RPow, Interval.Has, Multiple;
    MultipleFiner(j, q, place);
  }

  /** The result of modes 0, 1, 4 and 5 on the arbitrary-precision path keeps the promise. */
  lemma GeneratedPrints(t: seq<Digit>, decpt: int, n: nat, end: Ending, g: Gen, k: int, d: nat, mode: nat, ndigits: int,
                        i: Interval)
    requires mode in {0, 1, 4, 5} && Generated(t, decpt, n, end, g, k, d, mode, ndigits) && Matches(g, k, i)
    requires g.s <= g.v < 10 * g.s && !g.BothEnds() && 0.0 < i.lo < i.x && i.hi > 0.0
    ensures Prints(mode, k + 1 - Limit(mode, ndigits, k), t, decpt, k, i)
  {
    hide RPow, Pow, Matches, Shortest, Decimal, RoundedAt, Gen.NoneShorter, Gen.RoundedHalfEven, RoundedAway, Stopped;
    hide Multiple, ReadsAs, InInterval, Interval.Has;
    var lim, up := Limit(mode, ndigits, k), decpt - k - 1;
    match end {
      case NoDigits =>
        MatchesNumber(g, k, i);
        AwayReal(g.v, g.s, i.x, k, lim, t, decpt, k + 1 - lim);
      case AtLimit =>
        NoneAtLimit(g, k, i, n);
        RoundedReal(g, k, i, t, up, n, d);
      case Short =>
        ShortestReal(g, k, i, t, up, n, d);
        if mode >= 4 {
          InsideAt(g, k, i, n, d, t, up);
          PlaceReached(i, d, k - (n - 1), k + 1 - lim);
        }
    }
  }

  lemma MatchesNumber(g: Gen, k: int, i: Interval)
    requires Matches(g, k, i)
    ensures g.s > 0 && i.x * g.s as real == g.v as real * RPow(10, k)
  {
  }

  lemma InsideAt(g: Gen, k: int, i: Interval, n: nat, d: nat, t: seq<Digit>, up: nat)
    requires Matches(g, k, i) && Printed(g, t, up, n, d, false)
    ensures i.Has(Multiple(d, k - (n - 1)))
  {
    WithinMultiple(g, k, i, d, n - 1);
  }

  /** The result of modes 2 and 3 on the arbitrary-precision path keeps the promise. */
  lemma FixedPrints(t: seq<Digit>, decpt: int, n: nat, v: nat, s: nat, k: int, d: nat, mode: nat, ndigits: int, i: Interval)
    requires mode in {2, 3} && FixedResult(t, decpt, n, v, s, k, d, mode, ndigits)
    requires s > 0 && i.x * s as real == v as real * RPow(10, k)
    ensures Prints(mode, k + 1 - Limit(mode, ndigits, k), t, decpt, k, i)
  {
    hide RPow, Pow, Matches, Decimal, RoundedAt, Gen.RoundedHalfEven, RoundedAway, Multiple, ReadsAs;
    var lim, up := Limit(mode, ndigits, k), decpt - k - 1;
    if lim <= 0 {
      AwayReal(v, s, i.x, k, lim, t, decpt, k + 1 - lim);
    } else {
      var g, i' := Gen(v, s, 0, 0, false), Interval(i.x, 0.0, 0.0, false);
      NumberMatches(v, s, i.x, k);
      if n < lim {
        ReadsReal(t, n, up, d, k);
        ExactReal(g, k, i', d, n - 1);
        ExactRounds(d, k - (n - 1), i.x, k + 1 - lim);
      } else {
        RoundedReal(g, k, i', t, up, n, d);
      }
    }
  }

  lemma NumberMatches(v: nat, s: nat, x: real, k: int)
    requires s > 0 && x * s as real == v as real * RPow(10, k)
    ensures Matches(Gen(v, s, 0, 0, false), k, Interval(x, 0.0, 0.0, false))
  {
  }

  /** Modes 0, 1, 4 and 5 on the arbitrary-precision path. */
  method PrintShortest(word0: Word, word1: Word, k0: int, kCheck: bool, mode: nat, ndigits: int)
    returns (t: seq<Digit>, decpt: int, ghost k: int)
    requires Significand(word0, word1) > 0 && Estimated(word0, word1, k0, kCheck) && mode in {0, 1, 4, 5}
    ensures Leads(DoubleValue(word0, word1), k) && Trimmed(t)
    ensures Prints(mode, k + 1 - Limit(mode, ndigits, k), t, decpt, k, RoundingInterval(word0, word1, mode != 1))
  {
    hide RPow, Pow, Pow2, Matches, Ratio, GoodEstimate, Estimated, Prints, Significand, Gen.BothEnds, RoundedAway;
    hide Stopped, ReadsAs, Gen.NoneShorter, Gen.RoundedHalfEven;
    ghost var n, end, g, d, m, shift;
    EstimateIsGood(word0, word1, k0, kCheck);
    t, decpt, n, end, g, k, d, m, shift := DoubleDigits(word0, word1, k0, kCheck, mode, ndigits);
    ghost var i := RoundingInterval(word0, word1, mode != 1);
    StandsMatches(g, word0, word1, mode != 1, m, shift, k);
    NotBothEnds(g, k, word0, word1, mode != 1);
    IntervalAround(word0, word1, mode != 1);
    FirstDigit(g, k, i);
    GeneratedPrints(t, decpt, n, end, g, k, d, mode, ndigits, i);
  }

  /** Modes 2 and 3 on the arbitrary-precision path. */
  method PrintRounded(word0: Word, word1: Word, k0: int, kCheck: bool, mode: nat, ndigits: int)
    returns (t: seq<Digit>, decpt: int, ghost k: int)
    requires Significand(word0, word1) > 0 && Estimated(word0, word1, k0, kCheck) && mode in {2, 3}
    ensures Leads(DoubleValue(word0, word1), k) && Trimmed(t)
    ensures Prints(mode, k + 1 - Limit(mode, ndigits, k), t, decpt, k, RoundingInterval(word0, word1, true))
  {
    hide RPow, Pow, Pow2, PowB, Value, Matches, Ratio, GoodEstimate, Estimated, Prints, Significand, RoundedAway;
    hide ReadsAs, Gen.RoundedHalfEven;
    var b, e, bits;
    ghost var shift, n, v, sv, d;
    b, e, bits, shift := D2B(word0, word1);
    ghost var m := b.Val();
    EstimateIsGood(word0, word1, k0, kCheck);
    EstimateCarries(Significand(word0, word1), Exponent(word0), k0, kCheck, m, shift);
    t, decpt, n, v, sv, k, d := RoundedDigits(b, e, bits, ExponentField(word0) == 0, k0, kCheck, mode, ndigits);
    RatioMatches(v, sv, word0, word1, m, shift, k);
    ghost var x := DoubleValue(word0, word1);
    FirstDigit(Gen(v, sv, 0, 0, false), k, Interval(x, 0.0, 0.0, false));
    MatchesNumber(Gen(v, sv, 0, 0, false), k, Interval(x, 0.0, 0.0, false));
    FixedPrints(t, decpt, n, v, sv, k, d, mode, ndigits, RoundingInterval(word0, word1, true));
  }

  // ---- Integers below 10^15 ----

  /** Below 10^15 the rounding interval of a double reaches less than one to either side. */
  lemma LessThanOne(word0: Word, word1: Word, ends: bool)
    requires DoubleValue(word0, word1) < RPow(10, 15)
    ensures RoundingInterval(word0, word1, ends).hi < 1.0
  {
    hide RPow, Significand, IsPowerOfTwo;
    var e, m := Exponent(word0), Significand(word0, word1);
    if e >= 0 {
      NormalSignificand(word0, word1);
      RPowMono(2, 0, e);
      RPowZero(2);
      Scaled(1.0, RPow(2, e), m as real);
      TenTo15();
      assert false;
    }
    RPowMono(2, e - 1, -1);
    RPowNext(2, -1);
    RPowZero(2);
  }

  lemma NormalSignificand(word0: Word, word1: Word)
    requires Exponent(word0) >= 0
    ensures Significand(word0, word1) >= 0x10_0000_0000_0000
  {
  }

  lemma TenTo15()
    ensures RPow(10, 15) == 1000000000000000.0
  {
    hide Pow;
    assert Pow(10, 5) == 100000 by { PowTo5(); }
    PowAdd(10, 5, 5);
    PowAdd(10, 10, 5);
    RPowIs(10, 15);
  }

  lemma PowTo5()
    ensures Pow(10, 5) == 100000
  {
    PowNext(10, 4);
    PowNext(10, 3);
    PowNext(10, 2);
    PowNext(10, 1);
    PowNext(10, 0);
  }

  /** The only integer in the interval around an integer is that integer. */
  lemma SameInteger(i: Interval, u: int, j: int, q: nat)
    requires i.x == u as real && i.lo <= i.hi < 1.0 && i.Has(Multiple(j, q))
    ensures j * Pow(10, q) == u
  {
    hide RPow, Pow;
    MultipleFiner(j, q, 0);
    RPowZero(10);
    assert Multiple(j * Pow(10, q), 0) == (j * Pow(10, q)) as real;
  }

  lemma CommonFactor(a: int, b: int, p: int)
    requires p > 0 && a * p == b * p
    ensures a == b
  {
    if a < b { MulStrictInt(a, b, p); }
    if a > b { MulStrictInt(b, a, p); }
  }

  lemma MulStrictInt(a: int, b: int, p: int)
    requires a < b && p > 0
    ensures a * p < b * p
  {
    assert (b - a) * p > 0;
  }

  /** An integer with its own digits: no coarser decimal is in the interval. */
  lemma IntegerNotCoarser(i: Interval, u: nat, t: seq<Digit>, place: nat, j: int, q: int)
    requires i.x == u as real && i.lo <= i.hi < 1.0 && |t| >= 1 && t[|t| - 1] != 0 && DigVal(t) * Pow(10, place) == u
    requires q > place
    ensures !i.Has(Multiple(j, q))
  {
    hide RPow, Pow, DigVal, Multiple;
    if i.Has(Multiple(j, q)) {
      SameInteger(i, u, j, q);
      var f, p := Pow(10, q - place), Pow(10, place);
      PowAdd(10, q - place, place);
      Associate2(j, f, p);
      PowPositive(10, place);
      CommonFactor(DigVal(t), j * f, p);
      PowNext(10, q - place - 1);
      TenDivides(j, f, Pow(10, q - place - 1));
      LastOf(t);
    }
  }

  lemma Associate2(j: int, f: int, p: int)
    ensures j * (f * p) == (j * f) * p
  {
  }

  lemma TenDivides(j: int, f: int, f': int)
    requires f == 10 * f'
    ensures (j * f) % 10 == 0
  {
    assert j * f == 10 * (j * f');
  }

  /** An integer with its own digits is the shortest decimal in its interval. */
  lemma IntegerShortest(i: Interval, u: nat, k: nat, t: seq<Digit>)
    requires i.x == u as real && 0.0 < i.lo <= i.hi < 1.0 && i.lo < i.x && Leads(i.x, k)
    requires 1 <= |t| <= k + 1 && t[|t| - 1] != 0 && DigVal(t) * Pow(10, k + 1 - |t|) == u
    ensures Shortest(t, k + 1, i) && Decimal(t, k + 1) == i.x
  {
    hide RPow, Pow, DigVal, Multiple, Interval.Has, HasDigits;
    var place := k + 1 - |t|;
    RPowIs(10, place);
    ProductReal(DigVal(t), Pow(10, place));
    assert Decimal(t, k + 1) == i.x;
    forall j: int, q: int | q > place ensures !i.Has(Multiple(j, q)) {
      IntegerNotCoarser(i, u, t, place, j, q);
    }
    forall j: int, q: int | HasDigits(j, |t| - 1) ensures !i.Has(Multiple(j, q)) {
      FewerDigits(i, |t|, k, j, q);
    }
    Between(i, i.x, i.x);
  }

  /** The integer is the digits at their place. */
  lemma OwnDigits(u: nat, k: nat, t: seq<Digit>, n: nat, d: nat)
    requires 1 <= |t| == n <= k + 1 && ReadsAs(t, n, 0, d) && d * Pow(10, k) == u * Pow(10, n - 1)
    ensures DigVal(t) * Pow(10, k + 1 - n) == u
  {
    hide Pow, DigVal;
    var p, f := Pow(10, k + 1 - n), Pow(10, n - 1);
    Pow10Of0();
    PowAdd(10, k + 1 - n, n - 1);
    Associate2(d, p, f);
    PowPositive(10, n - 1);
    CommonFactor(d * p, u, f);
  }

  /** With digits left over, no integer multiple of the last place is in the interval. */
  lemma NoneAtPlace(i: Interval, u: nat, k: nat, n: nat)
    requires i.x == u as real && i.lo <= i.hi < 1.0 && 1 <= n <= k + 1 && !Ends(u, k, n)
    ensures !InInterval(i, k + 1 - n)
  {
    hide RPow, Pow, Multiple, Interval.Has;
    assert n == k + 1 ==> u * Pow(10, k) == u * Pow(10, n - 1);
    var place := k + 1 - n;
    forall j: int ensures !i.Has(Multiple(j, place)) {
      if i.Has(Multiple(j, place)) {
        SameInteger(i, u, j, place);
        PowAdd(10, place, n - 1);
        Associate2(j, Pow(10, place), Pow(10, n - 1));
      }
    }
  }

  lemma IntegerMatches(u: nat, k: nat)
    ensures Matches(IntegerGen(u, k), k, Interval(u as real, 0.0, 0.0, false))
  {
    hide RPow, Pow;
    RPowIs(10, k);
    PowPositive(10, k);
  }

  /** The small-integer path keeps the promise of every mode. */
  lemma IntegerPrints(u: nat, k: nat, t: seq<Digit>, decpt: int, n: nat, d: nat, end: Ending, mode: nat, ndigits: int,
                      i: Interval)
    requires mode <= 5 && IntegerResult(u, k, t, decpt, n, d, end, mode, Limit(mode, ndigits, k), ndigits)
    requires i.x == u as real && 0.0 < i.lo <= i.hi < 1.0 && i.lo < i.x && Leads(i.x, k)
    ensures Prints(mode, k + 1 - Limit(mode, ndigits, k), t, decpt, k, i)
  {
    hide RPow, Pow, DigVal, Matches, Shortest, RoundedAt, Gen.RoundedHalfEven, RoundedAway, Multiple, ReadsAs;
    hide InInterval, Interval.Has, Ends, ZeroStays, Leads, Decimal;
    var lim, up, g, i' := Limit(mode, ndigits, k), decpt - k - 1, IntegerGen(u, k), Interval(i.x, 0.0, 0.0, false);
    IntegerMatches(u, k);
    match end {
      case NoDigits =>
        MatchesNumber(g, k, i');
        AwayReal(u, Pow(10, k), i.x, k, lim, t, decpt, k + 1 - lim);
      case AtLimit =>
        NoneAtPlace(i, u, k, n);
        RoundedReal(g, k, i', t, up, n, d);
      case Short =>
        OwnDigits(u, k, t, n, d);
        IntegerShortest(i, u, k, t);
        if mode >= 2 {
          ReadsReal(t, n, 0, d, k);
          ExactRounds(d, k - (n - 1), i.x, k + 1 - lim);
        }
    }
  }
}

/** The quick path of `dtoa`: up to 14 digits in double arithmetic. */
module QuickPath {
  import opened Pow5s
  import opened Digits
  import opened Decimals
  import opened Floats
  import opened Scaling

  const QUICK_MAX: int := 14

  // ---- What the digits so far mean ----

  ghost function Tens(n: nat): (t: real)
    ensures t >= 1.0
  {
    PowPositive(10, n);
    Pow(10, n) as real
  }

  lemma TensNext(n: nat)
    ensures Tens(n + 1) == 10.0 * Tens(n) && Tens(0) == 1.0
  {
    hide Pow;
    PowNext(10, n);
    ProductReal(10, Pow(10, n));
  }

  lemma TensBound(n: nat)
    requires n <= 13
    ensures 1.0 <= Tens(n) <= 10000000000000.0
  {
    hide Pow;
    PowMonoExp(10, n, 13);
    assert Pow(10, 13) == 10000000000000 by {
      assert Pow(10, 4) == 10000 by { PowNext(10, 3); PowNext(10, 2); PowNext(10, 1); PowNext(10, 0); }
      PowAdd(10, 4, 4);
      PowAdd(10, 8, 4);
      PowNext(10, 12);
    }
  }

  /** What is left of v after some digits, ten times enlarged for each. */
  ghost function Rest(v: real, digits: seq<Digit>): real {
    v * Tens(|digits|) - 10.0 * DigVal(digits) as real
  }

  /** The same right after the last digit was taken. */
  ghost function After(v: real, digits: seq<Digit>): real
    requires |digits| >= 1
  {
    v * Tens(|digits| - 1) - DigVal(digits) as real
  }

  lemma RestStep(v: real, digits: seq<Digit>, dig: Digit)
    ensures After(v, digits + [dig]) == Rest(v, digits) - dig as real
    ensures Rest(v, digits + [dig]) == 10.0 * After(v, digits + [dig])
  {
    hide Tens, DigVal;
    DigAppend(digits, dig);
    TensNext(|digits|);
    RegroupReal(10.0, v, Tens(|digits|));
  }

  lemma RestFirst(v: real)
    ensures Rest(v, []) == v
  {
    TensNext(0);
    assert DigVal([]) == 0;
  }

  /** u is what is left of v, up to an error that grows tenfold with each digit. */
  ghost predicate Tracks(u: real, v: real, digits: seq<Digit>, err: real) {
    IsDouble(u) && 0.0 <= u < 10.0 && Abs(u - Rest(v, digits)) <= err - 2.0 * H && (digits == [] ==> u >= 1.0)
  }

  /** The integer part is the next digit. */
  lemma NextDigit(fl: real -> real, u: real, v: real, digits: seq<Digit>, err: real)
    requires Rounds(fl) && Tracks(u, v, digits, err)
    ensures 0 <= u.Floor <= 9 && (digits == [] ==> u.Floor >= 1)
    ensures var f := u - u.Floor as real;
      0.0 <= f < 1.0 && IsDouble(f) && fl(f) == f && Abs(f - After(v, digits + [u.Floor])) <= err - 2.0 * H
  {
    hide Rounds, IsDouble, Rest, After;
    FractionIsDouble(u);
    ExactFloat(fl, u - u.Floor as real);
    RestStep(v, digits, u.Floor);
  }

  /** The fraction times ten is still below ten. */
  lemma TenTimesBelow(fl: real -> real, f: real)
    requires Rounds(fl) && IsDouble(f) && 0.0 <= f < 1.0
    ensures var u := Mul(fl, f, 10.0); IsDouble(u) && 0.0 <= u < 10.0 && Abs(u - 10.0 * f) <= 10.0 * H
  {
    hide Rounds, IsDouble, Mul;
    var z := f * 10.0;
    MulIs(fl, f, 10.0, z);
    IsRounded(fl, z);
    SmallIsDouble(10);
    SmallIsDouble(1);
    ZeroIsDouble();
    ExactFloat(fl, 10.0);
    ExactFloat(fl, 0.0);
    MonoFloat(fl, z, 10.0);
    MonoFloat(fl, 0.0, z);
    DoublesApart(f, 1.0);
    BelowTenIsDouble();
    RoundsTo(fl, z, 10.0 - 16.0 * H);
    if f > 0.0 {
      MultipleFloat(fl, f, 10.0, z);
    }
  }

  /** The double before ten. */
  lemma BelowTenIsDouble()
    ensures IsDouble(10.0 - 16.0 * H)
  {
    hide RPow, Pow;
    PowersOfTwo();
    RPowNext(2, -52);
    RPowNext(2, -51);
    RPowNext(2, -50);
    assert Float(5629499534213119, -49) == 10.0 - 16.0 * H;
  }

  lemma Advanced(fl: real -> real, u: real, v: real, digits: seq<Digit>, err: real)
    requires Rounds(fl) && Tracks(u, v, digits, err)
    requires 0 <= u.Floor <= 9
    ensures Tracks(Mul(fl, u - u.Floor as real, 10.0), v, digits + [u.Floor], 10.0 * err)
  {
    hide Rounds, IsDouble, Rest, After, Mul;
    var f := u - u.Floor as real;
    NextDigit(fl, u, v, digits, err);
    TenTimesBelow(fl, f);
    RestStep(v, digits, u.Floor);
  }

  // ---- Modes 4 and 5 ----

  /** The threshold e is small enough, whatever the error err is, for a rest below it to be less than tc; t is 10^i, and
      some room is left for the roundings of e to come. */
  ghost predicate Threshold(e: real, tc: real, err: real, t: real, i: nat) {
    IsDouble(e) && (e <= 0.0 || e <= tc - err - t * ((14 - i) as real * (H / 2.0)))
  }

  lemma ThresholdFirst(fl: real -> real, c: real, eps: real, err: real)
    requires Rounds(fl) && 0.0 < c <= 0.5 && eps >= err + 10.0 * H && err >= 0.0
    ensures Threshold(fl(fl(c) - eps), c, err, 1.0, 0)
  {
    hide Rounds, IsDouble, Least;
    var z := fl(c) - eps;
    NearFloat(fl, c);
    NearFloat(fl, z);
    IsRounded(fl, z);
    ZeroIsDouble();
    ExactFloat(fl, 0.0);
    if z <= 0.0 { MonoFloat(fl, z, 0.0); }
  }

  lemma ThresholdNext(fl: real -> real, e: real, tc: real, err: real, t: real, i: nat)
    requires Rounds(fl) && Threshold(e, tc, err, t, i) && i < 14 && 0.0 <= err && t >= 1.0 && tc <= 0.5 * t
    ensures Threshold(Mul(fl, e, 10.0), 10.0 * tc, 10.0 * err, 10.0 * t, i + 1)
  {
    hide Rounds, IsDouble, Mul;
    var z := e * 10.0;
    MulIs(fl, e, 10.0, z);
    IsRounded(fl, z);
    if e <= 0.0 {
      ZeroIsDouble();
      ExactFloat(fl, 0.0);
      MonoFloat(fl, z, 0.0);
    } else {
      MultipleFloat(fl, e, 10.0, z);
      RoomLeft(t, i);
    }
  }

  lemma RoomLeft(t: real, i: nat)
    requires i < 14 && t >= 1.0
    ensures t * ((14 - i) as real * (H / 2.0)) >= 0.0
    ensures 10.0 * (t * ((14 - i) as real * (H / 2.0))) == (10.0 * t) * ((14 - (i + 1)) as real * (H / 2.0)) + 5.0 * t * H
  {
    var r, q := (14 - i) as real, (14 - (i + 1)) as real;
    assert r == q + 1.0;
    var h := H / 2.0;
    assert r * h == q * h + h;
    NotNegative(t, r * h);
    assert t * (q * h + h) == t * (q * h) + t * h;
  }

  /** Stopping with the digits as they are. */
  lemma StopsLow(f: real, r: real, e: real, tc: real, err: real, t: real, i: nat)
    requires Threshold(e, tc, err, t, i) && i < 14 && t >= 1.0 && 0.0 <= f < e && Abs(f - r) <= err - 2.0 * H
    ensures Abs(r) < tc
  {
    hide IsDouble;
    RoomLeft(t, i);
  }

  /** Stopping with one unit more. */
  lemma StopsHigh(fl: real -> real, f: real, r: real, e: real, tc: real, err: real, t: real, i: nat)
    requires Rounds(fl) && Threshold(e, tc, err, t, i) && i < 14 && t >= 1.0
    requires 0.0 <= f < 1.0 && fl(1.0 - f) < e && Abs(f - r) <= err - 2.0 * H
    ensures Abs(r - 1.0) < tc
  {
    hide Rounds, IsDouble;
    RoomLeft(t, i);
    NearFloat(fl, 1.0 - f);
    ZeroIsDouble();
    ExactFloat(fl, 0.0);
    MonoFloat(fl, 0.0, 1.0 - f);
  }

  /** The decimal d with m places after its first digit is v up to less than half a unit of digit `ilim`. */
  ghost predicate NearBy(v: real, d: nat, m: nat, ilim: nat)
    requires ilim >= 1
  {
    Abs(v * Tens(m) - d as real) * (2.0 * Tens(ilim - 1)) < Tens(m)
  }

  /** What the quick path finds: at most `ilim` digits without trailing zeros, less than half a unit away. */
  ghost predicate Hit(v: real, t: seq<Digit>, up: nat, n: nat, d: nat, ilim: nat) {
    && 1 <= |t| <= n <= ilim && up <= 1 && ReadsAs(t, n, up, d) && t[0] != 0 && t[|t| - 1] != 0 && NearBy(v, d, n - 1, ilim)
  }

  lemma Near(v: real, digits: seq<Digit>, d: nat, r: real, tc: real, ilim: nat)
    requires 1 <= |digits| <= ilim && r == After(v, digits) - (d - DigVal(digits)) as real && Abs(r) < tc
    requires tc * (2.0 * Tens(ilim - 1)) == Tens(|digits| - 1)
    ensures NearBy(v, d, |digits| - 1, ilim)
  {
    hide Tens, DigVal;
    assert v * Tens(|digits| - 1) - d as real == r;
    Scaled(Abs(r), tc, 2.0 * Tens(ilim - 1));
  }

  /** Half a unit of the last digit, seen from the first. */
  ghost function Half(ilim: nat): real
    requires ilim >= 1
  {
    0.5 / Tens(ilim - 1)
  }

  /** An error after i digits. */
  ghost function Grown(a: real, i: nat): real {
    a * Tens(i)
  }

  lemma GrownNext(a: real, i: nat)
    ensures Grown(a, i + 1) == 10.0 * Grown(a, i) && Grown(a, 0) == a && (a >= 0.0 ==> Grown(a, i) >= 0.0)
  {
    hide Tens;
    TensNext(i);
    RegroupReal(10.0, a, Tens(i));
    if a >= 0.0 { NotNegative(a, Tens(i)); }
  }

  /** The loop of modes 4 and 5 before the next digit. */
  ghost predicate Turn(u: real, e: real, v: real, digits: seq<Digit>, ilim: nat, err0: real) {
    var i := |digits|;
    && i < ilim <= QUICK_MAX && err0 >= 0.0 && (i > 0 ==> u >= e && digits[0] != 0)
    && Tracks(u, v, digits, Grown(err0, i)) && Threshold(e, Grown(Half(ilim), i), Grown(err0, i), Tens(i), i)
  }

  lemma TurnFirst(fl: real -> real, u: real, eps: real, v: real, ilim: nat, err0: real)
    requires Rounds(fl) && Tracks(u, v, [], err0) && 1 <= ilim <= QUICK_MAX && eps >= err0 + 10.0 * H
    ensures Turn(u, fl(fl(0.5 / RPow(10, ilim - 1)) - eps), v, [], ilim, err0)
  {
    hide Rounds, IsDouble, Grown, Tens, Threshold;
    HalfUnit(ilim);
    ErrorPositive(u, v, [], err0);
    ThresholdFirst(fl, Half(ilim), eps, err0);
    TensNext(0);
    GrownNext(err0, 0);
    GrownNext(Half(ilim), 0);
  }

  lemma TurnDigit(fl: real -> real, u: real, e: real, v: real, digits: seq<Digit>, ilim: nat, err0: real)
    requires Rounds(fl) && Turn(u, e, v, digits, ilim, err0)
    ensures 0 <= u.Floor <= 9 && (digits + [u.Floor])[0] != 0 && |digits| < ilim
    ensures var f := u - u.Floor as real; 0.0 <= f < 1.0 && fl(f) == f && (f < e ==> u.Floor != 0)
  {
    hide Rounds, IsDouble, Grown, Tens, Threshold, Tracks, After;
    NextDigit(fl, u, v, digits, Grown(err0, |digits|));
  }

  lemma TurnLow(fl: real -> real, u: real, e: real, v: real, digits: seq<Digit>, ilim: nat, err0: real, digits': seq<Digit>)
    requires Rounds(fl) && Turn(u, e, v, digits, ilim, err0) && u - u.Floor as real < e
    requires 0 <= u.Floor <= 9 && digits' == digits + [u.Floor]
    ensures Hit(v, digits', 0, |digits'|, DigVal(digits'), ilim)
  {
    hide Rounds, IsDouble, Grown, Tens, Threshold, Tracks, After, NearBy, ReadsAs, DigVal, Half, Abs;
    var i, f, r := |digits|, u - u.Floor as real, After(v, digits');
    TurnDigit(fl, u, e, v, digits, ilim, err0);
    NextDigit(fl, u, v, digits, Grown(err0, i));
    StopsLow(f, r, e, Grown(Half(ilim), i), Grown(err0, i), Tens(i), i);
    HalfScaled(ilim, i);
    Near(v, digits', DigVal(digits'), r, Grown(Half(ilim), i), ilim);
    ReadsItself(digits');
  }

  lemma TurnHigh(fl: real -> real, u: real, e: real, v: real, digits: seq<Digit>, ilim: nat, err0: real, digits': seq<Digit>,
                 t: seq<Digit>, up: nat)
    requires Rounds(fl) && Turn(u, e, v, digits, ilim, err0) && fl(1.0 - (u - u.Floor as real)) < e
    requires 0 <= u.Floor <= 9 && digits' == digits + [u.Floor]
    requires ReadsAs(t, |digits'|, up, DigVal(digits') + 1) && up <= 1 && (up == 1 ==> t == [1]) && t[0] != 0 && t[|t| - 1] != 0
    ensures Hit(v, t, up, |digits'|, DigVal(digits') + 1, ilim)
  {
    hide Rounds, IsDouble, Grown, Tens, Threshold, Tracks, After, NearBy, DigVal, Half, Abs, ReadsAs;
    var i, f, r := |digits|, u - u.Floor as real, After(v, digits');
    NextDigit(fl, u, v, digits, Grown(err0, i));
    StopsHigh(fl, f, r, e, Grown(Half(ilim), i), Grown(err0, i), Tens(i), i);
    HalfScaled(ilim, i);
    Near(v, digits', DigVal(digits') + 1, r - 1.0, Grown(Half(ilim), i), ilim);
    RoundOffShort(digits', t, up);
  }

  lemma TurnNext(fl: real -> real, u: real, e: real, v: real, digits: seq<Digit>, ilim: nat, err0: real)
    requires Rounds(fl) && Turn(u, e, v, digits, ilim, err0) && u - u.Floor as real >= e && |digits| + 1 < ilim
    requires 0 <= u.Floor <= 9
    ensures Turn(Mul(fl, u - u.Floor as real, 10.0), Mul(fl, e, 10.0), v, digits + [u.Floor], ilim, err0)
  {
    hide Rounds, IsDouble, Grown, Tens, Threshold, Tracks, Mul, Half;
    var i, err, tc := |digits|, Grown(err0, |digits|), Grown(Half(ilim), |digits|);
    TurnDigit(fl, u, e, v, digits, ilim, err0);
    HalfScaled(ilim, i);
    GrownNext(err0, i);
    GrownNext(Half(ilim), i);
    ThresholdNext(fl, e, tc, err, Tens(i), i);
    Advanced(fl, u, v, digits, err);
    StillAbove(fl, u - u.Floor as real, e);
    TensNext(i);
  }

  lemma HalfScaled(ilim: nat, i: nat)
    requires ilim >= 1
    ensures Grown(Half(ilim), i) <= 0.5 * Tens(i) && Grown(Half(ilim), i) * (2.0 * Tens(ilim - 1)) == Tens(i)
  {
    hide Tens;
    HalfUnit(ilim);
    HalfScaledOf(Half(ilim), Tens(i), 2.0 * Tens(ilim - 1), Grown(Half(ilim), i));
  }

  lemma HalfScaledOf(c: real, t: real, p: real, g: real)
    requires c * p == 1.0 && 0.0 < c <= 0.5 && t >= 1.0 && g == c * t
    ensures g <= 0.5 * t && g * p == t
  {
    ScaledBelow(c, 0.5, t);
    RegroupThree(c, t, p);
    RegroupReal(c, t, p);
  }

  // ---- When the loop of modes 4 and 5 gives up ----

  /** The threshold e is not much smaller than tc, for the same reason; the loss is that of the error bound and of the
      roundings of e. */
  ghost predicate Ample(e: real, tc: real, loss: real, t: real, i: nat) {
    IsDouble(e) && e >= tc - loss + t * ((14 - i) as real * (H / 2.0))
  }

  lemma AmpleFirst(fl: real -> real, c: real, eps: real)
    requires Rounds(fl) && 0.0 < c <= 0.5 && 0.0 <= eps <= 175.0 * H
    ensures Ample(fl(fl(c) - eps), c, eps + 10.0 * H, 1.0, 0)
  {
    hide Rounds, IsDouble, Least;
    NearFloat(fl, c);
    NearFloat(fl, fl(c) - eps);
    IsRounded(fl, fl(c) - eps);
  }

  lemma AmpleNext(fl: real -> real, e: real, tc: real, loss: real, t: real, i: nat)
    requires Rounds(fl) && Ample(e, tc, loss, t, i) && i < 14 && t >= 1.0 && loss < tc && e <= 0.5 * t
    ensures Ample(Mul(fl, e, 10.0), 10.0 * tc, 10.0 * loss, 10.0 * t, i + 1)
  {
    hide Rounds, IsDouble, Mul;
    var z := e * 10.0;
    MulIs(fl, e, 10.0, z);
    IsRounded(fl, z);
    RoomLeft(t, i);
    MultipleFloat(fl, e, 10.0, z);
  }

  /** The threshold before digit i. */
  ghost predicate Enough(e: real, i: nat, ilim: nat, eps: real)
    requires ilim >= 1
  {
    0.0 <= eps <= 175.0 * H && Ample(e, Grown(Half(ilim), i), Grown(eps + 10.0 * H, i), Tens(i), i)
  }

  lemma EnoughFirst(fl: real -> real, eps: real, ilim: nat)
    requires Rounds(fl) && 1 <= ilim && 0.0 <= eps <= 175.0 * H
    ensures Enough(fl(fl(0.5 / RPow(10, ilim - 1)) - eps), 0, ilim, eps)
  {
    hide Rounds, IsDouble, Grown, Tens, Ample;
    HalfUnit(ilim);
    AmpleFirst(fl, Half(ilim), eps);
    TensNext(0);
    GrownNext(Half(ilim), 0);
    GrownNext(eps + 10.0 * H, 0);
  }

  lemma EnoughNext(fl: real -> real, u: real, e: real, v: real, digits: seq<Digit>, ilim: nat, err0: real, eps: real)
    requires Rounds(fl) && Turn(u, e, v, digits, ilim, err0) && Enough(e, |digits|, ilim, eps)
    ensures Enough(Mul(fl, e, 10.0), |digits| + 1, ilim, eps)
  {
    hide Rounds, IsDouble, Grown, Tens, Ample, Tracks, Mul, Half, Threshold;
    var i := |digits|;
    HalfScaled(ilim, i);
    GrownNext(err0, i);
    BelowHalf(e, Grown(Half(ilim), i), Grown(err0, i), Tens(i), i);
    HalfIsEnough(ilim);
    GrownLess(eps + 10.0 * H, Half(ilim), i);
    AmpleNext(fl, e, Grown(Half(ilim), i), Grown(eps + 10.0 * H, i), Tens(i), i);
    TensNext(i);
    GrownNext(Half(ilim), i);
    GrownNext(eps + 10.0 * H, i);
  }

  lemma BelowHalf(e: real, tc: real, err: real, t: real, i: nat)
    requires Threshold(e, tc, err, t, i) && i < 14 && t >= 1.0 && err >= 0.0 && tc <= 0.5 * t
    ensures e <= 0.5 * t
  {
    hide IsDouble;
    RoomLeft(t, i);
  }

  /** How far u is from the middle between j and j + 1 after m digits, ten times enlarged for each. */
  ghost function FromTie(u: real, m: nat, j: int): real {
    Abs(u * Tens(m) - j as real - 0.5)
  }

  /** So near to a tie m digits after the first that the error bounds together may hide on which side it is. */
  ghost predicate NearTie(u: real, m: nat) {
    exists j: int :: FromTie(u, m, j) <= Grown(187.0 * H, m)
  }

  lemma GivesUp(u: real, digits: seq<Digit>, f: real, eps: real, ilim: nat)
    requires |digits| == ilim >= 1 && Abs(f - After(u, digits)) <= Grown(2.0 * H, ilim - 1) - 2.0 * H && eps <= 175.0 * H
    requires Abs(f - 0.5) <= Grown(eps + 10.0 * H, ilim - 1) + 2.0 * H
    ensures NearTie(u, ilim - 1)
  {
    hide Tens, DigVal;
    var m, r := ilim - 1, After(u, digits);
    GivesUpArith(eps, Tens(m), Grown(eps + 10.0 * H, m), Grown(2.0 * H, m), Grown(187.0 * H, m));
    assert Abs(r - 0.5) <= Grown(187.0 * H, m);
    assert FromTie(u, m, DigVal(digits)) == Abs(r - 0.5);
  }

  lemma GivesUpArith(eps: real, t: real, a: real, b: real, c: real)
    requires t >= 1.0 && eps <= 175.0 * H && a == (eps + 10.0 * H) * t && b == (2.0 * H) * t && c == (187.0 * H) * t
    ensures a + b <= c
  {
    ScaledBelow(eps + 10.0 * H, 185.0 * H, t);
    assert (185.0 * H) * t + b == c;
  }

  /** At the last digit neither test stops the loop. */
  lemma TurnFails(fl: real -> real, u: real, e: real, u0: real, digits: seq<Digit>, ilim: nat, eps: real, digits': seq<Digit>)
    requires Rounds(fl) && Turn(u, e, u0, digits, ilim, 2.0 * H) && Enough(e, |digits|, ilim, eps) && |digits| + 1 == ilim
    requires 0 <= u.Floor <= 9 && digits' == digits + [u.Floor]
    requires u - u.Floor as real >= e && fl(1.0 - (u - u.Floor as real)) >= e
    ensures NearTie(u0, ilim - 1)
  {
    hide Rounds, IsDouble, Grown, Tens, Threshold, Tracks, After, Half, NearTie;
    var f := u - u.Floor as real;
    NextDigit(fl, u, u0, digits, Grown(2.0 * H, |digits|));
    HalfIsEnough(ilim);
    InTheMiddle(fl, f, e, Grown(eps + 10.0 * H, ilim - 1), Tens(ilim - 1), ilim - 1);
    GivesUp(u0, digits', f, eps, ilim);
  }

  lemma InTheMiddle(fl: real -> real, f: real, e: real, loss: real, t: real, i: nat)
    requires Rounds(fl) && Ample(e, 0.5, loss, t, i) && i < 14 && t >= 1.0 && 0.0 <= f < 1.0 && f >= e && fl(1.0 - f) >= e
    ensures Abs(f - 0.5) <= loss + 2.0 * H
  {
    hide Rounds, IsDouble, Least;
    RoomLeft(t, i);
    NearFloat(fl, 1.0 - f);
  }

  lemma TracksItself(u: real)
    requires IsDouble(u) && 1.0 <= u < 10.0
    ensures Tracks(u, u, [], 2.0 * H)
  {
    hide IsDouble, Rest;
    RestFirst(u);
  }

  lemma TracksRange(u: real, v: real, err: real)
    requires Tracks(u, v, [], err)
    ensures Tracks(u, u, [], 2.0 * H) && err >= 2.0 * H
  {
    hide IsDouble, Rest;
    TracksItself(u);
  }

  /** The loop of modes 4 and 5: it stops as soon as the digits are near enough. */
  method QuickShortest(fl: real -> real, u0: real, eps: real, ilim: nat, ghost v: real, ghost err0: real)
    returns (found: bool, t: seq<Digit>, up: nat, ghost n: nat, ghost d: nat)
    requires Rounds(fl) && Tracks(u0, v, [], err0) && 1 <= ilim <= QUICK_MAX && err0 + 10.0 * H <= eps <= 175.0 * H
    ensures found ==> Hit(v, t, up, n, d, ilim)
    ensures !found ==> NearTie(u0, ilim - 1)
  {
    hide Rounds, Turn, Tracks, DigVal, Mul, Hit, ReadsAs, Enough, NearTie;
    var u, e := u0, fl(fl(0.5 / RPow(10, ilim - 1)) - eps);
    TracksRange(u0, v, err0);
    TurnFirst(fl, u, eps, v, ilim, err0);
    TurnFirst(fl, u, eps, u0, ilim, 2.0 * H);
    EnoughFirst(fl, eps, ilim);
    var digits: seq<Digit> := [];
    found, t, up, n, d := false, [], 0, 0, 0;
    var i := 0;
    while true
      invariant 0 <= i == |digits| && Turn(u, e, v, digits, ilim, err0) && !found
      invariant Turn(u, e, u0, digits, ilim, 2.0 * H) && Enough(e, i, ilim, eps)
      decreases ilim - i
    {
      TurnDigit(fl, u, e, v, digits, ilim, err0);
      var l := u.Floor;
      var f := fl(u - l as real);
      var digits' := digits + [l];
      if f < e {
        TurnLow(fl, u, e, v, digits, ilim, err0, digits');
        return true, digits', 0, |digits'|, DigVal(digits');
      }
      if fl(1.0 - f) < e {
        t, up := RoundOff(digits');
        TurnHigh(fl, u, e, v, digits, ilim, err0, digits', t, up);
        return true, t, up, |digits'|, DigVal(digits') + 1;
      }
      if i + 1 >= ilim {
        TurnFails(fl, u, e, u0, digits, ilim, eps, digits');
        return;
      }
      TurnNext(fl, u, e, v, digits, ilim, err0);
      TurnNext(fl, u, e, u0, digits, ilim, 2.0 * H);
      EnoughNext(fl, u, e, v, digits, ilim, err0, eps);
      e, u, digits, i := Mul(fl, e, 10.0), Mul(fl, f, 10.0), digits', i + 1;
    }
  }

  lemma StillAbove(fl: real -> real, f: real, e: real)
    requires Rounds(fl) && f >= e
    ensures Mul(fl, f, 10.0) >= Mul(fl, e, 10.0)
  {
    hide Rounds;
    MonoFloat(fl, e * 10.0, f * 10.0);
  }

  lemma HalfTimes(ilim: nat)
    requires ilim >= 1
    ensures Half(ilim) * (2.0 * Tens(ilim - 1)) == 1.0 && Half(ilim) > 0.0
  {
    HalfUnit(ilim);
  }

  lemma HalfUnit(ilim: nat)
    requires ilim >= 1
    ensures RPow(10, ilim - 1) == Tens(ilim - 1)
    ensures Half(ilim) == 0.5 / Tens(ilim - 1) && Half(ilim) * (2.0 * Tens(ilim - 1)) == 1.0 && 0.0 < Half(ilim) <= 0.5
  {
    RPowIs(10, ilim - 1);
    var t, c := Tens(ilim - 1), Half(ilim);
    assert c * t == 0.5;
    Scaled(c, 0.5, t);
  }

  lemma ErrorPositive(u: real, v: real, digits: seq<Digit>, err: real)
    requires Tracks(u, v, digits, err)
    ensures err >= 0.0
  {
    hide IsDouble, Rest;
  }

  lemma RoundOffShort(digits: seq<Digit>, t: seq<Digit>, up: nat)
    requires 1 <= |digits| && ReadsAs(t, |digits|, up, DigVal(digits) + 1) && up <= 1 && (up == 1 ==> t == [1])
    ensures 1 <= |t| <= |digits|
  {
  }

  // ---- Modes 2 and 3 ----

  /** The tolerance at the last digit covers the error there, and is far below one half. */
  ghost predicate Tolerance(es: real, err: real) {
    err <= es <= 0.25
  }

  lemma ToleranceIs(fl: real -> real, eps: real, ilim: nat, err0: real)
    requires Rounds(fl) && 1 <= ilim <= QUICK_MAX && 0.0 <= err0 && err0 + 10.0 * H <= eps <= 175.0 * H
    ensures Tolerance(Mul(fl, eps, RPow(10, ilim - 1)), Grown(err0, ilim - 1))
    ensures Mul(fl, eps, RPow(10, ilim - 1)) <= Grown(eps + 10.0 * H, ilim - 1)
  {
    hide Rounds, IsDouble, Tens, Mul, RPow, Least, Grown, Half, Abs;
    HalfUnit(ilim);
    TensBound(ilim - 1);
    var t := Tens(ilim - 1);
    var z := eps * t;
    MulIs(fl, eps, RPow(10, ilim - 1), z);
    NearFloat(fl, z);
    ScaledBelow(err0 + 10.0 * H, eps, t);
    ScaledBelow(eps, 175.0 * H, t);
    GrownIs(err0, ilim - 1);
    GrownIs(eps + 10.0 * H, ilim - 1);
    ToleranceArith(err0, t, z, fl(z), Grown(err0, ilim - 1));
    ToleranceAbove(eps, t, z, fl(z), Grown(eps + 10.0 * H, ilim - 1));
  }

  lemma GrownIs(a: real, i: nat)
    ensures Grown(a, i) == a * Tens(i)
  {
  }

  lemma ToleranceArith(err0: real, t: real, z: real, es: real, g: real)
    requires 0.0 <= err0 && 1.0 <= t <= 10000000000000.0 && g == err0 * t
    requires (err0 + 10.0 * H) * t <= z <= (175.0 * H) * t && Abs(es - z) <= H * Abs(z) + H * H
    ensures g <= es <= 0.25
  {
    NotNegative(err0, t);
    assert (err0 + 10.0 * H) * t == g + 10.0 * H * t;
  }

  lemma ToleranceAbove(eps: real, t: real, z: real, es: real, g: real)
    requires 0.0 <= eps <= 175.0 * H && 1.0 <= t <= 10000000000000.0 && z == eps * t && g == (eps + 10.0 * H) * t
    requires Abs(es - z) <= H * Abs(z) + H * H
    ensures es <= g
  {
    NotNegative(eps, t);
    ScaledBelow(eps, 175.0 * H, t);
    assert g == z + 10.0 * H * t;
  }

  /** At the last digit: down below one half less the tolerance, up above one half and the tolerance. */
  lemma FixedLow(fl: real -> real, f: real, r: real, es: real, err: real)
    requires Rounds(fl) && Tolerance(es, err) && 0.0 <= f < fl(0.5 - es) && Abs(f - r) <= err - 2.0 * H
    ensures Abs(r) < 0.5
  {
    hide Rounds, Least;
    NearFloat(fl, 0.5 - es);
  }

  lemma FixedHigh(fl: real -> real, f: real, r: real, es: real, err: real)
    requires Rounds(fl) && Tolerance(es, err) && fl(0.5 + es) < f < 1.0 && Abs(f - r) <= err - 2.0 * H
    ensures Abs(r - 1.0) < 0.5
  {
    hide Rounds, Least;
    NearFloat(fl, 0.5 + es);
  }

  /** Half a unit of the last digit, at the last digit and before it. */
  lemma HalfAtLast(ilim: nat, i: nat, err0: real)
    requires 1 <= ilim <= QUICK_MAX && 0.0 <= err0 <= 142.0 * H
    ensures Grown(Half(ilim), ilim - 1) == 0.5 && Grown(err0, i) < Grown(Half(ilim), i)
  {
    hide Tens, Half, Grown;
    HalfIsEnough(ilim);
    GrownLess(err0, Half(ilim), i);
  }

  lemma HalfIsEnough(ilim: nat)
    requires 1 <= ilim <= QUICK_MAX
    ensures Grown(Half(ilim), ilim - 1) == 0.5 && Half(ilim) >= 0.00000000000005
  {
    hide Tens, Half;
    HalfTimes(ilim);
    TensBound(ilim - 1);
    NotSmall(Half(ilim), Tens(ilim - 1));
  }

  lemma GrownLess(a: real, b: real, i: nat)
    requires a < b
    ensures Grown(a, i) < Grown(b, i)
  {
    Scaled(a, b, Tens(i));
  }

  lemma NotSmall(c: real, t: real)
    requires c * (2.0 * t) == 1.0 && 1.0 <= t <= 10000000000000.0 && c > 0.0
    ensures c * t == 0.5 && c >= 0.00000000000005
  {
    assert c * (2.0 * t) == 2.0 * (c * t);
    NotNegative(c, 10000000000000.0 - t);
    assert c * (10000000000000.0 - t) == 10000000000000.0 * c - c * t;
  }

  /** The loop of modes 2 and 3 before the next digit. */
  ghost predicate FixedTurn(u: real, v: real, digits: seq<Digit>, ilim: nat, err0: real) {
    && |digits| < ilim <= QUICK_MAX && 0.0 <= err0 <= 142.0 * H && (digits != [] ==> digits[0] != 0)
    && Tracks(u, v, digits, Grown(err0, |digits|))
  }

  lemma FixedDigit(fl: real -> real, u: real, v: real, digits: seq<Digit>, ilim: nat, err0: real)
    requires Rounds(fl) && FixedTurn(u, v, digits, ilim, err0)
    ensures 0 <= u.Floor <= 9 && (digits + [u.Floor])[0] != 0 && |digits| < ilim
    ensures var f := u - u.Floor as real; 0.0 <= f < 1.0 && fl(f) == f
    ensures |digits| + 1 < ilim ==>
      FixedTurn(Mul(fl, u - u.Floor as real, 10.0), v, digits + [u.Floor], ilim, err0)
  {
    hide Rounds, IsDouble, Grown, Tracks, After, Mul;
    NextDigit(fl, u, v, digits, Grown(err0, |digits|));
    Advanced(fl, u, v, digits, Grown(err0, |digits|));
    GrownNext(err0, |digits|);
  }

  /** The digits are near if the rest is small. */
  lemma FixedNear(v: real, digits': seq<Digit>, d: nat, r: real, ilim: nat)
    requires 1 <= |digits'| <= ilim && r == After(v, digits') - (d - DigVal(digits')) as real
    requires Abs(r) < Grown(Half(ilim), |digits'| - 1)
    ensures NearBy(v, d, |digits'| - 1, ilim)
  {
    hide Tens, Grown, Half, After, DigVal, Abs, NearBy;
    HalfScaled(ilim, |digits'| - 1);
    Near(v, digits', d, r, Grown(Half(ilim), |digits'| - 1), ilim);
  }

  lemma FixedStopsLow(fl: real -> real, u: real, v: real, digits: seq<Digit>, ilim: nat, err0: real, es: real, digits': seq<Digit>)
    requires Rounds(fl) && FixedTurn(u, v, digits, ilim, err0) && Tolerance(es, Grown(err0, ilim - 1))
    requires 0 <= u.Floor <= 9 && digits' == digits + [u.Floor]
    requires u - u.Floor as real == 0.0 || (|digits'| == ilim && u - u.Floor as real < fl(0.5 - es))
    ensures NearBy(v, DigVal(digits'), |digits'| - 1, ilim)
  {
    hide Rounds, IsDouble, Grown, Tracks, After, NearBy, DigVal, Half, Tolerance;
    var r := After(v, digits');
    NextDigit(fl, u, v, digits, Grown(err0, |digits|));
    HalfAtLast(ilim, |digits|, err0);
    if u - u.Floor as real != 0.0 {
      FixedLow(fl, u - u.Floor as real, r, es, Grown(err0, ilim - 1));
    }
    FixedNear(v, digits', DigVal(digits'), r, ilim);
  }

  lemma FixedStopsHigh(fl: real -> real, u: real, v: real, digits: seq<Digit>, ilim: nat, err0: real, es: real, digits': seq<Digit>)
    requires Rounds(fl) && FixedTurn(u, v, digits, ilim, err0) && Tolerance(es, Grown(err0, ilim - 1))
    requires 0 <= u.Floor <= 9 && digits' == digits + [u.Floor] && |digits'| == ilim && u - u.Floor as real > fl(0.5 + es)
    ensures NearBy(v, DigVal(digits') + 1, |digits'| - 1, ilim)
  {
    hide Rounds, IsDouble, Grown, Tracks, After, NearBy, DigVal, Half, Tolerance;
    var r := After(v, digits');
    NextDigit(fl, u, v, digits, Grown(err0, |digits|));
    HalfAtLast(ilim, |digits|, err0);
    FixedHigh(fl, u - u.Floor as real, r, es, Grown(err0, ilim - 1));
    FixedNear(v, digits', DigVal(digits') + 1, r - 1.0, ilim);
  }

  /** The loop of modes 2 and 3: `ilim0` digits, or fewer if nothing is left, and then the rounding. */
  method QuickFixed(fl: real -> real, u0: real, eps: real, ilim0: nat, ghost v: real, ghost err0: real)
    returns (found: bool, t: seq<Digit>, up: nat, ghost n: nat, ghost d: nat)
    requires Rounds(fl) && Tracks(u0, v, [], err0) && 1 <= ilim0 <= QUICK_MAX
    requires err0 <= 142.0 * H && err0 + 10.0 * H <= eps <= 175.0 * H
    ensures found ==> Hit(v, t, up, n, d, ilim0)
    ensures !found ==> NearTie(u0, ilim0 - 1)
  {
    hide Rounds, Tracks, DigVal, Mul, ReadsAs, Grown, Tolerance, NearBy, FixedTurn, NearTie;
    TracksRange(u0, v, err0);
    FixedFirst(u0, v, ilim0, err0);
    FixedFirst(u0, u0, ilim0, 2.0 * H);
    ToleranceIs(fl, eps, ilim0, err0);
    var u, es, ilim := u0, Mul(fl, eps, RPow(10, ilim0 - 1)), ilim0;
    var digits: seq<Digit> := [];
    found, t, up, n, d := false, [], 0, 0, 0;
    GrownNext(err0, ilim0 - 1);
    var i := 1;
    while true
      invariant 1 <= i == |digits| + 1 && ilim == ilim0 && FixedTurn(u, v, digits, ilim0, err0) && !found
      invariant FixedTurn(u, u0, digits, ilim0, 2.0 * H)
      decreases ilim0 - i
    {
      FixedDigit(fl, u, v, digits, ilim0, err0);
      FixedDigit(fl, u, u0, digits, ilim0, 2.0 * H);
      var l := u.Floor;
      var f := fl(u - l as real);
      if f == 0.0 {
        ilim := i;
      }
      var digits' := digits + [l];
      if i == ilim {
        if f > fl(0.5 + es) {
          assert f != 0.0 by { AboveHalf(fl, es, Grown(err0, ilim0 - 1)); }
          FixedStopsHigh(fl, u, v, digits, ilim0, err0, es, digits');
          t, up := RoundOff(digits');
          RoundOffShort(digits', t, up);
          return true, t, up, i, DigVal(digits') + 1;
        } else if f < fl(0.5 - es) {
          FixedStopsLow(fl, u, v, digits, ilim0, err0, es, digits');
          t := TrimZeros(digits');
          TrimShort(digits', t);
          return true, t, 0, i, DigVal(digits');
        }
        FixedFails(fl, u, u0, digits, ilim0, err0, eps, es, digits');
        return;
      }
      u, digits, i := Mul(fl, f, 10.0), digits', i + 1;
    }
  }

  /** At the last digit the tolerance does not tell whether to round up; nothing left is always below one half. */
  lemma FixedFails(fl: real -> real, u: real, u0: real, digits: seq<Digit>, ilim: nat, err0: real, eps: real, es: real,
                   digits': seq<Digit>)
    requires Rounds(fl) && FixedTurn(u, u0, digits, ilim, 2.0 * H) && Tolerance(es, Grown(err0, ilim - 1)) && err0 >= 0.0
    requires 0 <= u.Floor <= 9 && digits' == digits + [u.Floor] && eps <= 175.0 * H && es <= Grown(eps + 10.0 * H, ilim - 1)
    requires fl(0.5 - es) <= u - u.Floor as real <= fl(0.5 + es)
    requires u - u.Floor as real == 0.0 || |digits'| == ilim
    ensures NearTie(u0, ilim - 1)
  {
    hide Rounds, IsDouble, Grown, Tracks, After, NearTie;
    var f := u - u.Floor as real;
    GrownNext(err0, ilim - 1);
    NextDigit(fl, u, u0, digits, Grown(2.0 * H, |digits|));
    WithinTolerance(fl, f, es);
    GivesUp(u0, digits', f, eps, ilim);
  }

  lemma WithinTolerance(fl: real -> real, f: real, es: real)
    requires Rounds(fl) && 0.0 <= es <= 0.25 && fl(0.5 - es) <= f <= fl(0.5 + es)
    ensures Abs(f - 0.5) <= es + 2.0 * H && f > 0.0
  {
    hide Rounds, Least;
    NearFloat(fl, 0.5 - es);
    NearFloat(fl, 0.5 + es);
  }

  lemma FixedFirst(u0: real, v: real, ilim: nat, err0: real)
    requires Tracks(u0, v, [], err0) && 1 <= ilim <= QUICK_MAX && err0 <= 142.0 * H
    ensures FixedTurn(u0, v, [], ilim, err0) && err0 >= 0.0
  {
    hide IsDouble, Grown;
    GrownNext(err0, 0);
  }

  lemma AboveHalf(fl: real -> real, es: real, err: real)
    requires Rounds(fl) && Tolerance(es, err) && err >= 0.0
    ensures fl(0.5 + es) > 0.0
  {
    hide Rounds, Least;
    NearFloat(fl, 0.5 + es);
  }

  lemma TrimShort(digits: seq<Digit>, t: seq<Digit>)
    requires ReadsAs(t, |digits|, 0, DigVal(digits))
    ensures 1 <= |t| <= |digits|
  {
  }

  // ---- The whole path ----

  /** The estimate k of the decimal exponent: right where it was compared with a table entry, otherwise at most one too
      great and not too near to either end. */
  ghost predicate Sure(x: real, k: int, kCheck: bool) {
    if kCheck then RPow(10, k - 1) * (1.0 + 32.0 * H) <= x && x * (1.0 + 32.0 * H) <= RPow(10, k + 1)
    else -1 <= k <= 22 && RPow(10, k) <= x < RPow(10, k + 1) && (k == 22 ==> x * (1.0 + 32.0 * H) <= RPow(10, k + 1))
  }

  /** Scaling to one digit before the decimal point. */
  method ScaleTo(fl: real -> real, x: real, k: int) returns (u: real, ieps: nat)
    requires Rounds(fl) && IsDouble(x) && x > 0.0 && -512 < k < 512 && x >= RPow(10, k - 1)
    ensures IsDouble(u) && 2 <= ieps <= 7 && Close(u, Shifted(x, -k), 2 * ieps - 3)
    ensures k == 0 ==> u == x
    ensures 0 < k <= 22 ==> u == Div(fl, x, RPow(10, k))
    ensures k == -1 ==> u == Mul(fl, x, RPow(10, 1))
  {
    hide Rounds, IsDouble, Close, Shifted, RPow, Mul, Div;
    if k > 0 {
      u, ieps := ScaleDown(fl, x, k);
    } else if k < 0 {
      u, ieps := ScaleUp(fl, x, -k);
    } else {
      u, ieps := x, 2;
      ShiftedTwice(x, 0, 0);
      CloseSelf(x);
      CloseMore(x, x, 0, 1);
    }
  }

  /** With an exact k the first digit is right. */
  lemma ExactRange(fl: real -> real, x: real, k: int, u: real)
    requires Rounds(fl) && IsDouble(x) && x > 0.0 && Sure(x, k, false)
    requires u == if k == 0 then x else if k > 0 then Div(fl, x, RPow(10, k)) else Mul(fl, x, RPow(10, 1))
    ensures 1.0 <= u < 10.0
  {
    hide Rounds, IsDouble, RPow, Pow;
    RPowZero(10);
    RPowNext(10, 0);
    RPowNext(10, k);
    RPowNext(10, -1);
    SmallIsDouble(1);
    ExactFloat(fl, 1.0);
    if k > 0 {
      RPowMono(10, 0, k);
      if k < 22 { TenIsDouble(k + 1); }
      QuotientRange(fl, x, RPow(10, k), u);
    } else if k < 0 {
      TenTimesBelow(fl, x);
      MonoFloat(fl, 1.0, x * 10.0);
    }
  }

  /** A quotient below ten is not rounded up to ten. */
  lemma QuotientRange(fl: real -> real, x: real, p: real, u: real)
    requires Rounds(fl) && IsDouble(x) && p >= 1.0 && p <= x < 10.0 * p && u == Div(fl, x, p)
    requires IsDouble(10.0 * p) || x * (1.0 + 32.0 * H) <= 10.0 * p
    ensures 1.0 <= u < 10.0
  {
    hide Rounds, IsDouble;
    var z := x / p;
    if IsDouble(10.0 * p) {
      DoublesApart(x, 10.0 * p);
    }
    BelowTen(x, p);
    SmallIsDouble(1);
    ExactFloat(fl, 1.0);
    MonoFloat(fl, 1.0, z);
    BelowTenIsDouble();
    SmallIsDouble(10);
    ExactFloat(fl, 10.0);
    MonoFloat(fl, z, 10.0);
    RoundsTo(fl, z, 10.0 - 16.0 * H);
  }

  lemma BelowTen(x: real, p: real)
    requires p >= 1.0 && p <= x < 10.0 * p && (10.0 * p - x >= H * (10.0 * p) || x * (1.0 + 32.0 * H) <= 10.0 * p)
    ensures 1.0 <= x / p <= 10.0 - 10.0 * H
  {
    var z := x / p;
    assert z * p == x;
    Scaled(1.0, z, p);
    Scaled(z, 10.0 - 10.0 * H, p);
  }

  /** Where the estimate is to be checked. */
  lemma CheckedRange(x: real, k: int, u: real, n: nat)
    requires Sure(x, k, true) && Close(u, Shifted(x, -k), n) && n <= 13
    ensures 0.1 <= u < 10.0
  {
    hide RPow, Drift;
    var v := Shifted(x, -k);
    DriftBound(n);
    SureScaled(x, k, v);
    RangeArith(u, v, Drift(n));
  }

  lemma SureScaled(x: real, k: int, v: real)
    requires Sure(x, k, true) && v == Shifted(x, -k)
    ensures 0.1 * (1.0 + 32.0 * H) <= v && v * (1.0 + 32.0 * H) <= 10.0
  {
    hide RPow;
    var p := RPow(10, -k);
    RPowAdd(10, k - 1, -k);
    RPowAdd(10, k + 1, -k);
    RPowZero(10);
    RPowNext(10, 0);
    RPowNext(10, -1);
    Scaled(RPow(10, k - 1) * (1.0 + 32.0 * H), x, p);
    Scaled(x * (1.0 + 32.0 * H), RPow(10, k + 1), p);
    SureProducts(x, RPow(10, k - 1), p, 1.0 + 32.0 * H);
  }

  lemma SureProducts(x: real, a: real, p: real, m: real)
    ensures (a * m) * p == (a * p) * m && (x * m) * p == (x * p) * m
  {
  }

  lemma RangeArith(u: real, v: real, q: real)
    requires u > 0.0 && v > 0.0 && u <= v * q && v <= u * q && 1.0 <= q <= 1.0 + 13.0 * (1.0 / 9007199254740900.0)
    requires 0.1 * (1.0 + 32.0 * H) <= v && v * (1.0 + 32.0 * H) <= 10.0
    ensures 0.1 <= u < 10.0
  {
    NotNegative(v, 1.0 + 31.0 * H - q);
    assert v * q <= v * (1.0 + 31.0 * H);
    NotNegative(u, 1.0 + 31.0 * H - q);
    assert u * q <= u * (1.0 + 31.0 * H);
  }

  /** The error bound that goes with u: the scaling's, and room for the digit loop. */
  ghost function ErrorOf(u: real, ieps: nat): real {
    ((ieps - 1) as real * u + 1.0) * (2.0 * H)
  }

  method Epsilon(fl: real -> real, u: real, ieps: nat) returns (eps: real)
    requires Rounds(fl) && 0.0 < u < 10.0 && 2 <= ieps <= 8
    ensures 0.0 <= ErrorOf(u, ieps) <= 142.0 * H && ErrorOf(u, ieps) + 10.0 * H <= eps <= 175.0 * H
  {
    hide Rounds, Least, ErrorOf, Abs;
    var w := ieps as real * u;
    var a := fl(w);
    var b := fl(a + 7.0);
    eps := b * (2.0 * H);
    NearFloat(fl, w);
    NearFloat(fl, a + 7.0);
    EpsilonArith(u, ieps, w);
    ErrorIs(u, ieps, w);
    EpsilonBounds(u, w, a, b, eps);
  }

  lemma ErrorIs(u: real, ieps: nat, w: real)
    requires (ieps - 1) as real * u == w - u
    ensures ErrorOf(u, ieps) == (w - u + 1.0) * (2.0 * H)
  {
  }

  lemma EpsilonBounds(u: real, w: real, a: real, b: real, eps: real)
    requires 0.0 < u < 10.0 && 0.0 < w <= 80.0 && 0.0 <= w - u <= 70.0 && eps == b * (2.0 * H)
    requires Abs(a - w) <= H * Abs(w) + H * H && Abs(b - (a + 7.0)) <= H * Abs(a + 7.0) + H * H
    ensures 0.0 <= (w - u + 1.0) * (2.0 * H) <= 142.0 * H && (w - u + 1.0) * (2.0 * H) + 10.0 * H <= eps <= 175.0 * H
  {
  }

  lemma EpsilonArith(u: real, ieps: nat, w: real)
    requires 0.0 < u < 10.0 && 2 <= ieps <= 8 && w == ieps as real * u
    ensures 0.0 < w <= 80.0 && (ieps - 1) as real * u == w - u && w - u <= 70.0 && w - u >= 0.0
  {
    var r := ieps as real;
    assert (ieps - 1) as real == r - 1.0;
    NotNegative(8.0 - r, u);
    NotNegative(r - 1.0, u);
    assert (8.0 - r) * u == 8.0 * u - w;
    assert (r - 1.0) * u == w - u;
  }

  /** u tracks the scaled number. */
  lemma TracksFirst(u: real, v: real, ieps: nat)
    requires IsDouble(u) && 1.0 <= u < 10.0 && 2 <= ieps <= 8 && Close(u, v, 2 * ieps - 3)
    ensures Tracks(u, v, [], ErrorOf(u, ieps)) && 1.0 - 14.0 * H <= v < 10.0 + 140.0 * H
  {
    hide IsDouble, Close, Rest;
    CloseWithin(u, v, ieps);
    RestFirst(v);
    EpsilonArith(u, ieps, ieps as real * u);
  }

  lemma CloseWithin(u: real, v: real, ieps: nat)
    requires 0.0 < u < 10.0 && 2 <= ieps <= 8 && Close(u, v, 2 * ieps - 3)
    ensures Abs(u - v) <= u * (2.0 * (ieps - 1) as real * H) && Abs(u - v) <= u * (14.0 * H)
    ensures u * (2.0 * (ieps - 1) as real * H) == ((ieps - 1) as real * u) * (2.0 * H)
  {
    hide Close;
    CloseDistance(u, v, 2 * ieps - 3);
    var r := (ieps - 1) as real;
    var a, b := (2 * ieps - 3) as real * (1.0 / 9007199254740900.0), 2.0 * r * H;
    assert (2 * ieps - 3) as real == 2.0 * r - 1.0;
    NotNegative(u, b - a);
    NotNegative(u, 14.0 * H - b);
    assert u * b == (r * u) * (2.0 * H);
  }

  lemma SureBelow(x: real, k: int, kCheck: bool)
    requires Sure(x, k, kCheck)
    ensures x >= RPow(10, k - 1)
  {
    hide RPow;
    RPowNext(10, k - 1);
  }

  /** The scaled number: one digit before the point, where the estimate is to be checked perhaps none. */
  lemma SureRange(fl: real -> real, x: real, k: int, kCheck: bool, u: real, n: nat)
    requires Rounds(fl) && IsDouble(x) && x > 0.0 && Sure(x, k, kCheck) && Close(u, Shifted(x, -k), n) && n <= 13
    requires k == 0 ==> u == x
    requires 0 < k <= 22 ==> u == Div(fl, x, RPow(10, k))
    requires k == -1 ==> u == Mul(fl, x, RPow(10, 1))
    ensures 0.1 <= u < 10.0 && (!kCheck ==> u >= 1.0)
  {
    hide Rounds, IsDouble, Close, Shifted, RPow, Mul, Div;
    if kCheck {
      CheckedRange(x, k, u, n);
    } else {
      ExactRange(fl, x, k, u);
    }
  }

  /** The estimate was one too great. */
  lemma TenMore(fl: real -> real, u: real, x: real, k: int, n: nat)
    requires Rounds(fl) && IsDouble(u) && 0.1 <= u < 1.0 && Close(u, Shifted(x, -k), n)
    ensures var u' := Mul(fl, u, 10.0); IsDouble(u') && 1.0 <= u' < 10.0 && Close(u', Shifted(x, -(k - 1)), n + 2)
  {
    hide Rounds, IsDouble, Close, Shifted, RPow, Mul;
    TenTimesBelow(fl, u);
    var z := u * 10.0;
    MulIs(fl, u, 10.0, z);
    SmallIsDouble(1);
    ExactFloat(fl, 1.0);
    MonoFloat(fl, 1.0, z);
    MultipleFloat(fl, u, 10.0, z);
    CloseFloat(fl(z), z);
    CloseTen(u, Shifted(x, -k), n, z);
    ShiftedTwice(x, -k, 1);
    CloseTrans(fl(z), z, Shifted(x, -(k - 1)), 1, n);
    CloseMore(fl(z), Shifted(x, -(k - 1)), n + 1, n + 2);
  }

  lemma CloseTen(u: real, v: real, n: nat, z: real)
    requires Close(u, v, n) && z == u * 10.0
    ensures Close(z, Shifted(v, 1), n)
  {
    hide RPow, Drift;
    RPowNext(10, 0);
    RPowZero(10);
    assert Shifted(v, 1) == v * 10.0;
  }

  /** Whether the number is above five. */
  lemma HalfOrNot(fl: real -> real, u: real, eps: real, v: real, ieps: nat)
    requires Rounds(fl) && 0.0 < u < 10.0 && 2 <= ieps <= 8 && Close(u, v, 2 * ieps - 3)
    requires ErrorOf(u, ieps) + 10.0 * H <= eps
    ensures (fl(u - 5.0) > eps ==> v > 5.0) && (fl(u - 5.0) < -eps ==> v < 5.0)
    ensures Abs(fl(u - 5.0)) <= eps <= 175.0 * H ==> Abs(v - 5.0) <= 350.0 * H
  {
    hide Rounds, Close, Least;
    NearFloat(fl, u - 5.0);
    CloseWithin(u, v, ieps);
  }

  /** What the digits loops find, for the number divided by 10^k. */
  ghost predicate Found(x: real, t: seq<Digit>, decpt: int, k: int, n: nat, d: nat, ilim: int) {
    && 1 <= ilim <= QUICK_MAX && k < decpt && Hit(Shifted(x, -k), t, decpt - k - 1, n, d, ilim)
    && 1.0 - 14.0 * H <= Shifted(x, -k) < 10.0 + 140.0 * H
  }

  /** What is found when no digit is asked for. */
  ghost predicate FoundNone(x: real, t: seq<Digit>, decpt: int, k: int, ndigits: int) {
    if t == [1] then decpt == k + 2 && Shifted(x, -k) > 5.0 else t == [] && decpt == -ndigits && Shifted(x, -k) < 5.0
  }

  // ---- Too near to a tie ----

  /** The middle between j and j + 1 units of 10^place. */
  ghost function Tie(j: int, place: int): real {
    (j as real + 0.5) * RPow(10, place)
  }

  /** A number whose first digit has the weight 10^k is so near to the middle between two multiples of 10^place that the
      quick path may not see on which side it is: as near as twice the greatest error bound, 175 parts in 2^53. */
  ghost predicate TooNear(x: real, k: int, place: int) {
    exists j: int :: Abs(x - Tie(j, place)) <= 350.0 * H * RPow(10, k)
  }

  lemma TieInReals(x: real, k: int, u: real, m: nat, j: int)
    requires FromTie(u, m, j) <= Grown(187.0 * H, m) && Abs(u - Shifted(x, -k)) <= 140.0 * H
    ensures Abs(x - Tie(j, k - m)) <= 350.0 * H * RPow(10, k)
  {
    hide RPow, Pow, Tens, Multiple;
    var v, t, p, c := Shifted(x, -k), Tens(m), RPow(10, k - m), j as real + 0.5;
    ShiftedTwice(x, -k, k);
    PowerAsMultiple(k, k - m);
    TieArith(u, v, t, c, u * t, v * t);
    TieScaled(x, v, t, p, c, v * t, RPow(10, k), Tie(j, k - m));
  }

  lemma TieArith(u: real, v: real, t: real, c: real, ut: real, vt: real)
    requires t >= 1.0 && Abs(u - v) <= 140.0 * H && ut == u * t && vt == v * t && Abs(ut - c) <= (187.0 * H) * t
    ensures Abs(vt - c) <= (327.0 * H) * t
  {
    ErrorTimes(u, v, t, ut, vt);
    Parts(t);
  }

  lemma ErrorTimes(u: real, v: real, t: real, ut: real, vt: real)
    requires t >= 1.0 && Abs(u - v) <= 140.0 * H && ut == u * t && vt == v * t
    ensures Abs(ut - vt) <= 140.0 * (H * t)
  {
    Difference(u, v, u - v, t);
    AbsProduct(u - v, t, ut - vt);
    ScaledBelow(Abs(u - v), 140.0 * H, t);
    Parts(t);
  }

  lemma Parts(t: real)
    ensures (140.0 * H) * t == 140.0 * (H * t) && (187.0 * H) * t == 187.0 * (H * t) && (327.0 * H) * t == 327.0 * (H * t)
  {
  }

  lemma TieScaled(x: real, v: real, t: real, p: real, c: real, vt: real, pk: real, tie: real)
    requires p > 0.0 && t >= 1.0 && vt == v * t && pk == t * p && x == v * pk && tie == c * p && Abs(vt - c) <= (327.0 * H) * t
    ensures Abs(x - tie) <= 350.0 * H * pk
  {
    RegroupThree(v, t, p);
    Difference(vt, c, vt - c, p);
    AbsProduct(vt - c, p, x - tie);
    ScaledBelow(Abs(vt - c), (327.0 * H) * t, p);
    RegroupThree(327.0 * H, t, p);
    PositiveProduct(t, p);
  }

  /** Near a tie the first digit is not in doubt. */
  lemma LeadsNearTie(u: real, v: real, m: nat)
    requires NearTie(u, m) && m <= 13 && 1.0 <= u < 10.0 && Abs(u - v) <= u * (14.0 * H)
    ensures 1.0 <= v < 10.0
  {
    hide Tens, Grown, FromTie;
    var j: int :| FromTie(u, m, j) <= Grown(187.0 * H, m);
    if v < 1.0 {
      NoTieThere(u, 1, m, j);
    } else if v >= 10.0 {
      NoTieThere(u, 10, m, j);
    }
  }

  /** Next to one and to ten there are no ties. */
  lemma NoTieThere(u: real, c: int, m: nat, j: int)
    requires m <= 13 && Abs(u - c as real) <= 140.0 * H
    ensures FromTie(u, m, j) > Grown(187.0 * H, m)
  {
    hide Pow;
    TensBound(m);
    var n, t := Pow(10, m), Tens(m);
    ProductReal(c, n);
    WholeApart(c * n, j);
    NoTieArith(u, c as real, t, u * t, (c * n) as real, j as real + 0.5);
  }

  lemma NoTieArith(u: real, c: real, t: real, ut: real, a: real, b: real)
    requires 1.0 <= t <= 10000000000000.0 && Abs(u - c) <= 140.0 * H && ut == u * t && a == c * t && Abs(a - b) >= 0.5
    ensures Abs(ut - b) > (187.0 * H) * t
  {
    ErrorTimes(u, c, t, ut, a);
    Parts(t);
  }

  lemma WholeApart(a: int, j: int)
    ensures Abs(a as real - j as real - 0.5) >= 0.5
  {
    if a <= j { assert a as real <= j as real; } else { assert a as real >= (j + 1) as real; }
  }

  /** Where the digit loops give up, the number is too near to a tie. */
  lemma GaveUp(x: real, k: int, ilim: nat, u: real, ieps: nat)
    requires 1 <= ilim <= QUICK_MAX && NearTie(u, ilim - 1) && 1.0 <= u < 10.0
    requires 2 <= ieps <= 8 && Close(u, Shifted(x, -k), 2 * ieps - 3)
    ensures Leads(x, k) && TooNear(x, k, k + 1 - ilim)
  {
    hide Close, Shifted, RPow, Tens, Grown, FromTie;
    CloseWithin(u, Shifted(x, -k), ieps);
    LeadsNearTie(u, Shifted(x, -k), ilim - 1);
    LeadsAt(x, k);
    var j: int :| FromTie(u, ilim - 1, j) <= Grown(187.0 * H, ilim - 1);
    TieInReals(x, k, u, ilim - 1, j);
    assert k - (ilim - 1) == k + 1 - ilim;
  }

  /** What is scaled to less than one is hardly more than that. */
  lemma BelowOne(x: real, k: int, u: real, ieps: nat)
    requires 0.0 < u < 1.0 && 2 <= ieps <= 8 && Close(u, Shifted(x, -k), 2 * ieps - 3)
    ensures x < RPow(10, k) * (1.0 + 14.0 * H)
  {
    hide RPow, Close, Shifted;
    CloseWithin(u, Shifted(x, -k), ieps);
    ScaledBelow(u, 1.0, 14.0 * H);
    ShiftedTwice(x, -k, k);
    ScaledIs(Shifted(x, -k), k);
    Scaled(Shifted(x, -k), 1.0 + 14.0 * H, RPow(10, k));
  }

  /** And what is not scaled to less than one is hardly less. */
  lemma NotBelowOne(x: real, k: int, u: real, ieps: nat)
    requires 1.0 <= u < 10.0 && 2 <= ieps <= 8 && Close(u, Shifted(x, -k), 2 * ieps - 3)
    ensures x >= RPow(10, k) * (1.0 - 14.0 * H)
  {
    hide RPow, Close, Shifted;
    CloseWithin(u, Shifted(x, -k), ieps);
    ScaledBelow(1.0, u, 1.0 - 14.0 * H);
    assert u * (1.0 - 14.0 * H) == u - u * (14.0 * H);
    ShiftedTwice(x, -k, k);
    ScaledIs(Shifted(x, -k), k);
    ScaledBelow(1.0 - 14.0 * H, Shifted(x, -k), RPow(10, k));
  }

  lemma ScaledIs(v: real, k: int)
    ensures Shifted(v, k) == v * RPow(10, k)
  {
  }

  /** The same if no digit is asked for. */
  lemma GaveUpNone(x: real, k: int)
    requires Abs(Shifted(x, -k) - 5.0) <= 350.0 * H
    ensures Leads(x, k) && TooNear(x, k, k + 1)
  {
    hide RPow;
    var v, p := Shifted(x, -k), RPow(10, k);
    LeadsAt(x, k);
    ShiftedTwice(x, -k, k);
    RPowNext(10, k);
    NoneScaled(x, v, p, Tie(0, k + 1));
  }

  lemma NoneScaled(x: real, v: real, p: real, tie: real)
    requires p > 0.0 && x == v * p && tie == 5.0 * p && Abs(v - 5.0) <= 350.0 * H
    ensures Abs(x - tie) <= 350.0 * H * p
  {
    Difference(v, 5.0, v - 5.0, p);
    AbsProduct(v - 5.0, p, x - tie);
    ScaledBelow(Abs(v - 5.0), 350.0 * H, p);
  }

  /** `dtoa` in modes 2 to 5, "Try to get by with floating-point arithmetic". */
  method TryQuick(fl: real -> real, x: real, k0: int, kCheck: bool, ilim0: int, ilim1: int, ndigits: int, leftright: bool)
    returns (found: bool, t: seq<Digit>, decpt: int, ghost k: int, ghost n: nat, ghost d: nat)
    requires Rounds(fl) && IsDouble(x) && x > 0.0 && -512 < k0 < 512 && Sure(x, k0, kCheck)
    requires 0 <= ilim0 <= QUICK_MAX && ilim1 <= ilim0
    ensures found && ilim0 == 0 ==> FoundNone(x, t, decpt, k0, ndigits)
    ensures found && ilim0 > 0 ==> k == k0 || k == k0 - 1
    ensures found && ilim0 > 0 ==> Found(x, t, decpt, k, n, d, if k == k0 then ilim0 else ilim1)
    ensures kCheck && ilim0 > 0 && ilim1 <= 0 && x < RPow(10, k0) * (1.0 - 14.0 * H) ==> !found
    ensures !found && !(kCheck && ilim0 > 0 && ilim1 <= 0 && x < RPow(10, k0) * (1.0 + 14.0 * H)) ==>
      (k == k0 || (ilim0 > 0 && k == k0 - 1)) && Leads(x, k) && TooNear(x, k, k + 1 - if k == k0 then ilim0 else ilim1)
  {
    hide Rounds, IsDouble, Close, Shifted, RPow, Mul, Div, Tracks, Hit, Sure, ErrorOf, NearTie, TooNear, Leads;
    found, t, decpt, k, n, d := false, [], 0, k0, 0, 0;
    SureBelow(x, k0, kCheck);
    var u, ieps := ScaleTo(fl, x, k0);
    SureRange(fl, x, k0, kCheck, u, 2 * ieps - 3);
    if u >= 1.0 { NotBelowOne(x, k0, u, ieps); }
    var k1, ilim := k0, ilim0;
    if kCheck && u < 1.0 && ilim > 0 {
      if ilim1 <= 0 {
        BelowOne(x, k0, u, ieps);
        return;
      }
      TenMore(fl, u, x, k1, 2 * ieps - 3);
      ilim, k1, u, ieps := ilim1, k1 - 1, Mul(fl, u, 10.0), ieps + 1;
      k := k1;
    }
    var eps := Epsilon(fl, u, ieps);
    if ilim == 0 {
      HalfOrNot(fl, u, eps, Shifted(x, -k0), ieps);
      u := fl(u - 5.0);
      if u > eps { return true, [1], k1 + 2, k, 0, 0; }
      if u < -eps { return true, [], -ndigits, k, 0, 0; }
      GaveUpNone(x, k0);
      return;
    }
    ghost var v := Shifted(x, -k1);
    TracksFirst(u, v, ieps);
    var up;
    if leftright {
      found, t, up, n, d := QuickShortest(fl, u, eps, ilim, v, ErrorOf(u, ieps));
    } else {
      found, t, up, n, d := QuickFixed(fl, u, eps, ilim, v, ErrorOf(u, ieps));
    }
    decpt := k1 + up + 1;
    if !found { GaveUp(x, k1, ilim, u, ieps); }
  }

  // ---- What is found is the number, rounded ----

  /** Rounded at the place, and no tie: less than half a unit away. */
  ghost predicate Strictly(t: seq<Digit>, decpt: int, x: real, place: int) {
    Rounded(t, decpt, x, place) && 2.0 * Abs(Decimal(t, decpt) - x) < RPow(10, place)
  }

  lemma StrictMultiple(j: int, x: real, place: int)
    requires 2.0 * Abs(Multiple(j, place) - x) < RPow(10, place)
    ensures RoundedAt(Multiple(j, place), x, place)
  {
    assert HalfEven(j, Multiple(j, place), x, place);
  }

  /** Half a unit, cleared of the powers of ten. */
  lemma NearReal(v: real, d: nat, m: nat, ilim: nat, k: int)
    requires ilim >= 1 && NearBy(v, d, m, ilim)
    ensures 2.0 * Abs(Multiple(d, k - m) - Shifted(v, k)) < RPow(10, k + 1 - ilim)
  {
    hide RPow, Pow;
    var p, q, tm, tl := RPow(10, k - m), RPow(10, k + 1 - ilim), Tens(m), Tens(ilim - 1);
    var a := v * tm - d as real;
    RPowIs(10, m);
    RPowIs(10, ilim - 1);
    RPowAdd(10, m, k - m);
    RPowAdd(10, ilim - 1, k + 1 - ilim);
    assert m + (k - m) == k && ilim - 1 + (k + 1 - ilim) == k;
    RegroupThree(v, tm, p);
    Difference(v * tm, d as real, a, p);
    NearArith(a, Abs(a), tm, tl, p, q, RPow(10, k), Multiple(d, k - m) - Shifted(v, k));
  }

  lemma NearArith(a: real, b: real, tm: real, tl: real, p: real, q: real, pk: real, y: real)
    requires tm >= 1.0 && tl >= 1.0 && p > 0.0 && q > 0.0 && pk == tm * p && pk == tl * q
    requires b * (2.0 * tl) < tm && b == Abs(a) && y == -(a * p)
    ensures 2.0 * Abs(y) < q
  {
    AbsProduct(a, p, y);
    Scaled(b * (2.0 * tl), tm, p);
    SwapFactors(b, tl, p);
    Scaled(2.0 * (b * p), q, tl);
  }

  lemma SwapFactors(b: real, tl: real, p: real)
    ensures (b * (2.0 * tl)) * p == (2.0 * (b * p)) * tl
  {
  }

  /** At the place of the k that the path ended with. */
  lemma FoundRounds(x: real, t: seq<Digit>, decpt: int, k: int, n: nat, d: nat, ilim: int)
    requires Found(x, t, decpt, k, n, d, ilim)
    ensures Strictly(t, decpt, x, k + 1 - ilim)
  {
    hide RPow, Pow, Tens, NearBy, Shifted, Abs, Multiple, Decimal, ReadsAs;
    ReadsReal(t, n, decpt - k - 1, d, k);
    NearReal(Shifted(x, -k), d, n - 1, ilim, k);
    ShiftedTwice(x, -k, k);
    MultipleFiner(d, k - (n - 1), k + 1 - ilim);
    StrictMultiple(d * Pow(10, k - (n - 1) - (k + 1 - ilim)), x, k + 1 - ilim);
  }

  /** When no digit is asked for. */
  lemma NoneRounds(x: real, t: seq<Digit>, decpt: int, k: int, ndigits: int)
    requires FoundNone(x, t, decpt, k, ndigits) && ndigits + k + 1 == 0 && 0.0 < x < RPow(10, k + 1)
    ensures Strictly(t, decpt, x, -ndigits)
  {
    hide RPow, Shifted, Decimal, Multiple, DigVal;
    var j := if t == [1] then 1 else 0;
    NoneArith(x, k, Shifted(x, -k), j, t == [1]);
    OneIs(k + 2);
    NothingIs(k + 1);
    StrictMultiple(j, x, k + 1);
  }

  lemma NoneArith(x: real, k: int, v: real, j: int, above: bool)
    requires v == Shifted(x, -k) && 0.0 < x < RPow(10, k + 1) && (if above then v > 5.0 && j == 1 else v < 5.0 && j == 0)
    ensures 2.0 * Abs(Multiple(j, k + 1) - x) < RPow(10, k + 1)
  {
    hide RPow;
    ShiftedTwice(x, -k, k);
    RPowNext(10, k);
    if above {
      AboveFive(x, v, RPow(10, k));
      assert Multiple(1, k + 1) == RPow(10, k + 1);
    } else {
      BelowFive(x, v, RPow(10, k));
      assert Multiple(0, k + 1) == 0.0;
    }
  }

  lemma AboveFive(x: real, v: real, p: real)
    requires p > 0.0 && x == v * p && v > 5.0
    ensures x > 5.0 * p
  {
    Scaled(5.0, v, p);
  }

  lemma BelowFive(x: real, v: real, p: real)
    requires p > 0.0 && x == v * p && v < 5.0
    ensures x < 5.0 * p
  {
    Scaled(v, 5.0, p);
  }

  lemma NothingIs(decpt: int)
    ensures Decimal([], decpt) == Multiple(0, decpt)
  {
  }

  lemma OneIs(decpt: int)
    ensures Decimal([1], decpt) == Multiple(1, decpt - 1)
  {
    assert [1][..0] == [] && DigVal([1]) == 1;
  }

  // ---- The place of the true first digit ----

  lemma SameAs(t: seq<Digit>, decpt: int, x: real, place: int, j: int)
    requires Strictly(t, decpt, x, place) && 2.0 * Abs(Multiple(j, place) - x) < RPow(10, place)
    ensures Decimal(t, decpt) == Multiple(j, place)
  {
    hide RPow, Decimal, Multiple, RoundedAt;
    StrictMultiple(j, x, place);
    RoundedOnce(Decimal(t, decpt), Multiple(j, place), x, place);
  }

  lemma PowerAsMultiple(k: int, place: int)
    requires place <= k
    ensures RPow(10, k) == Multiple(Pow(10, k - place), place) && RPow(10, k) == Tens(k - place) * RPow(10, place)
  {
    hide RPow, Pow;
    OnePower(k);
    MultipleFiner(1, k, place);
  }

  /** A number just below 10^k that was taken for 10^k. */
  lemma JustBelow(x: real, k: int, n: nat)
    requires 1 <= n <= QUICK_MAX && 1.0 - 14.0 * H <= Shifted(x, -k) < 1.0
    ensures 2.0 * Abs(RPow(10, k) - x) < RPow(10, k - n) < RPow(10, k + 1 - n)
    ensures Leads(x, k - 1)
  {
    hide RPow, Pow, Tens;
    var v, p, q := Shifted(x, -k), RPow(10, k), RPow(10, k - n);
    ShiftedTwice(x, -k, k);
    PowerAsMultiple(k, k - n);
    TensNext(n - 1);
    TensBound(n - 1);
    RPowNext(10, k - n);
    RPowNext(10, k - 1);
    JustBelowArith(v, p, x, q, Tens(n));
  }

  lemma JustBelowArith(v: real, p: real, x: real, q: real, t: real)
    requires 1.0 - 14.0 * H <= v < 1.0 && p > 0.0 && x == v * p && q > 0.0 && p == t * q && 1.0 <= t <= 100000000000000.0
    ensures 2.0 * Abs(p - x) < q && x < p && x > 0.5 * p
  {
    Bounds(1.0 - 14.0 * H, v, 1.0, p, x);
    AtMostTimes(t, 100000000000000.0, q, p);
    SmallDifference(p, x, q, 14.0 * H, 100000000000000.0);
  }

  lemma AtMostTimes(t: real, m: real, q: real, p: real)
    requires t <= m && q > 0.0 && p == t * q
    ensures p <= m * q
  {
    ScaledBelow(t, m, q);
  }

  lemma SmallDifference(p: real, x: real, q: real, h: real, m: real)
    requires (1.0 - h) * p <= x <= (1.0 + h) * p && p > 0.0 && q > 0.0 && p <= m * q && h >= 0.0 && m * h < 0.4
    ensures 2.0 * Abs(p - x) < q
  {
    var hp := h * p;
    assert (1.0 - h) * p == p - hp && (1.0 + h) * p == p + hp;
    assert hp < 0.4 * q by {
      NotNegative(h, m * q - p);
      assert h * (m * q - p) == (m * h) * q - hp;
      Scaled(m * h, 0.4, q);
    }
  }

  lemma Bounds(lo: real, v: real, hi: real, p: real, x: real)
    requires lo <= v < hi && p > 0.0 && x == v * p
    ensures lo * p <= x < hi * p
  {
    Scaled(lo, v, p);
    Scaled(v, hi, p);
  }

  /** A number just above 10^(k + 1) that was taken for one with the first digit at 10^k. */
  lemma JustAbove(x: real, k: int, n: nat)
    requires 1 <= n <= QUICK_MAX && 10.0 <= Shifted(x, -k) < 10.0 + 140.0 * H
    ensures 2.0 * Abs(RPow(10, k + 1) - x) < RPow(10, k + 1 - n) < RPow(10, k + 2 - n)
    ensures Leads(x, k + 1)
  {
    hide RPow, Pow, Tens;
    var v, p, q := Shifted(x, -k), RPow(10, k), RPow(10, k + 1 - n);
    ShiftedTwice(x, -k, k);
    PowerAsMultiple(k, k + 1 - n);
    TensBound(n - 1);
    RPowNext(10, k);
    RPowNext(10, k + 1);
    RPowNext(10, k + 1 - n);
    JustAboveArith(v, p, x, q, Tens(n - 1));
  }

  lemma JustAboveArith(v: real, p: real, x: real, q: real, t: real)
    requires 10.0 <= v < 10.0 + 140.0 * H && p > 0.0 && x == v * p && q > 0.0 && p == t * q && 1.0 <= t <= 10000000000000.0
    ensures 2.0 * Abs(10.0 * p - x) < q && 10.0 * p <= x < 11.0 * p
  {
    Bounds(10.0, v, 10.0 + 140.0 * H, p, x);
    AtMostTimes(t, 10000000000000.0, q, p);
    SmallDifference(10.0 * p, x, q, 14.0 * H, 100000000000000.0);
  }

  /** Digits without trailing zeros that stand for a power of ten reach no further down. */
  lemma PowerDigits(t: seq<Digit>, decpt: int, k: int)
    requires |t| >= 1 && t[|t| - 1] != 0 && Decimal(t, decpt) == RPow(10, k)
    ensures decpt - |t| >= k
  {
    hide RPow, Pow, DigVal;
    var e := decpt - |t|;
    if e < k {
      PowerAsMultiple(k, e);
      var c := Pow(10, k - e);
      Scaled(DigVal(t) as real, c as real, RPow(10, e));
      Scaled(c as real, DigVal(t) as real, RPow(10, e));
      assert DigVal(t) == c;
      PowNext(10, k - e - 1);
      LastOf(t);
    }
  }

  lemma FoundDigits(x: real, t: seq<Digit>, decpt: int, k: int, n: nat, d: nat, ilim: int)
    requires Found(x, t, decpt, k, n, d, ilim)
    ensures |t| >= 1 && t[0] != 0 && t[|t| - 1] != 0
    ensures 1 <= ilim <= QUICK_MAX && 1.0 - 14.0 * H <= Shifted(x, -k) < 10.0 + 140.0 * H
  {
    hide NearBy, ReadsAs;
  }

  /** Rounded also at the place that the true first digit asks for, if so many digits are asked for. */
  lemma AtTrueLead(x: real, t: seq<Digit>, decpt: int, k: int, n: nat, d: nat, ilim: int, lead: int)
    requires Found(x, t, decpt, k, n, d, ilim) && Leads(x, lead)
    ensures Strictly(t, decpt, x, lead + 1 - ilim)
  {
    hide RPow, Pow, Found, Shifted, Abs, Multiple, Decimal;
    FoundRounds(x, t, decpt, k, n, d, ilim);
    FoundDigits(x, t, decpt, k, n, d, ilim);
    var v, place := Shifted(x, -k), k + 1 - ilim;
    if v < 1.0 {
      JustBelow(x, k, ilim);
      SameFirstDigit(x, lead, k - 1);
      PowerAsMultiple(k, place);
      SameAs(t, decpt, x, place, Pow(10, k - place));
      PowerAsMultiple(k, place - 1);
      StrictMultiple(Pow(10, k - (place - 1)), x, place - 1);
    } else if v >= 10.0 {
      JustAbove(x, k, ilim);
      SameFirstDigit(x, lead, k + 1);
      PowerAsMultiple(k + 1, place);
      SameAs(t, decpt, x, place, Pow(10, k + 1 - place));
      PowerDigits(t, decpt, k + 1);
      PowerAsMultiple(k + 1, place + 1);
      StrictMultiple(Pow(10, k + 1 - (place + 1)), x, place + 1);
    } else {
      LeadsAt(x, k);
      SameFirstDigit(x, lead, k);
    }
  }

  lemma LeadsAt(x: real, k: int)
    requires 1.0 <= Shifted(x, -k) < 10.0
    ensures Leads(x, k)
  {
    hide RPow;
    var v, p := Shifted(x, -k), RPow(10, k);
    ShiftedTwice(x, -k, k);
    assert x == v * p;
    RPowNext(10, k);
    Bounds(1.0, v, 10.0, p, x);
  }
}

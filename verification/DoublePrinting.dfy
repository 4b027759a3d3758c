/** `dtoa` as a whole. */
module DoublePrinting {
  import opened Bits
  import opened BigWords
  import opened Pow5s
  import opened Digits
  import opened DtoaLoop
  import opened Dtoa
  import opened DoubleBits
  import opened Decimals
  import opened SmallIntegers
  import opened Printing
  import opened Floats
  import opened QuickPath

  const TEN_PMAX: int := 22
  const INT_MAX: int := 14
  const DTOA_OVERFLOW: int := 9999

  /** The estimate is corrected where the power of ten is a double. */
  method SettleEstimate(word0: Word, word1: Word, k0: int) returns (k: int, kCheck: bool)
    requires Estimated(word0, word1, k0, true)
    ensures Estimated(word0, word1, k, kCheck) && (kCheck ==> k < 0 || k > TEN_PMAX)
    ensures if kCheck then k == k0 else 0 <= k0 <= TEN_PMAX && (k == k0 || k == k0 - 1)
  {
    hide RPow;
    k, kCheck := k0, true;
    if 0 <= k <= TEN_PMAX {
      if DoubleValue(word0, word1) < RPow(10, k) {
        k := k - 1;
      }
      kCheck := false;
    }
  }

  /** A double with an exponent that is not negative is an integer. */
  lemma IsInteger(word0: Word, word1: Word, m: nat, shift: nat, e: int)
    requires m * Pow2(shift) == Significand(word0, word1) && e == Exponent(word0) + shift && e >= 0 && m > 0
    ensures DoubleValue(word0, word1) == (m * Pow2(e)) as real && m * Pow2(e) > 0
  {
    hide RPow, Pow, Pow2, Significand, Exponent;
    Pow2Is(shift);
    Pow2Is(e);
    RPowIs(2, shift);
    RPowIs(2, e);
    RPowAdd(2, shift, Exponent(word0));
    ProductReal(m, Pow(2, shift));
    ProductReal(m, Pow(2, e));
    RegroupThree(m as real, RPow(2, shift), RPow(2, Exponent(word0)));
    PowPositive(2, e);
    MulMono(1, m, 1, Pow(2, e));
  }

  /** A double of at least one has a first digit left of the decimal point. */
  lemma NotBelowOne(x: real, k: int)
    requires x >= 1.0 && x < RPow(10, k + 1)
    ensures k >= 0
  {
    hide RPow;
    if k < 0 {
      RPowMono(10, k + 1, 0);
      RPowZero(10);
      assert false;
    }
  }

  lemma LeadsInteger(u: nat, k: nat)
    requires Leads(u as real, k)
    ensures Pow(10, k) <= u < 10 * Pow(10, k)
  {
    RPowIs(10, k);
    RPowIs(10, k + 1);
    PowNext(10, k);
  }

  /** The double is an integer below 10^15 that keeps a zero at its end. */
  ghost predicate KeepsZero(x: real, k: int, place: int) {
    x.Floor as real == x && 0 <= k <= INT_MAX && x >= 0.0 && ZeroStays(x.Floor, k, k + 1 - place)
  }

  /** The small-integer path, for a double. */
  method PrintInteger(word0: Word, word1: Word, ghost u: nat, k: int, mode: nat, ndigits0: int)
    returns (t: seq<Digit>, decpt: int)
    requires Significand(word0, word1) > 0 && DoubleValue(word0, word1) == u as real && 0 <= k <= INT_MAX && mode <= 5
    requires Leads(u as real, k)
    ensures Prints(mode, k + 1 - Limit(mode, ndigits0, k), t, decpt, k, RoundingInterval(word0, word1, mode != 1))
    ensures t == [] || (t[0] != 0 && (t[|t| - 1] == 0 <==> mode >= 2 && KeepsZero(DoubleValue(word0, word1), k, k + 1 - Limit(mode, ndigits0, k))))
  {
    hide RPow, Pow, DigVal, Prints, Gen.RoundedHalfEven, RoundedAway, ReadsAs, Ends, Leads, Significand, ZeroStays;
    var v := DoubleValue(word0, word1).Floor;
    assert v == u;
    LeadsInteger(u, k);
    var ilim, ilim1, ndigits, leftright := Limits(mode, ndigits0, k);
    ghost var n, d, end;
    t, decpt, n, d, end := SmallInteger(v, k, mode, ilim, ndigits);
    OnlyAtLimit(u, k, ilim);
    BelowLimit(u, k);
    LessThanOne(word0, word1, mode != 1);
    IntervalAround(word0, word1, mode != 1);
    IntegerPrints(u, k, t, decpt, n, d, end, mode, ndigits0, RoundingInterval(word0, word1, mode != 1));
  }

  lemma OnlyAtLimit(u: nat, k: nat, lim: int)
    ensures lim < 1 ==> !ZeroStays(u, k, lim)
  {
  }

  lemma BelowLimit(u: nat, k: int)
    requires Leads(u as real, k) && k <= INT_MAX
    ensures u as real < RPow(10, 15)
  {
    hide RPow;
    RPowMono(10, k + 1, 15);
  }

  // ---- The quick path, for a double ----

  lemma ValueIsDouble(word0: Word, word1: Word)
    ensures IsDouble(DoubleValue(word0, word1))
  {
    hide RPow;
    assert Float(Significand(word0, word1), Exponent(word0)) == DoubleValue(word0, word1);
  }

  lemma {:induction false} TenAboveEight(n: nat)
    ensures Pow(10, n) >= Pow(2, 3 * n)
  {
    if n > 0 {
      hide Pow;
      TenAboveEight(n - 1);
      PowNext(10, n - 1);
      PowNext(2, 3 * n - 1);
      PowNext(2, 3 * n - 2);
      PowNext(2, 3 * n - 3);
    } else {
      PowNext(10, 0);
      PowNext(2, 0);
    }
  }

  lemma LargePower(n: nat)
    ensures RPow(10, n) >= RPow(2, 3 * n) && RPow(10, 0 - n) <= RPow(2, 0 - 3 * n)
  {
    hide RPow, Pow;
    TenAboveEight(n);
    RPowIs(10, n);
    RPowIs(2, 3 * n);
    RPowAdd(10, n, 0 - n);
    RPowAdd(2, 3 * n, 0 - 3 * n);
    RPowZero(10);
    RPowZero(2);
    InverseOrder(RPow(10, n), RPow(10, 0 - n), RPow(2, 3 * n), RPow(2, 0 - 3 * n));
  }

  lemma InverseOrder(a: real, a': real, b: real, b': real)
    requires a >= b > 0.0 && a * a' == 1.0 && b * b' == 1.0 && a' > 0.0
    ensures a' <= b'
  {
    NotNegative(a - b, a');
    assert (a - b) * a' == 1.0 - b * a';
    Scaled(b', a', b);
  }

  /** The range of finite doubles. */
  lemma DoubleRange(word0: Word, word1: Word)
    requires Finite(word0) && Significand(word0, word1) > 0
    ensures RPow(2, -1074) <= DoubleValue(word0, word1) < RPow(2, 1024)
  {
    hide RPow, Pow, Significand;
    var m, e := Significand(word0, word1), Exponent(word0);
    SignificandRange(word0, word1);
    PowersOfTwo();
    RPowMono(2, -1074, e);
    AtLeastOne(m, RPow(2, e), DoubleValue(word0, word1));
    RPowIs(2, 53);
    RPowAdd(2, 53, e);
    RPowMono(2, 53 + e, 1024);
    Product(m, TWO_53, RPow(2, e), DoubleValue(word0, word1));
  }

  lemma Product(m: int, n: int, p: real, x: real)
    requires m < n && p > 0.0 && x == m as real * p
    ensures x < n as real * p
  {
    Scaled(m as real, n as real, p);
  }

  /** So the decimal exponents are far from 512. */
  lemma SmallExponent(word0: Word, word1: Word, k: int)
    requires Finite(word0) && Significand(word0, word1) > 0 && Estimated(word0, word1, k, true)
    ensures -511 < k < 511
  {
    hide RPow, Significand;
    DoubleRange(word0, word1);
    if k >= 511 {
      RPowMono(10, 510, k - 1);
      LargePower(510);
      RPowMono(2, 1024, 1530);
    } else if k <= -511 {
      RPowMono(10, k + 1, -510);
      LargePower(510);
      RPowMono(2, -1530, -1074);
    }
  }

  lemma StillSure(word0: Word, word1: Word, k0: int, k: int, kCheck: bool)
    requires Estimated(word0, word1, k0, true) && Sure(DoubleValue(word0, word1), k0, true)
    requires Estimated(word0, word1, k, kCheck) && (if kCheck then k == k0 else 0 <= k0 <= TEN_PMAX && (k == k0 || k == k0 - 1))
    ensures Sure(DoubleValue(word0, word1), k, kCheck)
  {
    hide RPow;
  }

  /** The first digit, given an estimate. */
  ghost function TrueLead(x: real, k: int): int {
    if x < RPow(10, k) then k - 1 else k
  }

  /** What the quick path finds is the double, rounded at the place asked for. */
  lemma QuickRounds(x: real, t: seq<Digit>, decpt: int, k0: int, k: int, n: nat, d: nat, mode: nat, ndigits: int, lead: int)
    requires 2 <= mode <= 5 && 0.0 < x < RPow(10, k0 + 1) && Leads(x, lead)
    requires Limit(mode, ndigits, k0) >= 0
    requires Limit(mode, ndigits, k0) == 0 ==> FoundNone(x, t, decpt, k0, ndigits)
    requires Limit(mode, ndigits, k0) > 0 ==> Found(x, t, decpt, k, n, d, Limit(mode, ndigits, k))
    ensures Strictly(t, decpt, x, lead + 1 - Limit(mode, ndigits, lead)) && Trimmed(t)
  {
    hide RPow, Found, Strictly, Leads;
    if Limit(mode, ndigits, k0) == 0 {
      hide FoundNone;
      NoneRounds(x, t, decpt, k0, ndigits);
      NoneTrimmed(x, t, decpt, k0, ndigits);
    } else {
      FoundDigits(x, t, decpt, k, n, d, Limit(mode, ndigits, k));
      if mode == 3 || mode == 5 {
        FoundRounds(x, t, decpt, k, n, d, Limit(mode, ndigits, k));
      } else {
        AtTrueLead(x, t, decpt, k, n, d, Limit(mode, ndigits, k), lead);
      }
    }
  }

  lemma NoneTrimmed(x: real, t: seq<Digit>, decpt: int, k: int, ndigits: int)
    requires FoundNone(x, t, decpt, k, ndigits)
    ensures Trimmed(t)
  {
  }

  /** The modes that try the quick path: up to 14 digits are asked for if the first one has the weight 10^k. */
  predicate TriesQuick(mode: int, ndigits: int, k: int) {
    || ((mode == 2 || mode == 4) && ndigits <= 14)
    || ((mode == 3 || mode == 5) && 0 <= ndigits + k + 1 <= 14)
  }

  /** One digit is asked for if the estimate k is right, but it is one too great, up to an error: none is left. */
  predicate NoneLeft(x: real, mode: int, ndigits: int, k: int, error: real) {
    (mode == 3 || mode == 5) && ndigits + k == 0 && x < RPow(10, k) * (1.0 + error)
  }

  /** The quick path is tried, and not for nothing, for a double whose first digit has the weight 10^k and 10^k0 by the
      estimate. */
  predicate Attempts(x: real, mode: int, ndigits: int, k0: int, k: int, error: real) {
    if 0 <= k0 <= TEN_PMAX then TriesQuick(mode, ndigits, k)
    else TriesQuick(mode, ndigits, k0) && !NoneLeft(x, mode, ndigits, k0, error)
  }

  /** The quick path, where it is tried. */
  method PrintQuick(fl: real -> real, word0: Word, word1: Word, mode: int, ndigits0: int, k: int, kCheck: bool)
    returns (found: bool, t: seq<Digit>, decpt: int, ghost lead: int)
    requires Finite(word0) && Significand(word0, word1) > 0 && Estimated(word0, word1, k, kCheck) && -512 < k < 512
    requires 2 <= mode <= 5 ==> Rounds(fl) && Sure(DoubleValue(word0, word1), k, kCheck)
    ensures Leads(DoubleValue(word0, word1), lead) && (lead == k || lead == k - 1)
    ensures found ==> TriesQuick(mode, ndigits0, k) && Trimmed(t)
    ensures found && kCheck ==> !NoneLeft(DoubleValue(word0, word1), mode, ndigits0, k, -14.0 * H)
    ensures found ==> Strictly(t, decpt, DoubleValue(word0, word1), lead + 1 - Limit(mode, ndigits0, lead))
    ensures TriesQuick(mode, ndigits0, k) && !found &&
            !(kCheck && NoneLeft(DoubleValue(word0, word1), mode, ndigits0, k, 14.0 * H)) ==>
      TooNear(DoubleValue(word0, word1), lead, lead + 1 - Limit(mode, ndigits0, lead))
  {
    hide RPow, Rounds, IsDouble, Sure, Significand, Strictly, Found, FoundNone, TooNear;
    var x := DoubleValue(word0, word1);
    lead := TrueLead(x, k);
    found, t, decpt := false, [], 0;
    if 2 <= mode <= 5 {
      var ilim, ilim1, ndigits, leftright := Limits(mode, ndigits0, k);
      if 0 <= ilim <= QUICK_MAX {
        ghost var k1, n, d;
        ValueIsDouble(word0, word1);
        found, t, decpt, k1, n, d := TryQuick(fl, x, k, kCheck, ilim, ilim1, ndigits, leftright);
        if found {
          QuickRounds(x, t, decpt, k, k1, n, d, mode, ndigits0, lead);
        } else if !(kCheck && NoneLeft(x, mode, ndigits0, k, 14.0 * H)) {
          SameFirstDigit(x, k1, lead);
        }
      }
    }
  }

  /** On a tie the quick path gives up. */
  lemma TieGivesUp(t: seq<Digit>, decpt: int, x: real, place: int, j: int)
    requires 2.0 * x == Multiple(2 * j + 1, place)
    ensures !Strictly(t, decpt, x, place)
  {
    hide RPow;
    if Strictly(t, decpt, x, place) {
      var y := Decimal(t, decpt);
      var d: int :| HalfEven(d, y, x, place);
      OddDistance(d, j, RPow(10, place), y, x);
      assert false;
    }
  }

  lemma OddDistance(d: int, j: int, p: real, y: real, x: real)
    requires p > 0.0 && y == d as real * p && 2.0 * x == (2 * j + 1) as real * p
    ensures 2.0 * Abs(y - x) >= p
  {
    var n := 2 * d - (2 * j + 1);
    assert 2.0 * (y - x) == n as real * p by {
      assert n as real == 2.0 * d as real - (2 * j + 1) as real;
    }
    if n >= 1 { ScaledBelow(1.0, n as real, p); } else { ScaledBelow(n as real, -1.0, p); }
  }

  // ---- The whole of it ----

  /** `dtoa`, for every double and every mode: the sign, and for a finite number that is not zero what the mode promises.
      Modes 2 to 5 try double arithmetic first for up to 14 digits. That succeeds unless the double is too near to a tie
      at the place asked for, and the result is then the double rounded there, without trailing zeros. Otherwise it is
      what the mode promises, with trailing zeros in one case. */
  method PrintDouble(fl: real -> real, word0: Word, word1: Word, mode0: int, ndigits: int, k0: int)
    returns (sign: bool, t: seq<Digit>, decpt: int, ghost k: int, ghost place: int, ghost quick: bool)
    requires Finite(word0) && Significand(word0, word1) > 0 ==> Estimated(word0, word1, k0, true)
    requires Finite(word0) && Significand(word0, word1) > 0 && 2 <= mode0 <= 5 ==>
      Rounds(fl) && Sure(DoubleValue(word0, word1), k0, true)
    ensures sign <==> word0 >= 0x8000_0000
    ensures !Finite(word0) ==> t == [0] && decpt == DTOA_OVERFLOW
    ensures Finite(word0) && Significand(word0, word1) == 0 ==> t == [0] && decpt == 1
    ensures Finite(word0) && Significand(word0, word1) > 0 ==> Leads(DoubleValue(word0, word1), k)
    ensures NormalMode(mode0) in {2, 4} ==> place == if ndigits < 1 then k else k + 1 - ndigits
    ensures NormalMode(mode0) in {3, 5} ==> place == -ndigits
    ensures Finite(word0) && Significand(word0, word1) > 0 && quick ==>
      && Attempts(DoubleValue(word0, word1), mode0, ndigits, k0, k, -14.0 * H)
      && Trimmed(t) && Strictly(t, decpt, DoubleValue(word0, word1), place)
    ensures Finite(word0) && Significand(word0, word1) > 0 &&
            Attempts(DoubleValue(word0, word1), mode0, ndigits, k0, k, 14.0 * H) ==>
      quick || TooNear(DoubleValue(word0, word1), k, place)
    ensures Finite(word0) && Significand(word0, word1) > 0 && (quick ==> mode0 <= 3) ==>
      var mode := NormalMode(mode0);
      Prints(mode, place, t, decpt, k, RoundingInterval(word0, word1, mode != 1))
    ensures Finite(word0) && Significand(word0, word1) > 0 && !quick && t != [] ==>
      t[0] != 0 && (t[|t| - 1] == 0 <==> NormalMode(mode0) >= 2 && KeepsZero(DoubleValue(word0, word1), k, place))
  {
    hide RPow, Rounds, Sure, Prints, Leads, Significand, KeepsZero, Strictly, TooNear, NoneLeft;
    sign, k, quick := word0 >= 0x8000_0000, 0, false;
    place := 1 - Limit(NormalMode(mode0), ndigits, 0);
    if !Finite(word0) {
      return sign, [0], DTOA_OVERFLOW, 0, place, false;
    }
    if Significand(word0, word1) == 0 {
      return sign, [0], 1, 0, place, false;
    }
    SmallExponent(word0, word1, k0);
    var k1, kCheck := SettleEstimate(word0, word1, k0);
    if 2 <= mode0 <= 5 { StillSure(word0, word1, k0, k1, kCheck); }
    var found;
    found, t, decpt, k := PrintQuick(fl, word0, word1, mode0, ndigits, k1, kCheck);
    place := k + 1 - Limit(NormalMode(mode0), ndigits, k);
    if !kCheck { SettledIs(word0, word1, k1, k); }
    if found {
      if mode0 <= 3 { RoundedIsPrinted(mode0, place, t, decpt, k, RoundingInterval(word0, word1, true)); }
      return sign, t, decpt, k, place, true;
    }
    ghost var lead := k;
    t, decpt, k := PrintSlow(word0, word1, NormalMode(mode0), ndigits, k1, kCheck);
    SameFirstDigit(DoubleValue(word0, word1), lead, k);
  }

  lemma SettledIs(word0: Word, word1: Word, k1: int, k: int)
    requires Estimated(word0, word1, k1, false) && Leads(DoubleValue(word0, word1), k)
    ensures k == k1
  {
    hide RPow;
    SameFirstDigit(DoubleValue(word0, word1), k1, k);
  }

  lemma RoundedIsPrinted(mode: nat, place: int, t: seq<Digit>, decpt: int, k: int, i: Interval)
    requires 2 <= mode <= 3 && Strictly(t, decpt, i.x, place)
    ensures Prints(mode, place, t, decpt, k, i)
  {
    hide RPow, RoundedAt, Decimal;
  }

  // ---- Trailing zeros ----

  /** 1001 and 1005 as doubles. */
  lemma TwoDoubles()
    ensures Finite(0x408F_4800) && Significand(0x408F_4800, 0) > 0 && DoubleValue(0x408F_4800, 0) == 1001.0
    ensures Finite(0x408F_6800) && Significand(0x408F_6800, 0) > 0 && DoubleValue(0x408F_6800, 0) == 1005.0
  {
    hide RPow, Pow;
    assert Significand(0x408F_4800, 0) == 8804889115230208 && Significand(0x408F_6800, 0) == 8840073487319040;
    assert Exponent(0x408F_4800) == Exponent(0x408F_6800) == -43;
    PowersOfTwo();
    RPowAdd(2, -53, 10);
    RPowIs(2, 10);
    assert Pow(2, 10) == 1024 by {
      assert Pow(2, 5) == 32 by { PowNext(2, 4); PowNext(2, 3); PowNext(2, 2); PowNext(2, 1); PowNext(2, 0); }
      PowAdd(2, 5, 5);
    }
  }

  lemma SmallTens()
    ensures RPow(10, 1) == 10.0 && RPow(10, 2) == 100.0 && RPow(10, 3) == 1000.0 && RPow(10, 4) == 10000.0
  {
    hide RPow;
    RPowZero(10);
    RPowNext(10, 0);
    RPowNext(10, 1);
    RPowNext(10, 2);
    RPowNext(10, 3);
  }

  lemma Keeps1005(k: int)
    requires Leads(1005.0, k)
    ensures k == 3 && KeepsZero(1005.0, 3, 1)
  {
    hide RPow;
    SmallTens();
    SameFirstDigit(1005.0, k, 3);
    assert 1005.0.Floor == 1005;
    assert Pow(10, 1) == 10 by { PowNext(10, 0); }
  }

  lemma NoTieAt1001()
    ensures !TooNear(1001.0, 3, 1)
  {
    hide RPow;
    SmallTens();
    forall j: int ensures Abs(1001.0 - Tie(j, 1)) > 350.0 * H * RPow(10, 3) {
      if j <= 99 { assert Tie(j, 1) <= 995.0; } else { assert Tie(j, 1) >= 1005.0; }
    }
  }

  lemma Near1001(t: seq<Digit>, decpt: int)
    requires Rounded(t, decpt, 1001.0, 1)
    ensures Decimal(t, decpt) == RPow(10, 3)
  {
    hide RPow, Decimal;
    SmallTens();
    var y := Decimal(t, decpt);
    var d: int :| HalfEven(d, y, 1001.0, 1);
    assert y == 10.0 * d as real;
    assert d == 100;
  }

  /** A power of ten has one digit. */
  lemma PowerIsOne(t: seq<Digit>, decpt: int, k: int)
    requires Trimmed(t) && Decimal(t, decpt) == RPow(10, k)
    ensures t == [1] && decpt == k + 1
  {
    hide RPow, DigVal;
    NothingIs(decpt);
    PowerDigits(t, decpt, k);
    DigPositive(t);
    OneTimes(DigVal(t), decpt - |t|, k);
    JustOne(t);
  }

  lemma OneTimes(c: nat, e: int, k: int)
    requires c > 0 && e >= k && c as real * RPow(10, e) == RPow(10, k)
    ensures c == 1 && e == k
  {
    hide RPow;
    var r := c as real;
    ScaledBelow(1.0, r, RPow(10, e));
    if e > k {
      RPowMono(10, k + 1, e);
      RPowNext(10, k);
    }
    Scaled(1.0, r, RPow(10, k));
  }

  lemma JustOne(t: seq<Digit>)
    requires |t| >= 1 && t[0] != 0 && DigVal(t) == 1
    ensures t == [1]
  {
    if |t| > 1 {
      DigPositive(t[..|t| - 1]);
    }
  }

  /** To three digits, 1001 is one digit: the quick path succeeds and drops the zeros, which the path for integers would
      keep. */
  method QuickThere(fl: real -> real) returns (t: seq<Digit>, decpt: int)
    requires Rounds(fl)
    ensures t == [1] && decpt == 4
  {
    hide RPow, Rounds, KeepsZero, Significand, Exponent, Prints, TooNear, Decimal, Rounded;
    TwoDoubles();
    SmallTens();
    var sign;
    ghost var k, place, quick;
    sign, t, decpt, k, place, quick := PrintDouble(fl, 0x408F_4800, 0, 4, 3, 3);
    SameFirstDigit(1001.0, k, 3);
    NoTieAt1001();
    Near1001(t, decpt);
    PowerIsOne(t, decpt, 3);
  }

  /** Trailing zeros are not always suppressed: 1005 to three digits, which mode 4 is asked for, is a tie. So the quick
      path gives up, and the zeros that the path for integers then generates stay. */
  method ZeroStaysThere(fl: real -> real) returns (t: seq<Digit>)
    requires Rounds(fl)
    ensures |t| >= 1 && t[|t| - 1] == 0
  {
    hide RPow, Rounds, KeepsZero, Significand, Exponent, Prints, Leads, Strictly;
    TwoDoubles();
    SmallTens();
    var sign, decpt;
    ghost var k, place, quick;
    sign, t, decpt, k, place, quick := PrintDouble(fl, 0x408F_6800, 0, 4, 3, 3);
    Keeps1005(k);
    if quick {
      TieGivesUp(t, decpt, 1005.0, 1, 100);
      assert false;
    }
    NotEmpty(4, 1, t, decpt, 3, RoundingInterval(0x408F_6800, 0, true));
  }

  lemma NotEmpty(mode: nat, place: int, t: seq<Digit>, decpt: int, k: int, i: Interval)
    requires mode == 4 && place == 1 && k == 3 && i.x == 1005.0 && Prints(mode, place, t, decpt, k, i)
    ensures |t| >= 1
  {
    hide RPow, Interval.Has;
    SmallTens();
    if t == [] {
      NothingIs(decpt);
    }
  }

  /** The other paths. */
  method PrintSlow(word0: Word, word1: Word, mode: nat, ndigits: int, k1: int, kCheck: bool)
    returns (t: seq<Digit>, decpt: int, ghost k: int)
    requires Significand(word0, word1) > 0 && Estimated(word0, word1, k1, kCheck) && mode <= 5
    requires kCheck ==> k1 < 0 || k1 > TEN_PMAX
    ensures Leads(DoubleValue(word0, word1), k)
    ensures Prints(mode, k + 1 - Limit(mode, ndigits, k), t, decpt, k, RoundingInterval(word0, word1, mode != 1))
    ensures t == [] ||
      (t[0] != 0 && (t[|t| - 1] == 0 <==> mode >= 2 && KeepsZero(DoubleValue(word0, word1), k, k + 1 - Limit(mode, ndigits, k))))
  {
    hide RPow, Pow, Pow2, PowB, Value, Prints, Leads, Significand, KeepsZero, Exponent, Estimated;
    var b, be, bits;
    ghost var shift;
    b, be, bits, shift := D2B(word0, word1);
    ghost var m := b.Val();
    if be >= 0 && k1 <= INT_MAX {
      ghost var u := m * Pow2(be);
      IsInteger(word0, word1, m, shift, be);
      NowExact(word0, word1, u, k1, kCheck);
      k := k1;
      t, decpt := PrintInteger(word0, word1, u, k1, mode, ndigits);
    } else if mode == 2 || mode == 3 {
      t, decpt, k := PrintRounded(word0, word1, k1, kCheck, mode, ndigits);
      NoZeroAtEnd(word0, word1, m, shift, be, k1, kCheck, k, k + 1 - Limit(mode, ndigits, k));
    } else {
      t, decpt, k := PrintShortest(word0, word1, k1, kCheck, mode, ndigits);
      NoZeroAtEnd(word0, word1, m, shift, be, k1, kCheck, k, k + 1 - Limit(mode, ndigits, k));
    }
  }

  /** A double with a negative exponent is no integer. */
  lemma NotInteger(word0: Word, word1: Word, m: nat, shift: nat, e: int, u: int)
    requires m * Pow2(shift) == Significand(word0, word1) && e == Exponent(word0) + shift && e < 0 && m % 2 == 1
    ensures DoubleValue(word0, word1) != u as real
  {
    hide RPow, Pow, Pow2, Significand, Exponent;
    Pow2Is(shift);
    RPowIs(2, shift);
    RPowAdd(2, shift, Exponent(word0));
    ProductReal(m, Pow(2, shift));
    RegroupThree(m as real, RPow(2, shift), RPow(2, Exponent(word0)));
    OddFraction(m, -e, u);
  }

  lemma OddFraction(m: nat, n: nat, u: int)
    requires m % 2 == 1 && n >= 1
    ensures m as real * RPow(2, 0 - n) != u as real
  {
    hide RPow, Pow;
    RPowAdd(2, 0 - n, n);
    RPowZero(2);
    RPowIs(2, n);
    PowNext(2, n - 1);
    NotTwice(m, u, Pow(2, n), Pow(2, n - 1), RPow(2, 0 - n));
  }

  lemma InverseIs(m: nat, u: int, f: int, r: real)
    requires m as real * r == u as real && r * f as real == 1.0
    ensures m == u * f
  {
    RegroupThree(m as real, r, f as real);
    ProductReal(u, f);
  }

  lemma TwiceIsEven(u: int, f: int, f': int)
    requires f == 2 * f'
    ensures (u * f) % 2 == 0
  {
    assert u * f == 2 * (u * f');
  }

  lemma NotTwice(m: nat, u: int, f: int, f': int, r: real)
    requires f == 2 * f' && r * f as real == 1.0 && m % 2 == 1
    ensures m as real * r != u as real
  {
    TwiceIsEven(u, f, f');
    if m as real * r == u as real {
      InverseIs(m, u, f, r);
    }
  }

  /** Only the small-integer path keeps a zero. */
  lemma NoZeroAtEnd(word0: Word, word1: Word, m: nat, shift: nat, be: int, k1: int, kCheck: bool, k: int, place: int)
    requires m * Pow2(shift) == Significand(word0, word1) && be == Exponent(word0) + shift && m % 2 == 1
    requires Estimated(word0, word1, k1, kCheck) && (kCheck ==> k1 < 0 || k1 > TEN_PMAX)
    requires Leads(DoubleValue(word0, word1), k) && (be < 0 || k1 > INT_MAX)
    ensures !KeepsZero(DoubleValue(word0, word1), k, place)
  {
    hide RPow, Significand, Exponent, ZeroStays;
    var x := DoubleValue(word0, word1);
    if be < 0 {
      NotInteger(word0, word1, m, shift, be, x.Floor);
    } else if kCheck {
      if k < k1 - 1 { RPowMono(10, k + 1, k1 - 1); }
    } else {
      SameFirstDigit(x, k1, k);
    }
  }

  lemma NowExact(word0: Word, word1: Word, u: nat, k: int, kCheck: bool)
    requires Estimated(word0, word1, k, kCheck) && (kCheck ==> k < 0 || k > TEN_PMAX) && k <= INT_MAX
    requires DoubleValue(word0, word1) == u as real && u > 0
    ensures 0 <= k && Leads(u as real, k)
  {
    hide RPow;
    NotBelowOne(u as real, k);
  }

  /** Neither infinite nor not a number. */
  predicate Finite(word0: Word) {
    ExponentField(word0) != 2047
  }
}

/** The interval around a double holds the reals that are rounded to it. */
module ReadBack {
  import opened BigWords
  import opened Pow5s
  import opened Digits
  import opened DoubleBits
  import opened Decimals
  import opened Printing

  /** A double with an exponent that is not smaller is a multiple of the unit. */
  lemma WholeUnits(m': nat, e': int, e: int) returns (c: nat)
    requires e' >= e
    ensures m' as real * RPow(2, e') == c as real * RPow(2, e)
  {
    hide RPow, Pow;
    c := m' * Pow(2, e' - e);
    RPowIs(2, e' - e);
    RPowAdd(2, e' - e, e);
    ProductReal(m', Pow(2, e' - e));
    RegroupThree(m' as real, Pow(2, e' - e) as real, RPow(2, e));
  }

  lemma UnitsApart(c: int, d: int, p: real, x: real, y: real)
    requires c < d && p > 0.0 && x == c as real * p && y == d as real * p
    ensures y - x >= p
  {
    StepsApart(c, d, p, x, y);
  }

  lemma UnitOrder(c: int, d: int, p: real, x: real, y: real)
    requires p > 0.0 && x == c as real * p && y == d as real * p && x < y
    ensures c < d
  {
    Scaled(d as real, c as real, p);
  }

  /** A double with a smaller exponent is below the doubles with a larger one. */
  lemma SmallerExponent(m': nat, e': int, e: int, x': real)
    requires e' < e && m' < 2 * HIDDEN && x' == m' as real * RPow(2, e')
    ensures x' <= (2 * HIDDEN - 1) as real * RPow(2, e - 1)
  {
    hide RPow;
    RPowMono(2, e', e - 1);
    Scaled(m' as real, (2 * HIDDEN - 1) as real, RPow(2, e'));
    var h := (2 * HIDDEN - 1) as real;
    Scaled(RPow(2, e'), RPow(2, e - 1), h);
  }

  /** The next double above is a unit away. */
  lemma GapAbove(word0: Word, word1: Word, word0': Word, word1': Word)
    requires DoubleValue(word0', word1') > DoubleValue(word0, word1)
    ensures DoubleValue(word0', word1') - DoubleValue(word0, word1) >= RPow(2, Exponent(word0))
  {
    hide RPow, Significand, Exponent;
    var m, e, x := Significand(word0, word1), Exponent(word0), DoubleValue(word0, word1);
    var m', e', x' := Significand(word0', word1'), Exponent(word0'), DoubleValue(word0', word1');
    SignificandRange(word0, word1);
    SignificandRange(word0', word1');
    if e' >= e {
      var c := WholeUnits(m', e', e);
      UnitOrder(m, c, RPow(2, e), x, x');
      UnitsApart(m, c, RPow(2, e), x, x');
    } else {
      SmallerExponent(m', e', e, x');
      RPowNext(2, e - 1);
      AtLeastHidden(m, RPow(2, e - 1), x);
      assert false;
    }
  }

  lemma AtLeastHidden(m: nat, h: real, x: real)
    requires m >= HIDDEN && h > 0.0 && x == m as real * (2.0 * h)
    ensures x >= (2 * HIDDEN) as real * h
    ensures m > HIDDEN ==> x >= (2 * HIDDEN + 2) as real * h
    ensures m == HIDDEN ==> x == (2 * HIDDEN) as real * h
  {
    RegroupReal(m as real, 2.0, h);
    assert x == (2 * m) as real * h;
    Scaled((2 * HIDDEN) as real, (2 * m) as real, h);
    Scaled((2 * HIDDEN + 2) as real, (2 * m) as real, h);
  }

  /** The next double below is a unit away, half a unit below a power of two. */
  lemma GapBelow(word0: Word, word1: Word, word0': Word, word1': Word)
    requires DoubleValue(word0', word1') < DoubleValue(word0, word1)
    ensures DoubleValue(word0, word1) - DoubleValue(word0', word1') >=
            if IsPowerOfTwo(word0, word1) then RPow(2, Exponent(word0) - 1) else RPow(2, Exponent(word0))
  {
    hide RPow, Significand, Exponent, IsPowerOfTwo;
    var m, e, x := Significand(word0, word1), Exponent(word0), DoubleValue(word0, word1);
    var m', e', x' := Significand(word0', word1'), Exponent(word0'), DoubleValue(word0', word1');
    SignificandRange(word0, word1);
    SignificandRange(word0', word1');
    RPowNext(2, e - 1);
    if e' >= e {
      var c := WholeUnits(m', e', e);
      UnitOrder(c, m, RPow(2, e), x', x);
      UnitsApart(c, m, RPow(2, e), x', x);
    } else {
      SmallerExponent(m', e', e, x');
      AtLeastHidden(m, RPow(2, e - 1), x);
    }
  }

  /** Every real of the interval is rounded to its double: no other double is nearer, and one as near only when the
      significand is even, so that the tie goes to it. */
  lemma RoundsToDouble(word0: Word, word1: Word, ends: bool, y: real, word0': Word, word1': Word)
    requires RoundingInterval(word0, word1, ends).Has(y) && DoubleValue(word0', word1') != DoubleValue(word0, word1)
    ensures var near, far := Abs(y - DoubleValue(word0, word1)), Abs(y - DoubleValue(word0', word1'));
      near < far || (near == far && word1 % 2 == 0)
  {
    hide RPow, Significand, Exponent, IsPowerOfTwo;
    var e := Exponent(word0);
    RPowNext(2, e - 1);
    RPowNext(2, e - 2);
    if DoubleValue(word0', word1') > DoubleValue(word0, word1) {
      GapAbove(word0, word1, word0', word1');
    } else {
      GapBelow(word0, word1, word0', word1');
    }
  }

  /** What modes 0 and 1 print is read back: no other double is nearer to it, and one as near only when the tie goes to
      the even significand. */
  lemma ReadsBack(word0: Word, word1: Word, mode: nat, place: int, t: seq<Digit>, decpt: int, k: int,
                  word0': Word, word1': Word)
    requires mode <= 1 && Prints(mode, place, t, decpt, k, RoundingInterval(word0, word1, mode != 1))
    requires DoubleValue(word0', word1') != DoubleValue(word0, word1)
    ensures var y := Decimal(t, decpt);
      var near, far := Abs(y - DoubleValue(word0, word1)), Abs(y - DoubleValue(word0', word1'));
      near < far || (near == far && word1 % 2 == 0)
  {
    hide RPow, RoundingInterval, DoubleValue, Decimal, Interval.Has, NoneCoarser, NoneFewer, NoneNearer;
    RoundsToDouble(word0, word1, mode != 1, Decimal(t, decpt), word0', word1');
  }
}

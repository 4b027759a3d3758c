/** Digit generation in `dtoa` on arbitrary-precision integers. */
module DtoaLoop {
  import opened Bits
  import opened BigWords
  import opened Bigints
  import opened QuoRems
  import opened Pow5s
  import opened Digits

  ghost predicate Apart(a: Bigint, b: Bigint) {
    a != b && a.x != b.x
  }

  /** A number in use: valid, without leading zero word, and with at least one word. */
  ghost predicate Number(b: Bigint)
    reads b, b.x
  {
    b.Valid() && b.Normal() && b.wds >= 1
  }

  /** The remainder b is below the lower margin: stopping here without rounding up is close enough. */
  ghost predicate LowOk(b: int, lo: int, closed: bool) {
    b < lo || (b == lo && closed)
  }

  /** Rounding up is close enough. */
  ghost predicate HighOk(b: int, hi: int, s: int, closed: bool) {
    b + hi > s || (b + hi == s && closed)
  }

  /** What the stopping tests decide after a digit: go on, stop with the digit or with the digit
      plus one, or stop with a nine that has to be rounded up. */
  datatype Decision = Continue | Accept(up: bool) | Nine

  /** The stopping tests of the digit loop. `mode1` is mode == 1; `even` is the low bit of the double being clear. */
  method Decide(b: Bigint, s: Bigint, mlo: Bigint, mhi: Bigint, dig: Digit, mode1: bool, even: bool)
    returns (d: Decision)
    requires b.Valid() && b.Normal() && (b.wds == 0 ==> b.x[0] == 0) && Number(s) && Number(mlo) && Number(mhi)
    requires b.Val() < s.Val() && 0 < mlo.Val() <= mhi.Val()
    ensures var closed := even && !mode1;
      var low, high := LowOk(b.Val(), mlo.Val(), closed), HighOk(b.Val(), mhi.Val(), s.Val(), closed);
      match d
      case Continue => !low && !high
      case Nine => high && dig == 9
      case Accept(up) => (if up then high && dig < 9 else low)
    ensures var closed := even && !mode1;
      var low, high := LowOk(b.Val(), mlo.Val(), closed), HighOk(b.Val(), mhi.Val(), s.Val(), closed);
      match d
      case Continue => true
      case Nine => 2 * b.Val() >= s.Val() || !low || (closed && b.Val() + mhi.Val() == s.Val() && b.Val() <= mlo.Val())
      case Accept(up) => if up then 2 * b.Val() >= s.Val() || !low else 2 * b.Val() <= s.Val() || !high
  {
    hide Value, PowB, Pow2;
    var j := Cmp(b, mlo);
    var delta := Diff(s, mhi);
    var j1 := 1;
    if !delta.sign {
      j1 := Cmp(b, delta);
    }
    if j1 == 0 && !mode1 && even {
      if dig == 9 { return Nine; }
      return Accept(j > 0);
    }
    if j < 0 || (j == 0 && !mode1 && even) {
      if b.x[0] == 0 && b.wds <= 1 {
        ZeroWord(b.x[..b.wds]);
        return Accept(false);
      }
      NotZero(b.x[..b.wds]);
      if j1 > 0 {
        var up := RoundsUp(b, s, dig);
        if up && dig == 9 { return Nine; }
        return Accept(up);
      }
      return Accept(false);
    }
    if j1 > 0 {
      if dig == 9 { return Nine; }
      return Accept(true);
    }
    return Continue;
  }

  /** The nearer of the two neighbours; a tie goes to the even digit. */
  method RoundsUp(b: Bigint, s: Bigint, dig: Digit) returns (up: bool)
    requires Number(b) && b.Val() > 0 && Number(s) && s.Val() > 0
    ensures up <==> 2 * b.Val() > s.Val() || (2 * b.Val() == s.Val() && dig % 2 == 1)
  {
    TopOfPositive(b.x[..b.wds]);
    var b2 := LShift(b, 1);
    assert Pow2(1) == 2;
    var j1 := Cmp(b2, s);
    up := j1 > 0 || (j1 == 0 && dig % 2 == 1);
  }

  lemma TopOfPositive(s: seq<Word>)
    requires |s| > 0 && Value(s) > 0 && (|s| <= 1 || s[|s| - 1] != 0)
    ensures s[|s| - 1] != 0
  {
    if |s| == 1 && s[0] == 0 { ZeroWord(s); }
  }

  // ---- What the digits mean ----

  /** The number v / s to be printed, with the margins lo / s below and hi / s above it inside
      which a shorter decimal may stand for it. */
  datatype Gen = Gen(v: nat, s: nat, lo: nat, hi: nat, closed: bool) {
    /** The decimal with the digits d and m places after its first one lies within the margins. */
    ghost predicate Within(d: int, m: nat) {
      var p := Pow(10, m);
      if closed then v * p - lo * p <= d * s <= v * p + hi * p else v * p - lo * p < d * s < v * p + hi * p
    }

    /** No decimal with at most m digits lies within the margins. */
    ghost predicate NoneShorter(m: nat) {
      forall k: nat, d: int :: k < m ==> !Within(d, k)
    }

    /** Before the next digit: b is what is left of the number, ten times enlarged. */
    ghost predicate Rest(digits: seq<Digit>, b: nat) {
      && v * Pow(10, |digits|) == 10 * DigVal(digits) * s + b && b < 10 * s
      && (digits == [] ==> s <= b) && (digits != [] ==> digits[0] != 0)
      && NoneShorter(|digits|)
    }

    /** After a digit: the digits so far and the remainder b make up the number exactly. */
    ghost predicate Exact(digits: seq<Digit>, b: nat) {
      && digits != [] && digits[0] != 0
      && v * Pow(10, |digits| - 1) == DigVal(digits) * s + b && b < s
      && NoneShorter(|digits| - 1)
    }

    lemma NoDigits()
      requires s <= v < 10 * s
      ensures Rest([], v) && lo * Pow(10, 0) == lo && hi * Pow(10, 0) == hi
    {
      Pow10Of0();
      assert DigVal([]) == 0;
    }

    /** Nothing is left of the number after the digits. */
    lemma Ended(digits: seq<Digit>)
      requires Exact(digits, 0)
      ensures digits != [] && digits[0] != 0
      ensures DigVal(digits) * s == v * Pow(10, |digits| - 1) && RoundedHalfEven(DigVal(digits), |digits| - 1)
    {
    }

    lemma BelowTen(digits: seq<Digit>, b: nat)
      requires Rest(digits, b)
      ensures b < 10 * s
    {
    }

    /** Without margins the loop may always go on. */
    lemma NextFixed(digits: seq<Digit>, b: nat)
      requires Exact(digits, b) && b > 0 && lo == hi == 0
      ensures Rest(digits, 10 * b)
    {
      NextDigit(digits, b);
    }

    lemma Begun(digits: seq<Digit>, b: nat)
      requires Exact(digits, b)
      ensures digits != [] && digits[0] != 0 && NoneShorter(|digits| - 1)
    {
    }

    lemma TakeDigit(digits: seq<Digit>, b: nat, dig: Digit, b': nat)
      requires Rest(digits, b) && b == dig * s + b' && b' < s
      ensures Exact(digits + [dig], b')
    {
      DigAppend(digits, dig);
      Distribute(10 * DigVal(digits), dig, s);
      if digits == [] && dig == 0 {
        assert false;
      }
    }

    /** With neither neighbour within the margins no decimal of this length is, and the loop goes on. */
    lemma NextDigit(digits: seq<Digit>, b: nat)
      requires Exact(digits, b)
      requires var p := Pow(10, |digits| - 1); !LowOk(b, lo * p, closed) && !HighOk(b, hi * p, s, closed)
      ensures Rest(digits, 10 * b)
    {
      var m := |digits| - 1;
      forall d: int ensures !Within(d, m) { NoNeighbour(digits, b, d); }
      forall k: nat, d: int | k < m + 1 ensures !Within(d, k) {
        assert k < m || k == m;
      }
      assert Pow(10, m + 1) == 10 * Pow(10, m);
      Associate(v, 10, Pow(10, m));
      Associate(10, v, Pow(10, m));
      Associate(10, DigVal(digits), s);
    }

    lemma NoNeighbour(digits: seq<Digit>, b: nat, d: int)
      requires Exact(digits, b)
      requires var p := Pow(10, |digits| - 1); !LowOk(b, lo * p, closed) && !HighOk(b, hi * p, s, closed)
      ensures !Within(d, |digits| - 1)
    {
      var n := DigVal(digits);
      if d <= n {
        MulLe(d, n, s);
      } else {
        MulLe(n + 1, d, s);
        Distribute(n, 1, s);
      }
    }

    /** Stopping with the digits as they are. */
    lemma StopLow(digits: seq<Digit>, b: nat)
      requires Exact(digits, b) && hi > 0 && LowOk(b, lo * Pow(10, |digits| - 1), closed)
      ensures Within(DigVal(digits), |digits| - 1)
    {
      PowPositive(10, |digits| - 1);
      MulMono(1, hi, 1, Pow(10, |digits| - 1));
    }

    /** Stopping with one unit more in the last place. */
    lemma StopHigh(digits: seq<Digit>, b: nat)
      requires Exact(digits, b) && lo > 0 && HighOk(b, hi * Pow(10, |digits| - 1), s, closed)
      ensures Within(DigVal(digits) + 1, |digits| - 1)
    {
      PowPositive(10, |digits| - 1);
      MulMono(1, lo, 1, Pow(10, |digits| - 1));
      Distribute(DigVal(digits), 1, s);
    }

    /** How far the decimal is from the number, times s. */
    ghost function Distance(d: int, m: nat): int {
      var e := d * s - v * Pow(10, m);
      if e < 0 then -e else e
    }

    /** No decimal with the same number of places is within the margins and nearer. */
    ghost predicate Nearest(d: int, m: nat) {
      forall d': int :: Within(d', m) ==> Distance(d, m) <= Distance(d', m)
    }

    lemma NearestLow(digits: seq<Digit>, b: nat)
      requires Exact(digits, b) && (2 * b <= s || !HighOk(b, hi * Pow(10, |digits| - 1), s, closed))
      ensures Nearest(DigVal(digits), |digits| - 1)
    {
      var n, m := DigVal(digits), |digits| - 1;
      forall d': int | Within(d', m) ensures Distance(n, m) <= Distance(d', m) {
        if d' <= n {
          MulLe(d', n, s);
        } else {
          MulLe(n + 1, d', s);
          Distribute(n, 1, s);
        }
      }
    }

    lemma NearestHigh(digits: seq<Digit>, b: nat)
      requires Exact(digits, b) && (2 * b >= s || !LowOk(b, lo * Pow(10, |digits| - 1), closed))
      ensures Nearest(DigVal(digits) + 1, |digits| - 1)
    {
      var n, m := DigVal(digits), |digits| - 1;
      Distribute(n, 1, s);
      forall d': int | Within(d', m) ensures Distance(n + 1, m) <= Distance(d', m) {
        if d' <= n {
          MulLe(d', n, s);
        } else {
          MulLe(n + 1, d', s);
        }
      }
    }

    /** Ten is exactly at the upper end of the margins and nine is within them too: the one case in which a nine
        is rounded up without asking which is nearer. */
    ghost predicate BothEnds() {
      closed && v + hi == 10 * s && v <= 9 * s + lo
    }

    /** A nine that is rounded up goes to the nearest decimal, except at both ends. */
    lemma NearestTen(b: nat)
      requires Exact([9], b) && Decided(this, 0, 9, b, Nine)
      ensures Nearest(10, 0) || BothEnds()
    {
      Pow10Of0();
      SingleDigit(9);
      if 2 * b >= s || !LowOk(b, lo * Pow(10, 0), closed) {
        NearestHigh([9], b);
      }
    }

    /** A nine is rounded up only as the first digit: later the result would have been found one digit earlier. */
    lemma NineIsFirst(digits: seq<Digit>, b: nat)
      requires Exact(digits + [9], b) && lo > 0 && HighOk(b, hi * Pow(10, |digits|), s, closed)
      ensures digits == [] && DigVal(digits + [9]) == 9
    {
      hide Within, Pow, DigVal, HighOk, Exact, NoneShorter;
      SingleDigit(9);
      assert digits == [] ==> digits + [9] == [9];
      if digits != [] {
        StopHigh(digits + [9], b);
        DigAppend(digits, 9);
        Begun(digits + [9], b);
        NotShorter(DigVal(digits) + 1, |digits| - 1, |digits|);
        OneShorter(DigVal(digits) + 1, |digits|);
        assert false;
      }
    }

    lemma NotShorter(d: int, k: nat, m: nat)
      requires NoneShorter(m) && k < m
      ensures !Within(d, k)
    {
    }

    lemma OneShorter(d: int, m: nat)
      requires m > 0 && Within(10 * d, m)
      ensures Within(d, m - 1)
    {
      TimesTenMore(v, m);
      TimesTenMore(lo, m);
      TimesTenMore(hi, m);
      Associate(10, d, s);
    }

    /** d is v / s times 10^m rounded to an integer, ties to even. */
    ghost predicate RoundedHalfEven(d: nat, m: nat) {
      var e := 2 * (d * s - v * Pow(10, m));
      0 - s <= e <= s && (e == s || e == 0 - s ==> d % 2 == 0)
    }
  }

  lemma SingleDigit(d: Digit)
    ensures DigVal([d]) == d
  {
    assert [d][..0] == [];
  }

  lemma TenIs(t: seq<Digit>, up: nat)
    requires up <= 1 && ReadsAs(t, 1, up, 10) && t[|t| - 1] != 0
    ensures t == [1] && up == 1
  {
    assert Pow(10, 0) == 1 && Pow(10, 1) == 10;
    assert t[..0] == [];
    if |t| == 1 {
      assert DigVal(t) == t[0];
    }
  }

  lemma Pow10Of0()
    ensures Pow(10, 0) == 1
  {
  }

  lemma MulLe(a: int, b: int, c: int)
    requires a <= b && c >= 0
    ensures a * c <= b * c
  {
    Distribute(a, b - a, c);
    MulMono(0, b - a, c, c);
  }

  lemma RoundedRight(g: Gen, digits: seq<Digit>, b: nat, up: bool)
    requires g.Exact(digits, b)
    requires up <==> 2 * b > g.s || (2 * b == g.s && digits[|digits| - 1] % 2 == 1)
    ensures g.RoundedHalfEven(DigVal(digits) + (if up then 1 else 0), |digits| - 1)
  {
    var n := DigVal(digits);
    assert n % 2 == digits[|digits| - 1] % 2;
    Distribute(n, 1, g.s);
    RoundArith(n * g.s, (n + 1) * g.s, g.v * Pow(10, |digits| - 1), b, g.s);
  }

  lemma RoundArith(ns: int, ns1: int, vp: int, b: int, s: int)
    requires vp == ns + b && ns1 == ns + s && 0 <= b < s
    ensures 2 * (ns - vp) == 0 - 2 * b && 2 * (ns1 - vp) == 2 * s - 2 * b
  {
  }

  /** "Round off last digit": to the nearer decimal of this length, ties to even, with the carry
      through trailing nines or the trailing zeros removed. */
  method RoundLast(b: Bigint, s: Bigint, digits: seq<Digit>, ghost g: Gen)
    returns (t: seq<Digit>, up: nat, ghost d: nat)
    requires Number(b) && b.Val() > 0 && Number(s) && g.s == s.Val() && g.Exact(digits, b.Val())
    ensures ReadsAs(t, |digits|, up, d) && |t| <= |digits| && up <= 1 && t[0] != 0 && t[|t| - 1] != 0
    ensures g.RoundedHalfEven(d, |digits| - 1)
  {
    hide Value, PowB, Pow2, Pow, DigVal, Gen.NoneShorter, Gen.Within;
    var dig := digits[|digits| - 1];
    var roundUp := RoundsUp(b, s, dig);
    RoundedRight(g, digits, b.Val(), roundUp);
    if roundUp {
      t, up := RoundOff(digits);
      d := DigVal(digits) + 1;
    } else {
      t := TrimZeros(digits);
      up, d := 0, DigVal(digits);
    }
  }

  /** The result of the digit loop: the decimal d, written as t, is within the margins, no shorter one is and none of
      its length is nearer; or none with n digits is within the margins and d is the number rounded to n digits. */
  ghost predicate Printed(g: Gen, t: seq<Digit>, up: nat, n: nat, d: nat, rounded: bool) {
    && n >= 1 && up <= 1 && ReadsAs(t, n, up, d) && 1 <= |t| <= n && t[0] != 0 && t[|t| - 1] != 0
    && (if rounded then g.NoneShorter(n) && g.RoundedHalfEven(d, n - 1) else Stopped(g, t, up, n, d))
  }

  ghost predicate Stopped(g: Gen, t: seq<Digit>, up: nat, n: nat, d: nat)
    requires n >= 1
  {
    && (if up == 0 then |t| == n else n == 1 && t == [1])
    && g.NoneShorter(n - 1) && g.Within(d, n - 1)
    && (g.Nearest(d, n - 1) || (n == 1 && d == 10 && g.BothEnds()))
  }

  /** A digit zero at the end would have been left out. */
  lemma LastNotZero(g: Gen, t: seq<Digit>)
    requires |t| >= 1 && t[0] != 0 && g.NoneShorter(|t| - 1) && g.Within(DigVal(t), |t| - 1)
    ensures t[|t| - 1] != 0
  {
    hide Gen.Within;
    if t[|t| - 1] == 0 {
      g.OneShorter(DigVal(t[..|t| - 1]), |t| - 1);
      assert false;
    }
  }

  /** Writing the last digit when the stopping tests end the loop. */
  method LastDigit(digits: seq<Digit>, dig: Digit, dec: Decision, ghost g: Gen, ghost b: nat)
    returns (t: seq<Digit>, up: nat, ghost d: nat)
    requires g.Exact(digits + [dig], b) && g.lo > 0 && g.hi > 0 && !dec.Continue?
    requires Decided(g, |digits|, dig, b, dec)
    ensures up <= 1 && Printed(g, t, up, |digits| + 1, d, false)
  {
    hide Pow, DigVal, Gen.NoneShorter, Gen.Within, Gen.Exact, Gen.Nearest, LowOk, HighOk;
    Pow10Of0();
    g.Begun(digits + [dig], b);
    DigAppend(digits, dig);
    if dec.Nine? {
      g.StopHigh(digits + [dig], b);
      g.NineIsFirst(digits, b);
      assert digits + [9] == [9];
      g.NearestTen(b);
      d := DigVal(digits + [9]) + 1;
      t, up := RoundOff(digits + [9]);
      TenIs(t, up);
    } else if dec.up {
      g.StopHigh(digits + [dig], b);
      g.NearestHigh(digits + [dig], b);
      t, up := digits + [dig + 1], 0;
      DigAppend(digits, dig + 1);
      d := DigVal(t);
      LastNotZero(g, t);
    } else {
      g.StopLow(digits + [dig], b);
      g.NearestLow(digits + [dig], b);
      t, up := digits + [dig], 0;
      d := DigVal(t);
      LastNotZero(g, t);
    }
  }

  /** The limit of digits is reached before the stopping tests end the loop. */
  method RoundAtLimit(b: Bigint, s: Bigint, digits: seq<Digit>, dig: Digit, ghost g: Gen)
    returns (t: seq<Digit>, up: nat, ghost d: nat)
    requires b.Valid() && b.Normal() && Number(s) && g.s == s.Val() && g.Exact(digits + [dig], b.Val())
    requires g.lo > 0 && Decided(g, |digits|, dig, b.Val(), Continue)
    ensures up <= 1 && Printed(g, t, up, |digits| + 1, d, true)
  {
    hide Value, PowB, Pow2, Pow, DigVal, Gen.NoneShorter, Gen.Within;
    PowPositive(10, |digits|);
    MulMono(1, g.lo, 1, Pow(10, |digits|));
    PositiveWords(b.x[..b.wds]);
    g.NextDigit(digits + [dig], b.Val());
    t, up, d := RoundLast(b, s, digits + [dig], g);
  }

  /** The operands of the digit loop are separate objects, except that both margins may be one. */
  ghost predicate Separate(b: Bigint, s: Bigint, mlo: Bigint, mhi: Bigint) {
    Apart(b, s) && Apart(b, mlo) && Apart(b, mhi) && Apart(s, mlo) && Apart(s, mhi) && (mlo == mhi || Apart(mlo, mhi))
  }

  ghost predicate Operands(b: Bigint, s: Bigint, mlo: Bigint, mhi: Bigint)
    reads b, b.x, s, s.x, mlo, mlo.x, mhi, mhi.x
  {
    Separate(b, s, mlo, mhi) && Number(b) && Normalised(s) && Number(s) && Number(mlo) && Number(mhi)
  }

  /** Margins that are one object are multiplied once. */
  method MarginsTimesTen(mlo0: Bigint, mhi0: Bigint) returns (mlo: Bigint, mhi: Bigint)
    requires Number(mlo0) && Number(mhi0) && (mlo0 == mhi0 || Apart(mlo0, mhi0))
    modifies mlo0, mlo0.x, mhi0, mhi0.x
    ensures Number(mlo) && Number(mhi) && (mlo == mhi || Apart(mlo, mhi))
    ensures mlo.Val() == 10 * old(mlo0.Val()) && mhi.Val() == 10 * old(mhi0.Val())
    ensures mlo == mlo0 || (fresh(mlo) && fresh(mlo.x))
    ensures mhi == mhi0 || (fresh(mhi) && fresh(mhi.x))
  {
    hide Value, PowB, Pow2;
    if mlo0 == mhi0 {
      mhi := MultAdd(mhi0, 10, 0);
      mlo := mhi;
    } else {
      mlo := MultAdd(mlo0, 10, 0);
      mhi := MultAdd(mhi0, 10, 0);
    }
  }

  /** The number and both margins are multiplied by ten; margins that are one object stay one. */
  method TimesTen(b0: Bigint, s: Bigint, mlo0: Bigint, mhi0: Bigint) returns (b: Bigint, mlo: Bigint, mhi: Bigint)
    requires Operands(b0, s, mlo0, mhi0)
    modifies b0, b0.x, mlo0, mlo0.x, mhi0, mhi0.x
    ensures Operands(b, s, mlo, mhi)
    ensures b.Val() == 10 * old(b0.Val()) && mlo.Val() == 10 * old(mlo0.Val()) && mhi.Val() == 10 * old(mhi0.Val())
    ensures b == b0 || (fresh(b) && fresh(b.x))
    ensures mlo == mlo0 || (fresh(mlo) && fresh(mlo.x))
    ensures mhi == mhi0 || (fresh(mhi) && fresh(mhi.x))
  {
    hide Value, PowB, Pow2;
    b := MultAdd(b0, 10, 0);
    mlo, mhi := MarginsTimesTen(mlo0, mhi0);
  }

  /** What the stopping tests have found out about the remainder b after |digits| + 1 digits. */
  ghost predicate Decided(g: Gen, m: nat, dig: Digit, b: nat, dec: Decision) {
    var p := Pow(10, m);
    var low, high := LowOk(b, g.lo * p, g.closed), HighOk(b, g.hi * p, g.s, g.closed);
    match dec
    case Continue => !low && !high
    case Nine => high && dig == 9 && (2 * b >= g.s || !low || (g.closed && b + g.hi * p == g.s && b <= g.lo * p))
    case Accept(up) => (if up then high && dig < 9 && (2 * b >= g.s || !low) else low && (2 * b <= g.s || !high))
  }

  /** The operands before the next digit. */
  ghost predicate Turn(g: Gen, digits: seq<Digit>, b: Bigint, s: Bigint, mlo: Bigint, mhi: Bigint)
    reads b, b.x, s, s.x, mlo, mlo.x, mhi, mhi.x
  {
    && Operands(b, s, mlo, mhi) && s.Val() == g.s && g.Rest(digits, b.Val())
    && MarginsAt(g, |digits|, mlo.Val(), mhi.Val())
  }

  /** The operands after a digit. */
  ghost predicate Taken(g: Gen, digits: seq<Digit>, dig: Digit, b: Bigint, s: Bigint, mlo: Bigint, mhi: Bigint)
    reads b, b.x, s, s.x, mlo, mlo.x, mhi, mhi.x
  {
    && Separate(b, s, mlo, mhi) && b.Valid() && b.Normal()
    && Normalised(s) && Number(s) && Number(mlo) && Number(mhi)
    && s.Val() == g.s && g.Exact(digits + [dig], b.Val()) && MarginsAt(g, |digits|, mlo.Val(), mhi.Val())
  }

  /** One digit and the tests after it. */
  method NextOne(b: Bigint, s: Bigint, mlo: Bigint, mhi: Bigint, digits: seq<Digit>, mode1: bool, even: bool,
                 ghost g: Gen)
    returns (dig: Digit, dec: Decision)
    requires Turn(g, digits, b, s, mlo, mhi) && g.closed == (even && !mode1)
    modifies b, b.x
    ensures Taken(g, digits, dig, b, s, mlo, mhi) && Decided(g, |digits|, dig, b.Val(), dec)
  {
    hide Value, PowB, Pow2, Pow, DigVal, Gen.NoneShorter, Gen.Within;
    ghost var v := b.Val();
    var q := QuoRem(b, s);
    g.TakeDigit(digits, v, q, b.Val());
    dig := q;
    dec := Decide(b, s, mlo, mhi, dig, mode1, even);
  }

  /** The margins belong to the place after m digits. */
  ghost predicate MarginsAt(g: Gen, m: nat, lo: nat, hi: nat) {
    lo == g.lo * Pow(10, m) && hi == g.hi * Pow(10, m) && 0 < lo <= hi
  }

  lemma MarginsNext(g: Gen, m: nat, lo: nat, hi: nat)
    requires MarginsAt(g, m, lo, hi)
    ensures MarginsAt(g, m + 1, 10 * lo, 10 * hi)
  {
    TimesTenMore(g.lo, m + 1);
    TimesTenMore(g.hi, m + 1);
  }

  lemma MarginGrows(lo: nat, m: nat)
    requires lo > 0
    ensures lo * Pow(10, m) < lo * Pow(10, m + 1)
  {
    PowPositive(10, m);
    TimesTenMore(lo, m + 1);
    MulMono(1, lo, 1, Pow(10, m));
  }

  /** On to the next digit. */
  method Advance(b0: Bigint, s: Bigint, mlo0: Bigint, mhi0: Bigint, ghost digits: seq<Digit>, ghost dig: Digit,
                 ghost g: Gen)
    returns (b: Bigint, mlo: Bigint, mhi: Bigint)
    requires Taken(g, digits, dig, b0, s, mlo0, mhi0) && Decided(g, |digits|, dig, b0.Val(), Continue)
    modifies b0, b0.x, mlo0, mlo0.x, mhi0, mhi0.x
    ensures Turn(g, digits + [dig], b, s, mlo, mhi) && g.lo * Pow(10, |digits|) < g.s
    ensures b == b0 || (fresh(b) && fresh(b.x))
    ensures mlo == mlo0 || (fresh(mlo) && fresh(mlo.x))
    ensures mhi == mhi0 || (fresh(mhi) && fresh(mhi.x))
  {
    hide Value, PowB, Pow2, Pow, DigVal, Gen.NoneShorter, Gen.Within;
    PositiveWords(b0.x[..b0.wds]);
    g.NextDigit(digits + [dig], b0.Val());
    MarginsNext(g, |digits|, mlo0.Val(), mhi0.Val());
    b, mlo, mhi := TimesTen(b0, s, mlo0, mhi0);
  }

  lemma FirstTurn(g: Gen, b: Bigint, s: Bigint, mlo: Bigint, mhi: Bigint)
    requires Operands(b, s, mlo, mhi) && s.Val() == g.s && mlo.Val() == g.lo && mhi.Val() == g.hi
    requires g.Rest([], b.Val()) && 0 < g.lo <= g.hi
    ensures Turn(g, [], b, s, mlo, mhi)
  {
    Pow10Of0();
  }

  /** The digit loop of modes 0, 1, 4 and 5. */
  method LeftRight(b0: Bigint, s: Bigint, mlo0: Bigint, mhi0: Bigint, mode1: bool, even: bool, ilim: int)
    returns (t: seq<Digit>, up: nat, n: nat, rounded: bool, ghost d: nat)
    requires Operands(b0, s, mlo0, mhi0) && s.Val() <= b0.Val() < 10 * s.Val() && 0 < mlo0.Val() <= mhi0.Val()
    modifies b0, b0.x, mlo0, mlo0.x, mhi0, mhi0.x
    ensures Printed(Gen(old(b0.Val()), s.Val(), old(mlo0.Val()), old(mhi0.Val()), even && !mode1), t, up, n, d, rounded)
    ensures up <= 1 && (rounded ==> n == ilim) && (ilim >= 1 ==> n <= ilim)
  {
    hide Value, PowB, Pow2, Pow, DigVal, Gen.NoneShorter;
    hide Gen.Within, Gen.Rest, Gen.Exact, Gen.RoundedHalfEven, Normalised, Printed, Decided, Turn;
    ghost var g := Gen(b0.Val(), s.Val(), mlo0.Val(), mhi0.Val(), even && !mode1);
    var b, mlo, mhi := b0, mlo0, mhi0;
    var digits: seq<Digit> := [];
    g.NoDigits();
    FirstTurn(g, b, s, mlo, mhi);
    n := 1;
    while true
      invariant n == |digits| + 1 && (ilim >= 1 ==> n <= ilim) && Turn(g, digits, b, s, mlo, mhi)
      invariant b == b0 || (fresh(b) && fresh(b.x))
      invariant mlo == mlo0 || (fresh(mlo) && fresh(mlo.x))
      invariant mhi == mhi0 || (fresh(mhi) && fresh(mhi.x))
      decreases g.s - g.lo * Pow(10, |digits|)
    {
      var dig, dec := NextOne(b, s, mlo, mhi, digits, mode1, even, g);
      if !dec.Continue? {
        t, up, d := LastDigit(digits, dig, dec, g, b.Val());
        rounded := false;
        return;
      }
      if n == ilim {
        t, up, d := RoundAtLimit(b, s, digits, dig, g);
        rounded := true;
        return;
      }
      b, mlo, mhi := Advance(b, s, mlo, mhi, digits, dig, g);
      MarginGrows(g.lo, |digits|);
      digits := digits + [dig];
      n := n + 1;
    }
  }

  lemma TimesTenMore(x: nat, n: nat)
    requires n > 0
    ensures x * Pow(10, n) == 10 * (x * Pow(10, n - 1))
  {
    Associate(x, 10, Pow(10, n - 1));
    Associate(10, x, Pow(10, n - 1));
  }

  /** The next digit is taken off a number that is not zero. */
  method OneDigit(b: Bigint, s: Bigint, ghost digits: seq<Digit>, ghost g: Gen) returns (dig: Digit)
    requires Number(b) && Normalised(s) && Number(s) && Apart(b, s) && s.Val() == g.s && g.Rest(digits, b.Val()) && b.Val() > 0
    modifies b, b.x
    ensures b.Valid() && b.Normal() && (b.wds == 0 ==> b.x[0] == 0) && g.Exact(digits + [dig], b.Val())
    ensures b.Val() == 0 ==> dig != 0
  {
    hide Value, PowB, Pow2, Pow, DigVal, Gen.Rest, Gen.Exact;
    ghost var v := b.Val();
    g.BelowTen(digits, v);
    var q := QuoRem(b, s);
    g.TakeDigit(digits, v, q, b.Val());
    dig := q;
  }

  /** The digit loop of modes 2 and 3: at most ilim digits, fewer when the number ends before. */
  method FixedDigits(b0: Bigint, s: Bigint, ilim: nat) returns (t: seq<Digit>, up: nat, n: nat, ghost d: nat)
    requires Number(b0) && Normalised(s) && Number(s) && Apart(b0, s) && s.Val() <= b0.Val() < 10 * s.Val() && ilim >= 1
    modifies b0, b0.x
    ensures 1 <= |t| <= n <= ilim && up <= 1 && ReadsAs(t, n, up, d) && t[0] != 0 && t[|t| - 1] != 0
    ensures var g := Gen(old(b0.Val()), s.Val(), 0, 0, false);
      if n < ilim then d * s.Val() == g.v * Pow(10, n - 1) else g.RoundedHalfEven(d, n - 1)
  {
    hide Value, PowB, Pow2, Pow, DigVal;
    hide Gen.NoneShorter, Gen.Within, Gen.Rest, Gen.Exact, Gen.RoundedHalfEven, Normalised;
    ghost var g := Gen(b0.Val(), s.Val(), 0, 0, false);
    var b := b0;
    var digits: seq<Digit> := [];
    g.NoDigits();
    Pow10Of0();
    n := 1;
    while true
      invariant n == |digits| + 1 <= ilim
      invariant Number(b) && b.Val() > 0 && Apart(b, s) && Normalised(s) && Number(s) && s.Val() == g.s && g.Rest(digits, b.Val())
      invariant b == b0 || (fresh(b) && fresh(b.x))
      decreases ilim - n
    {
      var dig := OneDigit(b, s, digits, g);
      digits := digits + [dig];
      if b.x[0] == 0 && b.wds <= 1 {
        ZeroWord(b.x[..b.wds]);
        g.Ended(digits);
        t, up, d := digits, 0, DigVal(digits);
        return;
      }
      NotZero(b.x[..b.wds]);
      if n >= ilim {
        t, up, d := RoundLast(b, s, digits, g);
        return;
      }
      g.NextFixed(digits, b.Val());
      b := MultAdd(b, 10, 0);
      n := n + 1;
    }
  }

  lemma NotZero(s: seq<Word>)
    requires (|s| == 0 || s[|s| - 1] != 0)
    ensures |s| > 0 ==> Value(s) > 0
  {
    if |s| > 0 { PositiveTop(s); }
  }
}

/** The path of `dtoa` for integers below 10^15, whose digits come from exact double arithmetic. */
module SmallIntegers {
  import opened Bits
  import opened BigWords
  import opened Pow5s
  import opened Digits
  import opened DtoaLoop
  import opened Dtoa

  /** The integer u0, with k + 1 digits, as a number for the digit generator. */
  ghost function IntegerGen(u0: nat, k: nat): Gen {
    Gen(u0, Pow(10, k), 0, 0, false)
  }

  /** After k + 1 digits nothing is left of an integer below 10^(k + 1). */
  lemma NothingLeft(u0: nat, k: nat, digits: seq<Digit>, b: nat)
    requires IntegerGen(u0, k).Exact(digits, b) && |digits| == k + 1
    ensures b == 0
  {
    var p, n := Pow(10, k), DigVal(digits);
    if u0 > n {
      MulMono(n + 1, u0, p, p);
      Distribute(n, 1, p);
    } else if u0 < n {
      MulMono(u0 + 1, n, p, p);
      Distribute(u0, 1, p);
    }
  }

  /** A last digit zero is kept: the integer has more digits than asked for, the last one asked for is a zero and
      what follows it is not rounded up. */
  predicate ZeroStays(u: nat, k: nat, lim: int) {
    1 <= lim <= k && var p := Power(10, k + 1 - lim);
      u / p % 10 == 0 && 0 < 2 * (u % p) <= p
  }

  function Power(b: nat, e: nat): (p: nat)
    requires b > 0
    ensures p > 0
  {
    PowPositive(b, e);
    Pow(b, e)
  }

  /** The digits and the remainder as quotient and remainder of the integer. */
  lemma LeadingPart(u: nat, k: nat, digits: seq<Digit>, b: nat)
    requires IntegerGen(u, k).Exact(digits, b) && |digits| <= k
    ensures var p, e := Power(10, k + 1 - |digits|), Power(10, |digits| - 1);
      u / p == DigVal(digits) && e * (u % p) == b && e * p == Pow(10, k)
  {
    hide Pow;
    var p, e, n := Power(10, k + 1 - |digits|), Power(10, |digits| - 1), DigVal(digits);
    PowAdd(10, |digits| - 1, k + 1 - |digits|);
    Associate(n, p, e);
    Commute(p, e);
    assert u * e == n * p * e + b;
    Quotient(u, e, n * p, b, p);
    DivModUnique(u, p, n, u - n * p);
  }

  lemma Quotient(u: nat, e: nat, np: nat, b: nat, p: nat)
    requires u * e == np * e + b && b < e * p && e > 0
    ensures 0 <= u - np < p && e * (u - np) == b
  {
    if u < np { MulStrict(u, np, e); }
    var r := u - np;
    assert r * e == u * e - np * e;
    if r >= p { MulMono(p, r, e, e); }
  }

  lemma HalfScaled(r: nat, p: nat, e: nat, b: nat, s: nat)
    requires e > 0 && e * r == b && e * p == s
    ensures (2 * b <= s <==> 2 * r <= p) && (b > 0 <==> r > 0)
  {
    if 2 * r <= p { MulMono(e, e, 2 * r, p); } else { MulMono(e, e, p + 1, 2 * r); }
    assert e * (2 * r) == 2 * (e * r);
  }

  /** The last digit, when the limit is reached before the integer ends and it is not rounded up. */
  lemma LastDigitKept(u: nat, k: nat, digits: seq<Digit>, b: nat)
    requires IntegerGen(u, k).Exact(digits, b) && |digits| <= k && b > 0
    ensures ZeroStays(u, k, |digits|) <==> digits[|digits| - 1] == 0 && 2 * b <= Pow(10, k)
  {
    hide Pow, Power, DigVal;
    LeadingPart(u, k, digits, b);
    LastOf(digits);
    var p, e := Power(10, k + 1 - |digits|), Power(10, |digits| - 1);
    HalfScaled(u % p, p, e, b, Pow(10, k));
  }

  /** An integer that ends at or before the last digit asked for does not keep a zero. */
  lemma NoZeroKept(u: nat, k: nat, digits: seq<Digit>, lim: int)
    requires IntegerGen(u, k).Exact(digits, 0) && (lim >= 1 ==> |digits| <= lim)
    ensures !ZeroStays(u, k, lim)
  {
    hide Pow;
    if 1 <= lim <= k {
      LeadingPart(u, k, digits, 0);
      var p, q := Power(10, k + 1 - |digits|), Power(10, k + 1 - lim);
      PowAdd(10, lim - |digits|, k + 1 - lim);
      var f := Power(10, lim - |digits|);
      assert u % p == 0 by { HalfScaled(u % p, p, Power(10, |digits| - 1), 0, Pow(10, k)); }
      var n := u / p;
      assert u == n * p;
      Associate(n, f, q);
      DivModUnique(u, q, n * f, 0);
    }
  }

  /** The result for an integer: its own digits if there are no more than asked for, otherwise those of the integer
      rounded half-even, with the zeros that were there. */
  ghost predicate IntegerPrinted(u0: nat, k: nat, t: seq<Digit>, up: nat, n: nat, d: nat, lim: int, rounded: bool) {
    && 1 <= |t| <= n <= k + 1 && up <= 1 && ReadsAs(t, n, up, d) && t[0] != 0
    && (t[|t| - 1] == 0 <==> ZeroStays(u0, k, lim)) && (lim >= 1 ==> n <= lim)
    && if rounded then n == lim && IntegerGen(u0, k).RoundedHalfEven(d, n - 1) && !Ends(u0, k, n)
       else up == 0 && |t| == n && t[|t| - 1] != 0 && d * Pow(10, k) == u0 * Pow(10, n - 1)
  }

  /** The integer is a multiple of the weight of digit n. */
  ghost predicate Ends(u0: nat, k: nat, n: nat)
    requires n >= 1
  {
    exists j: int :: j * Pow(10, k) == u0 * Pow(10, n - 1)
  }

  lemma NotEnded(u0: nat, k: nat, digits: seq<Digit>, b: nat)
    requires IntegerGen(u0, k).Exact(digits, b) && b > 0
    ensures !Ends(u0, k, |digits|)
  {
    hide Pow;
    var p, n := Pow(10, k), DigVal(digits);
    forall j: int ensures j * p != u0 * Pow(10, |digits| - 1) {
      if j <= n {
        MulLe(j, n, p);
      } else {
        MulLe(n + 1, j, p);
        Distribute(n, 1, p);
      }
    }
  }

  /** The digit loop of the small-integer path. */
  method IntegerDigits(u0: nat, k: nat, ilim: int) returns (t: seq<Digit>, up: nat, ghost n: nat, ghost d: nat, ghost rounded: bool)
    requires Pow(10, k) <= u0 < 10 * Pow(10, k)
    ensures IntegerPrinted(u0, k, t, up, n, d, ilim, rounded)
  {
    hide Pow, DigVal, Gen.Exact, Gen.Rest, Gen.RoundedHalfEven, ReadsAs, ZeroStays, Ends;
    ghost var g := IntegerGen(u0, k);
    var u, ds := u0, Power(10, k);
    var digits: seq<Digit> := [];
    g.NoDigits();
    var i := 1;
    while true
      invariant i == |digits| + 1 <= k + 1 && (ilim >= 1 ==> i <= ilim) && u > 0 && g.Rest(digits, u)
      decreases k + 1 - i
    {
      g.BelowTen(digits, u);
      var l, rest := Divide(u, ds);
      g.TakeDigit(digits, u, l, rest);
      u := rest;
      digits := digits + [l];
      g.Begun(digits, u);
      if u == 0 {
        g.Ended(digits);
        NoZeroKept(u0, k, digits, ilim);
        ReadsItself(digits);
        return digits, 0, i, DigVal(digits), false;
      }
      if i == k + 1 { NothingLeft(u0, k, digits, u); }
      if i == ilim {
        NotEnded(u0, k, digits, u);
        LastDigitKept(u0, k, digits, u);
        u := u + u;
        var bump := u > ds || (u == ds && l % 2 == 1);
        RoundedRight(g, digits, u / 2, bump);
        n, rounded := i, true;
        if bump {
          t, up := RoundOff(digits);
          d := DigVal(digits) + 1;
        } else {
          ReadsItself(digits);
          t, up, d := digits, 0, DigVal(digits);
        }
        return;
      }
      g.NextFixed(digits, u);
      u := u * 10;
      i := i + 1;
    }
  }

  /** The next digit and what is left. */
  method Divide(u: nat, ds: nat) returns (l: Digit, rest: nat)
    requires 0 < u < 10 * ds
    ensures u == l * ds + rest && rest < ds && (rest == 0 ==> l != 0)
  {
    var q := u / ds;
    assert q * ds + u % ds == u;
    AtMostNine(u, ds, q);
    l, rest := q, u - q * ds;
  }

  lemma AtMostNine(u: nat, ds: nat, l: nat)
    requires u < 10 * ds && l * ds <= u
    ensures l <= 9
  {
    if l >= 10 { MulMono(10, l, ds, ds); }
  }

  ghost predicate IntegerResult(u: nat, k: nat, t: seq<Digit>, decpt: int, n: nat, d: nat, end: Ending, mode: nat, lim: int,
                                ndigits: int)
  {
    && (end.NoDigits? <==> (mode == 3 || mode == 5) && lim <= 0)
    && (end.NoDigits? ==> RoundedAway(u, Pow(10, k), lim, t == [1]))
    && (end.NoDigits? ==> (t == [1] && decpt == 1 - ndigits) || (t == [] && decpt == -ndigits))
    && (!end.NoDigits? ==> k < decpt && IntegerPrinted(u, k, t, decpt - k - 1, n, d, lim, end.AtLimit?))
  }

  /** The small-integer path: first the test for no digits at all, then the loop. */
  method SmallInteger(u: nat, k: nat, mode: nat, ilim: int, ndigits: int)
    returns (t: seq<Digit>, decpt: int, ghost n: nat, ghost d: nat, ghost end: Ending)
    requires Pow(10, k) <= u < 10 * Pow(10, k) && mode <= 5
    requires mode == 3 || mode == 5 ==> ilim == ndigits + k + 1
    requires mode != 3 && mode != 5 ==> ndigits >= 0
    ensures IntegerResult(u, k, t, decpt, n, d, end, mode, ilim, ndigits)
  {
    hide Pow, RoundedAway, IntegerPrinted;
    var ds := Power(10, k);
    if ndigits < 0 && ilim <= 0 {
      AwayRight(u, ds, ilim);
      n, d, end := 0, 0, NoDigits;
      if ilim < 0 || u <= 5 * ds {
        t, decpt := [], -ndigits;
      } else {
        t, decpt := [1], k + 2;
      }
      return;
    }
    var up;
    ghost var rounded;
    t, up, n, d, rounded := IntegerDigits(u, k, ilim);
    decpt := k + up + 1;
    end := if rounded then AtLimit else Short;
  }
}

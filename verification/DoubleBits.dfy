/** From the bits of a double to the digits of its shortest decimal. */
module DoubleBits {
  import opened Bits
  import opened BigWords
  import opened BigLoops
  import opened Bigints
  import opened Pow5s
  import opened Digits
  import opened DtoaLoop
  import opened Dtoa

  const EXP_MSK1: nat := 0x10_0000

  /** The biased exponent field. */
  function ExponentField(word0: Word): (de: nat)
    ensures de < 2048
  {
    word0 % 0x8000_0000 / EXP_MSK1
  }

  /** The significand as an integer, with the hidden bit of a normal number. */
  function Significand(word0: Word, word1: Word): nat {
    (word0 % EXP_MSK1 + (if ExponentField(word0) != 0 then EXP_MSK1 else 0)) * B + word1
  }

  /** The double is its significand times two to this power. */
  function Exponent(word0: Word): int {
    (if ExponentField(word0) == 0 then 1 else ExponentField(word0)) - BIAS - (P - 1)
  }

  lemma ShiftOut(x0: nat, x: nat, k: nat, n: nat, f: nat)
    requires (n, f) in {(16, 0x1_0000), (8, 256), (4, 16), (2, 4), (1, 2)} && x0 == x * Pow2(k) && x % f == 0
    ensures x0 == (x / f) * Pow2(k + n)
  {
    PowerFor(n, f);
    Pow2Add(n, k);
    assert x == x / f * f;
    Associate(x / f, f, Pow2(k));
  }

  lemma PowerFor(n: nat, f: nat)
    requires (n, f) in {(16, 0x1_0000), (8, 256), (4, 16), (2, 4), (1, 2)}
    ensures Pow2(n) == f
  {
    Pow2Of8();
    Pow2Add(8, 8);
    assert Pow2(4) == 16;
  }

  /** `lo0bits`: the trailing zero bits are counted and shifted out. */
  method Lo0Bits(x0: Word) returns (k: nat, y: Word)
    ensures if x0 == 0 then k == 32 && y == 0 else k <= 31 && x0 == y * Pow2(k) && y % 2 == 1
  {
    hide Pow2;
    Pow2Of01();
    if x0 % 8 != 0 {
      if x0 % 2 != 0 { return 0, x0; }
      if x0 / 2 % 2 != 0 {
        ShiftOut(x0, x0, 0, 1, 2);
        return 1, x0 / 2;
      }
      ShiftOut(x0, x0, 0, 2, 4);
      return 2, x0 / 4;
    }
    k, y := LongShift(x0);
  }

  /** One test of `lo0bits`: n zero bits are shifted out if there are so many. */
  method Drop(x0: Word, x: Word, k: nat, n: nat, f: nat) returns (k': nat, x': Word)
    requires (n, f) in {(16, 0x1_0000), (8, 256), (4, 16), (2, 4), (1, 2)}
    requires x0 == x * Pow2(k) && (x0 > 0 ==> x % (f * f) != 0)
    ensures x0 == x' * Pow2(k') && (x0 > 0 ==> x' % f != 0) && k' <= k + n && (x == 0 ==> k' == k + n && x' == 0)
  {
    hide Pow2;
    k', x' := k, x;
    if x % f == 0 {
      ShiftOut(x0, x, k, n, f);
      DivBounds(x, f);
      if x / f % f == 0 { Again(x, f); }
      k', x' := k + n, x / f;
    }
  }

  lemma Again(x: nat, f: nat)
    requires f > 0 && x % f == 0 && 0 <= x / f && x / f % f == 0
    ensures f * f > 0 && x % (f * f) == 0
  {
    var q := x / f;
    DivBounds(q, f);
    var r := q / f;
    assert x == q * f && q == r * f;
    Associate(r, f, f);
    MulMono(1, f, 1, f);
    DivModUnique(x, f * f, r, 0);
  }

  /** The rest of `lo0bits`, for a word that ends in at least three zero bits. */
  method LongShift(x0: Word) returns (k: nat, y: Word)
    ensures if x0 == 0 then k == 32 && y == 0 else k <= 31 && x0 == y * Pow2(k) && y % 2 == 1
  {
    hide Pow2;
    Pow2Of01();
    k, y := Drop(x0, x0, 0, 16, 0x1_0000);
    k, y := Drop(x0, y, k, 8, 256);
    k, y := Drop(x0, y, k, 4, 16);
    k, y := Drop(x0, y, k, 2, 4);
    k, y := Drop(x0, y, k, 1, 2);
    if y == 0 {
      k := 32;
    }
  }

  // ---- Splitting the double ----

  lemma TwoWords(x: seq<Word>)
    requires |x| == 2
    ensures Value(x) == x[0] + x[1] * B && Value(x[..1]) == x[0]
  {
    OneWord(x[..1]);
    ValueAppend(x[..1], x[1]);
    assert x == x[..1] + [x[1]];
    assert PowB(0) == 1 && PowB(1) == B;
  }

  lemma LowPart(y: nat, k: nat, w: Word)
    requires k <= 32 && w == y * Pow2(k)
    ensures y < Pow2(32 - k)
  {
    hide Pow2;
    Pow2Of32(k);
    if y >= Pow2(32 - k) { MulMono(Pow2(32 - k), y, Pow2(k), Pow2(k)); }
  }

  /** The bits that come in from the upper word do not touch the lowest bit. */
  lemma OddLow(z: nat, k: nat, y: nat, v: nat)
    requires k <= 31 && y % 2 == 1 && v == z * Pow2(32 - k) + y
    ensures v % 2 == 1
  {
    hide Pow2;
    Pow2Next(31 - k);
    DoubleLater(z, Pow2(31 - k));
    EvenPlusOdd(z * Pow2(31 - k), y);
  }

  lemma EvenPlusOdd(q: nat, y: nat)
    requires y % 2 == 1
    ensures (2 * q + y) % 2 == 1
  {
  }

  /** With the zero bits shifted out, the two words still make up the significand. */
  lemma ShiftedSignificand(z: Word, y: nat, w: Word, k: nat, v: nat)
    requires k <= 31 && w == y * Pow2(k) && v == z * Pow2(32 - k) + y
    ensures v * Pow2(k) == z * B + w
  {
    hide Pow2;
    Pow2Of32(k);
    Distribute(z * Pow2(32 - k), y, Pow2(k));
    Associate(z, Pow2(32 - k), Pow2(k));
    Commute(Pow2(32 - k), Pow2(k));
  }

  /** Shifting out k zero bits shortens a number by k bits. */
  lemma ShorterBy(v: nat, k: nat, m: nat, n: nat)
    requires v * Pow2(k) == m && n >= 1 && Pow2(n - 1) <= m < Pow2(n) && v > 0
    ensures k < n && Pow2(n - 1 - k) <= v < Pow2(n - k)
  {
    hide Pow2;
    if k >= n {
      Pow2Mono(n, k);
      MulMono(1, v, Pow2(k), Pow2(k));
      assert false;
    }
    Pow2Add(n - 1 - k, k);
    Pow2Add(n - k, k);
    if v < Pow2(n - 1 - k) { MulStrict(v, Pow2(n - 1 - k), Pow2(k)); }
    if v >= Pow2(n - k) { MulMono(Pow2(n - k), v, Pow2(k), Pow2(k)); }
  }

  lemma NormalSize(word0: Word, word1: Word)
    requires ExponentField(word0) != 0
    ensures Pow2(52) <= Significand(word0, word1) < Pow2(53)
  {
    hide Pow2;
    Pow2Of32(32);
    Pow2Of01();
    Pow2Of28();
    Pow2Add(16, 4);
    PowerFor(16, 0x1_0000);
    PowerFor(4, 16);
    Pow2Add(20, 32);
    Pow2Add(52, 1);
  }

  /** The words of `d2b`: the significand without its trailing zero bits. */
  method SignificandWords(b: Bigint, z0: Word, word1: Word) returns (k: nat)
    requires b.Valid() && b.maxwds >= 2 && (z0 > 0 || word1 > 0)
    modifies b, b.x
    ensures Number(b) && b.Val() > 0 && b.Val() * Pow2(k) == z0 * B + word1 && b.Val() % 2 == 1
  {
    hide Pow2, PowB, Value;
    var y;
    if word1 != 0 {
      k, y := Lo0Bits(word1);
      LowPart(y, k, word1);
      ShiftWord(z0, 32 - k, y);
      PowerFits31(k);
      b.x[0] := (z0 * Pow2(32 - k)) % B + y;
      b.x[1] := z0 / Pow2(k);
      b.wds := if b.x[1] != 0 then 2 else 1;
      TwoWords(b.x[..2]);
      assert b.x[..2][..1] == b.x[..1];
      ShiftedSignificand(z0, y, word1, k, b.x[0] + b.x[1] * B);
      OddLow(z0, k, y, b.x[0] + b.x[1] * B);
      StillPositive(b.x[0] + b.x[1] * B, Pow2(k), z0 * B + word1);
    } else {
      k, y := Lo0Bits(z0);
      b.x[0] := y;
      b.wds := 1;
      OneWord(b.x[..1]);
      Pow2Of32(32);
      Pow2Of01();
      Pow2Add(k, 32);
      Associate(y, Pow2(k), B);
      StillPositive(y, Pow2(k), z0);
      k := k + 32;
    }
  }

  lemma PowerFits31(k: nat)
    requires k <= 31
    ensures 1 <= Pow2(k) <= B
  {
    PowerFits(k);
  }

  lemma OneWord(x: seq<Word>)
    requires |x| == 1
    ensures Value(x) == x[0]
  {
    assert x[..0] == [];
    assert PowB(0) == 1;
  }

  lemma StillPositive(v: nat, p: nat, m: nat)
    requires v * p == m && m > 0
    ensures v > 0
  {
  }

  /** `d2b`: the double is b * 2^e, and b has the given number of bits. */
  method D2B(word0: Word, word1: Word) returns (b: Bigint, e: int, bits: nat, ghost k: nat)
    requires Significand(word0, word1) > 0
    ensures Number(b) && fresh(b) && fresh(b.x) && b.Val() > 0 && b.Val() % 2 == 1
    ensures b.Val() * Pow2(k) == Significand(word0, word1) && e == Exponent(word0) + k
    ensures bits >= 1 && Pow2(bits - 1) <= b.Val() < Pow2(bits) && (ExponentField(word0) != 0 ==> bits + k == P)
  {
    hide Pow2, PowB, Value;
    b := new Bigint(1);
    Pow2Of01();
    var z, de := word0 % EXP_MSK1, ExponentField(word0);
    if de != 0 {
      z := z + EXP_MSK1;
    }
    var shift := SignificandWords(b, z, word1);
    k := shift;
    if de != 0 {
      NormalSize(word0, word1);
      ShorterBy(b.Val(), k, Significand(word0, word1), 53);
      e := de - BIAS - (P - 1) + shift;
      bits := P - shift;
    } else {
      e := de - BIAS - (P - 1) + 1 + shift;
      TopOfPositive(b.x[..b.wds]);
      var zeros := Hi0Bits(b.x[b.wds - 1]);
      WordBits(b.x[b.wds - 1], zeros);
      BitLength(b.x[..b.wds], 32 - zeros);
      bits := 32 * b.wds - zeros;
    }
  }

  /** A good estimate for the double is one for its significand without trailing zero bits. */
  lemma EstimateCarries(m: nat, e: int, k0: int, kCheck: bool, v: nat, k: nat)
    requires GoodEstimate(m, e, k0, kCheck) && v * Pow2(k) == m
    ensures GoodEstimate(v, e + k, k0, kCheck)
  {
    hide Pow2, Ratio;
    var e' := e + k;
    forall x: nat, s: nat | Ratio(x, s, v, e', k0) ensures x < 10 * s && if kCheck then s <= 10 * x else s <= x {
      RatioScaled(x, s, v, e, k0, k, m);
      Unscale(x, s, Pow2(k), kCheck);
    }
  }

  lemma RatioScaled(x: nat, s: nat, v: nat, e: int, k0: int, k: nat, m: nat)
    requires Ratio(x, s, v, e + k, k0) && v * Pow2(k) == m
    ensures Ratio(x * Pow2(k), s * Pow2(k), m, e, k0)
  {
    hide Pow2, Num;
    var b2: nat, b5: nat, s2: nat, s5: nat :|
      x == Num(v, b2, b5) && s == Num(1, s2, s5) && b2 - s2 == e + k - k0 && b5 - s5 == -k0;
    NumShift(v, b2, b5, k);
    NumShift(1, s2, s5, k);
    NumScaled(v, k, b2, b5, m);
    RatioOf(m, b2, b5, s2 + k, s5, e, k0);
  }

  lemma NumScaled(v: nat, k: nat, b2: nat, b5: nat, m: nat)
    requires v * Pow2(k) == m
    ensures Num(v, b2 + k, b5) == Num(m, b2, b5)
  {
    var a, f, t := Pow2(b2), Pow(5, b5), Pow2(k);
    Pow2Add(b2, k);
    Associate(a, t, f);
    Associate(t, a, f);
    Commute(a, t);
    Associate(v, t, a * f);
  }

  lemma Unscale(x: nat, s: nat, p: nat, kCheck: bool)
    requires p > 0 && x * p < 10 * (s * p) && if kCheck then s * p <= 10 * (x * p) else s * p <= x * p
    ensures x < 10 * s && if kCheck then s <= 10 * x else s <= x
  {
    Associate(10, s, p);
    Associate(10, x, p);
    if x >= 10 * s { MulMono(10 * s, x, p, p); }
    if s > x { MulStrict(x, s, p); }
    if s > 10 * x { MulStrict(10 * x, s, p); }
  }

  /** A power of two that is not the smallest normal number: the double below it is nearer. */
  predicate IsPowerOfTwo(word0: Word, word1: Word) {
    word1 == 0 && word0 % EXP_MSK1 == 0 && ExponentField(word0) > 1
  }

  /** Modes 0, 1, 4 and 5 from the two words of the double: the margins are half a unit in the last place, less below a
      power of two, and with an even significand their ends belong to them; `g` gives the double and the margins
      as fractions, divided by 10^k. */
  method DoubleDigits(word0: Word, word1: Word, k0: int, kCheck: bool, mode: nat, ndigits: int)
    returns (t: seq<Digit>, decpt: int, ghost n: nat, ghost end: Ending, ghost g: Gen, ghost k: int, ghost d: nat,
             ghost m: nat, ghost shift: nat)
    requires Significand(word0, word1) > 0 && GoodEstimate(Significand(word0, word1), Exponent(word0), k0, kCheck)
    requires mode in {0, 1, 4, 5}
    ensures m * Pow2(shift) == Significand(word0, word1)
    ensures Stands(g, m, Exponent(word0) + shift, Exponent(word0) - 1, IsPowerOfTwo(word0, word1), k)
    ensures g.closed == (word1 % 2 == 0 && mode != 1)
    ensures Generated(t, decpt, n, end, g, k, d, mode, ndigits)
  {
    hide Pow2, PowB, Value, GoodEstimate, Stands, Printed, Significand, RoundedAway;
    var b, e, bits;
    b, e, bits, shift := D2B(word0, word1);
    m := b.Val();
    EstimateCarries(Significand(word0, word1), Exponent(word0), k0, kCheck, m, shift);
    var denorm := ExponentField(word0) == 0;
    t, decpt, n, end, g, k, d :=
      ShortestDigits(b, e, bits, denorm, IsPowerOfTwo(word0, word1), k0, kCheck, mode, word1 % 2 == 0, ndigits);
  }

  const HIDDEN: nat := 0x10_0000_0000_0000

  /** The significand is below 2^53, and at least 2^52 unless the exponent is the least one. */
  lemma SignificandRange(word0: Word, word1: Word)
    ensures Significand(word0, word1) < 2 * HIDDEN && Exponent(word0) >= -1074
    ensures Exponent(word0) > -1074 ==> Significand(word0, word1) >= HIDDEN && ExponentField(word0) > 1
    ensures Exponent(word0) > -1074 ==> (IsPowerOfTwo(word0, word1) <==> Significand(word0, word1) == HIDDEN)
  {
  }
}

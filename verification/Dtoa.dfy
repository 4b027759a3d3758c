/** The arbitrary-precision path of `dtoa`, from the mantissa of the double to its decimal digits. */
module Dtoa {
  import opened Bits
  import opened BigWords
  import opened BigLoops
  import opened Bigints
  import opened QuoRems
  import opened Pow5s
  import opened Digits
  import opened DtoaLoop

  const P: int := 53
  const BIAS: int := 1023

  // ---- Scaling by powers of two and five ----

  /** m * 2^e2 * 5^e5. */
  ghost function Num(m: nat, e2: nat, e5: nat): nat {
    m * (Pow2(e2) * Pow(5, e5))
  }

  lemma NumShift(m: nat, e2: nat, e5: nat, k: nat)
    ensures Num(m, e2, e5) * Pow2(k) == Num(m, e2 + k, e5)
  {
    var a, f, t := Pow2(e2), Pow(5, e5), Pow2(k);
    Pow2Add(e2, k);
    Associate(m, a * f, t);
    Associate(a, f, t);
    Associate(a, t, f);
  }

  lemma NumTimes5(m: nat, e2: nat, e5: nat, k: nat)
    ensures Num(m, e2, e5) * Pow(5, k) == Num(m, e2, e5 + k)
  {
    PowAdd(5, e5, k);
    Associate(m, Pow2(e2) * Pow(5, e5), Pow(5, k));
    Associate(Pow2(e2), Pow(5, e5), Pow(5, k));
  }

  lemma NumTen(m: nat, e2: nat, e5: nat)
    ensures 10 * Num(m, e2, e5) == Num(m, e2 + 1, e5 + 1)
  {
    NumShift(m, e2, e5, 1);
    NumTimes5(m, e2 + 1, e5, 1);
    assert Pow2(1) == 2 && Pow(5, 1) == 5;
  }

  lemma Pow2Of01()
    ensures Pow2(0) == 1 && Pow2(1) == 2
  {
  }

  lemma Pow5Of0()
    ensures Pow(5, 0) == 1
  {
  }

  /** v / s is m * 2^e / 10^k. */
  ghost predicate Ratio(v: nat, s: nat, m: nat, e: int, k: int) {
    exists b2: nat, b5: nat, s2: nat, s5: nat ::
      v == Num(m, b2, b5) && s == Num(1, s2, s5) && b2 - s2 == e - k && b5 - s5 == -k
  }

  // ---- Leading zero bits ----

  /** `hi0bits`: the number of leading zero bits of a word. */
  method Hi0Bits(x0: Word) returns (k: nat)
    ensures x0 == 0 ==> k == 32
    ensures x0 > 0 ==> k <= 31 && 0x8000_0000 <= x0 * Pow2(k) < B
  {
    var x: nat := x0;
    k := 0;
    assert Pow2(0) == 1;
    if x < 0x1_0000 {
      k := 16;
      x := x * 0x1_0000;
      assert Pow2(16) == 0x1_0000 by { assert Pow2(8) == 256; Pow2Add(8, 8); }
    }
    if x < 0x100_0000 {
      ShiftMore(x0, x, k, 8, 256);
      k := k + 8;
      x := x * 256;
    }
    if x < 0x1000_0000 {
      ShiftMore(x0, x, k, 4, 16);
      k := k + 4;
      x := x * 16;
    }
    if x < 0x4000_0000 {
      ShiftMore(x0, x, k, 2, 4);
      k := k + 2;
      x := x * 4;
    }
    if x < 0x8000_0000 {
      ShiftMore(x0, x, k, 1, 2);
      k := k + 1;
      if x < 0x4000_0000 {
        return 32;
      }
    }
  }

  lemma ShiftMore(x0: nat, x: nat, k: nat, n: nat, f: nat)
    requires x == x0 * Pow2(k) && (n, f) in {(8, 256), (4, 16), (2, 4), (1, 2)}
    ensures x * f == x0 * Pow2(k + n)
  {
    assert Pow2(n) == f;
    Pow2Add(k, n);
    Associate(x0, Pow2(k), f);
  }

  // ---- The normalising shift ----

  /** The shift that is added to all powers of two: bits is the length of the divisor's leading word. */
  method NormalisingShift(bits: nat, s2: nat) returns (i: nat)
    ensures (bits + s2 + i) % 32 == 28
  {
    i := (bits + s2) % 32;
    if i != 0 {
      i := 32 - i;
    }
    if i > 4 {
      i := i - 4;
    } else if i < 4 {
      i := i + 28;
    } else {
      i := 0;
    }
  }

  lemma {:induction false} Pow2Mono(m: nat, n: nat)
    requires m <= n
    ensures Pow2(m) <= Pow2(n)
    decreases n
  {
    if m < n { Pow2Mono(m, n - 1); }
  }

  lemma Scale(v: nat, lo: nat, hi: nat, p: nat)
    requires lo <= v < hi && p > 0
    ensures lo * p <= v * p < hi * p
  {
    MulMono(lo, v, p, p);
    MulStrict(v, hi, p);
  }

  lemma ScaleTop(v: nat, top: nat, lo: nat, hi: nat, p: nat)
    requires top * p <= v < (top + 1) * p && lo <= top < hi
    ensures lo * p <= v < hi * p
  {
    MulMono(lo, top, p, p);
    MulMono(top + 1, hi, p, p);
  }

  lemma WordWeight(bits: nat, n: nat)
    ensures Pow2(bits) * PowB(n) == Pow2(32 * n + bits)
  {
    Pow2Words(n);
    Pow2Add(bits, 32 * n);
  }

  /** A number without leading zero word, in bits: its leading word has `bits` bits. */
  lemma BitLength(s: seq<Word>, bits: nat)
    requires |s| > 0 && 1 <= bits <= 32 && Pow2(bits - 1) <= s[|s| - 1] < Pow2(bits)
    ensures Pow2(32 * (|s| - 1) + (bits - 1)) <= Value(s) < Pow2(32 * (|s| - 1) + bits)
  {
    ValueTop(s);
    ScaleTop(Value(s), s[|s| - 1], Pow2(bits - 1), Pow2(bits), PowB(|s| - 1));
    WordWeight(bits - 1, |s| - 1);
    WordWeight(bits, |s| - 1);
  }

  /** A number of 32 m + 28 bits has m + 1 words. */
  lemma WordsOfBits(r: seq<Word>, m: nat)
    requires |r| > 0 && r[|r| - 1] != 0 && Pow2(32 * m + 27) <= Value(r) < Pow2(32 * m + 28)
    ensures |r| == m + 1
  {
    hide Value, PowB, Pow2;
    var w := |r| - 1;
    ValueTop(r);
    ValueBound(r);
    Pow2Words(w);
    Pow2Words(|r|);
    MulMono(1, r[w], PowB(w), PowB(w));
    if w > m { Pow2Mono(32 * m + 28, 32 * w); }
    if w < m { Pow2Mono(32 * |r|, 32 * m + 27); }
  }

  lemma Pow2Of28()
    ensures Pow2(27) == 0x800_0000 && Pow2(28) == 0x1000_0000
  {
    hide Pow2;
    Pow2Of8();
    Pow2Add(8, 8);
    Pow2Add(16, 8);
    Pow2Of01();
    Pow2Add(1, 1);
    Pow2Add(2, 1);
    Pow2Add(24, 3);
    Pow2Add(27, 1);
  }

  /** A number of 32 m + 28 bits has m + 1 words and four leading zero bits. */
  lemma FourZeroBits(r: seq<Word>, m: nat)
    requires |r| > 0 && r[|r| - 1] != 0 && Pow2(32 * m + 27) <= Value(r) < Pow2(32 * m + 28)
    ensures |r| == m + 1 && 0x800_0000 <= r[|r| - 1] < 0x1000_0000
  {
    hide Value, PowB, Pow2;
    WordsOfBits(r, m);
    ValueTop(r);
    Pow2Words(m);
    Pow2Add(27, 32 * m);
    Pow2Add(28, 32 * m);
    Pow2Of28();
    var top, p := r[m], PowB(m);
    if top < 0x800_0000 { MulMono(top + 1, 0x800_0000, p, p); }
    if top >= 0x1000_0000 { MulMono(0x1000_0000, top, p, p); }
  }

  /** The chosen shift normalises the divisor. */
  lemma ShiftNormalises(s: seq<Word>, bits: nat, k: nat, r: seq<Word>)
    requires |s| > 0 && 1 <= bits <= 32 && Pow2(bits - 1) <= s[|s| - 1] < Pow2(bits) && (bits + k) % 32 == 28
    requires |r| > 0 && r[|r| - 1] != 0 && Value(r) == Value(s) * Pow2(k)
    ensures 0x800_0000 <= r[|r| - 1] < 0x1000_0000
  {
    var q := (bits + k) / 32;
    assert bits + k == 32 * q + 28;
    var n := |s| - 1;
    var lo := 32 * n + (bits - 1);
    BitLength(s, bits);
    assert lo + 1 == 32 * n + bits;
    BitsAfterShift(r, Value(s), lo, k, n + q);
  }

  lemma BitsAfterShift(r: seq<Word>, v: nat, lo: nat, k: nat, m: nat)
    requires |r| > 0 && r[|r| - 1] != 0 && Value(r) == v * Pow2(k)
    requires Pow2(lo) <= v < Pow2(lo + 1) && lo + k == 32 * m + 27
    ensures 0x800_0000 <= r[|r| - 1] < 0x1000_0000
  {
    ShiftedBits(v, lo, lo + 1, k, 32 * m + 27);
    FourZeroBits(r, m);
  }

  lemma ShiftedBits(v: nat, lo: nat, hi: nat, k: nat, e: nat)
    requires Pow2(lo) <= v < Pow2(hi) && hi == lo + 1 && lo + k == e
    ensures Pow2(e) <= v * Pow2(k) < Pow2(e + 1)
  {
    Scale(v, Pow2(lo), Pow2(hi), Pow2(k));
    Pow2Add(lo, k);
    Pow2Add(hi, k);
  }

  lemma WordBitsArith(x: nat, t: nat, h: nat)
    requires h * t == 0x8000_0000 && t > 0 && 0x8000_0000 <= x * t < B
    ensures h <= x < 2 * h
  {
    if x < h { MulStrict(x, h, t); }
    if x >= 2 * h {
      MulMono(2 * h, x, t, t);
      Associate(2, h, t);
    }
  }

  /** The bits of a word, from its leading zeros. */
  lemma WordBits(x: Word, z: nat)
    requires x > 0 && z <= 31 && 0x8000_0000 <= x * Pow2(z) < B
    ensures Pow2(31 - z) <= x < Pow2(32 - z)
  {
    hide Pow2;
    Pow2Of01();
    Pow2Of32(31);
    Pow2Add(31 - z, z);
    Pow2Next(31 - z);
    WordBitsArith(x, Pow2(z), Pow2(31 - z));
  }

  /** The divisor is shifted by s2 and the normalising shift i. */
  method ShiftDivisor(s: Bigint, s2: nat) returns (r: Bigint, i: nat)
    requires Number(s) && s.Val() > 0
    ensures Normalised(r) && Number(r) && r.Val() == s.Val() * Pow2(s2 + i) && (r == s || (fresh(r) && fresh(r.x)))
  {
    hide Value, PowB, Pow2;
    Pow2Of01();
    TopOfPositive(s.x[..s.wds]);
    var z := Hi0Bits(s.x[s.wds - 1]);
    WordBits(s.x[s.wds - 1], z);
    i := NormalisingShift(32 - z, s2);
    r := s;
    if s2 + i > 0 {
      r := LShift(s, s2 + i);
    }
    ShiftNormalises(s.x[..s.wds], 32 - z, s2 + i, r.x[..r.wds]);
  }

  // ---- From the double to the digit loop ----

  /** The exponents of two and five of the number, the divisor and the margin. */
  datatype Exps = Exps(b2: nat, s2: nat, m2: nat, b5: nat, s5: nat)

  /** The exponent of half a unit in the last place of the double m * 2^be with bbits bits in m. */
  function HalfUlp(be: int, bbits: nat, denorm: bool): int {
    if denorm then -(BIAS + (P - 1) - 1 + 1) else be - (1 + P - bbits)
  }

  /** The bookkeeping of the powers of two and five; be is the binary exponent (-j in the source). */
  method Exponents(be: int, bbits: nat, denorm: bool, k: int, leftright: bool) returns (x: Exps)
    requires if denorm then be >= -1075 else bbits <= P
    ensures x.b2 - x.s2 == be - k && x.b5 - x.s5 == -k && (x.b5 == 0 || x.s5 == 0)
    ensures leftright ==> x.m2 - x.s2 == HalfUlp(be, bbits, denorm) - k
  {
    var b2, s2, b5, s5 := 0, 0, 0, 0;
    var j := -be;
    if j >= 0 {
      s2 := j;
    } else {
      b2 := -j;
    }
    if k >= 0 {
      s5 := k;
      s2 := s2 + k;
    } else {
      b2 := b2 - k;
      b5 := -k;
    }
    var m2 := b2;
    if leftright {
      var i := if denorm then be + (BIAS + (P - 1) - 1 + 1) else 1 + P - bbits;
      b2 := b2 + i;
      s2 := s2 + i;
    }
    if m2 > 0 && s2 > 0 {
      var i := if m2 < s2 then m2 else s2;
      b2, m2, s2 := b2 - i, m2 - i, s2 - i;
    }
    x := Exps(b2, s2, m2, b5, s5);
  }

  /** A power of two gets one more bit, so that its lower margin can be half the upper one. */
  method MarginExponents(be: int, bbits: nat, denorm: bool, powerOfTwo: bool, k: int) returns (x: Exps)
    requires if denorm then be >= -1075 else bbits <= P
    ensures x.b2 - x.s2 == be - k && x.b5 - x.s5 == -k
    ensures x.m2 - x.s2 == HalfUlp(be, bbits, denorm) - (if powerOfTwo then 1 else 0) - k
  {
    x := Exponents(be, bbits, denorm, k, true);
    if powerOfTwo {
      x := x.(b2 := x.b2 + 1, s2 := x.s2 + 1);
    }
  }

  /** 5^e. */
  method FivePower(e: nat) returns (s: Bigint)
    ensures Number(s) && fresh(s) && fresh(s.x) && s.Val() == Pow(5, e) && s.Val() > 0
  {
    s := FromInt(1);
    PowPositive(5, e);
    if e > 0 {
      s := Pow5Mult(s, e);
      PositiveWords(s.x[..s.wds]);
    }
  }

  /** The number times 5^b5, and the margin 5^b5 that goes with it. */
  method TimesFive(b0: Bigint, b5: nat, leftright: bool) returns (b: Bigint, mhi: Bigint)
    requires Number(b0) && b0.Val() > 0
    modifies b0, b0.x
    ensures Number(b) && Number(mhi) && Apart(b, mhi) && fresh(mhi)
    ensures fresh(mhi.x) && (b == b0 || (fresh(b) && fresh(b.x)))
    ensures b.Val() == old(b0.Val()) * Pow(5, b5) && (leftright ==> mhi.Val() == Pow(5, b5)) && mhi.Val() > 0
  {
    hide Value, PowB, Pow2, Pow;
    Pow5Of0();
    PowPositive(5, b5);
    ghost var m, f := b0.Val(), Pow(5, b5);
    MulMono(1, m, 1, f);
    b := b0;
    mhi := FivePower(if leftright then b5 else 0);
    if b5 > 0 {
      if leftright {
        Commute(m, f);
        b := Mult(mhi, b0);
      } else {
        b := Pow5Mult(b, b5);
      }
      PositiveWords(b.x[..b.wds]);
    } else {
      assert f == 1 && m * 1 == m;
    }
  }

  /** A number times a power of two, unchanged when the exponent is zero. */
  method ShiftNumber(b: Bigint, k: nat) returns (r: Bigint)
    requires Number(b) && b.Val() > 0
    ensures Number(r) && r.Val() == b.Val() * Pow2(k) && (r == b || (fresh(r) && fresh(r.x)))
  {
    hide Value, PowB, Pow2;
    Pow2Of01();
    r := b;
    if k > 0 {
      TopOfPositive(b.x[..b.wds]);
      r := LShift(b, k);
    }
  }

  /** The margins: one object, or two when the number is a power of two and its lower neighbour is nearer. */
  method Margins(m: Bigint, m2: nat, specCase: bool) returns (mlo: Bigint, mhi: Bigint)
    requires Number(m) && m.Val() > 0
    ensures Number(mlo) && Number(mhi) && mlo.Val() == m.Val() * Pow2(m2)
    ensures mhi.Val() == if specCase then 2 * mlo.Val() else mlo.Val()
    ensures (mlo == m || (fresh(mlo) && fresh(mlo.x)))
    ensures (mhi == mlo || (fresh(mhi) && fresh(mhi.x) && Apart(mlo, mhi)))
  {
    hide Value, PowB, Pow2;
    Pow2Of01();
    mlo := ShiftNumber(m, m2);
    mhi := mlo;
    if specCase {
      MulMono(1, m.Val(), 1, Pow2(m2));
      TopOfPositive(mlo.x[..mlo.wds]);
      mhi := Copy(mlo, mlo.k);
      mhi := LShift(mhi, 1);
    }
  }

  lemma NumOf(m: nat, e2: nat, e5: nat)
    ensures m * Pow(5, e5) * Pow2(e2) == Num(m, e2, e5)
  {
    Associate(m, Pow(5, e5), Pow2(e2));
    Commute(Pow(5, e5), Pow2(e2));
  }

  /** Number and divisor get their powers of two, with the normalising shift i in both. */
  method ScaleBoth(b1: Bigint, b2: nat, s2: nat, s5: nat, ghost m: nat, ghost b5: nat)
    returns (b: Bigint, s: Bigint, i: nat)
    requires Number(b1) && b1.Val() == m * Pow(5, b5) && b1.Val() > 0
    ensures Number(b) && Normalised(s) && Number(s) && Apart(b, s) && fresh(s)
    ensures fresh(s.x) && (b == b1 || (fresh(b) && fresh(b.x)))
    ensures b.Val() == Num(m, b2 + i, b5) && s.Val() == Num(1, s2 + i, s5)
  {
    hide Value, PowB, Pow2, Pow, Num, Normalised;
    s := FivePower(s5);
    s, i := ShiftDivisor(s, s2);
    b := ShiftNumber(b1, b2 + i);
    NumOf(m, b2 + i, b5);
    NumOf(1, s2 + i, s5);
  }

  /** The estimate k of the decimal exponent is right, or one too great when kCheck is set. */
  ghost predicate GoodEstimate(m: nat, be: int, k: int, kCheck: bool) {
    forall v, s :: Ratio(v, s, m, be, k) ==> v < 10 * s && if kCheck then s <= 10 * v else s <= v
  }

  /** `k_check`: the number is multiplied by ten when the estimate was one too great. */
  method CheckEstimate(b0: Bigint, s: Bigint, k0: int, kCheck: bool) returns (b: Bigint, k: int)
    requires Number(b0) && Number(s) && Apart(b0, s)
    requires b0.Val() < 10 * s.Val() && if kCheck then s.Val() <= 10 * b0.Val() else s.Val() <= b0.Val()
    modifies b0, b0.x
    ensures Number(b) && Apart(b, s) && (b == b0 || (fresh(b) && fresh(b.x)))
    ensures s.Val() <= b.Val() < 10 * s.Val()
    ensures if k == k0 then b == b0 && b.Val() == old(b0.Val()) else k == k0 - 1 && b.Val() == 10 * old(b0.Val())
  {
    b, k := b0, k0;
    if kCheck {
      var c := Cmp(b, s);
      if c < 0 {
        k := k - 1;
        b := MultAdd(b, 10, 0);
      }
    }
  }

  /** What the digits have to do with the double m * 2^be: v / s is the double divided by 10^k, and lo / s
      and hi / s are half a unit in the last place (a quarter below a power of two) divided by 10^k. */
  ghost predicate Stands(g: Gen, m: nat, be: int, half: int, powerOfTwo: bool, k: int) {
    && Ratio(g.v, g.s, m, be, k)
    && Ratio(g.lo, g.s, 1, if powerOfTwo then half - 1 else half, k)
    && Ratio(g.hi, g.s, 1, half, k)
    && g.s <= g.v < 10 * g.s
  }

  lemma RatioOf(m: nat, b2: nat, b5: nat, s2: nat, s5: nat, e: int, k: int)
    requires b2 - s2 == e - k && b5 - s5 == -k
    ensures Ratio(Num(m, b2, b5), Num(1, s2, s5), m, e, k)
  {
  }

  /** The same numbers after the correction of k. */
  lemma RatioFixed(m: nat, b2: nat, b5: nat, s2: nat, s5: nat, e: int, k: int, k': int)
    requires b2 - s2 == e - k && b5 - s5 == -k && (k' == k || k' == k - 1)
    ensures Ratio(if k' == k then Num(m, b2, b5) else 10 * Num(m, b2, b5), Num(1, s2, s5), m, e, k')
  {
    if k' == k {
      RatioOf(m, b2, b5, s2, s5, e, k);
    } else {
      NumTen(m, b2, b5);
      RatioOf(m, b2 + 1, b5 + 1, s2, s5, e, k');
    }
  }

  /** The margin, scaled by 2^m2, and by ten when k was corrected. */
  lemma MarginValue(v: nat, f: nat, b5: nat, m2: nat, ten: bool)
    requires f == Pow(5, b5) && v == if ten then 10 * f else f
    ensures v * Pow2(m2) == if ten then 10 * Num(1, m2, b5) else Num(1, m2, b5)
  {
    NumOf(1, m2, b5);
    Associate(10, f, Pow2(m2));
  }

  lemma TwiceNum(e2: nat, e5: nat)
    ensures 2 * Num(1, e2, e5) == Num(1, e2 + 1, e5)
  {
    NumShift(1, e2, e5, 1);
    assert Pow2(1) == 2;
  }

  /** The values of number and divisor once the estimate of k is settled. */
  ghost predicate Settled(v: nat, s: nat, m: nat, x: Exps, k0: int, k: int) {
    && (k == k0 || k == k0 - 1) && s <= v < 10 * s && s == Num(1, x.s2, x.s5)
    && v == (if k == k0 then Num(m, x.b2, x.b5) else 10 * Num(m, x.b2, x.b5))
  }

  /** The margin before its powers of two, ten times greater when k was corrected. */
  ghost function UnscaledMargin(x: Exps, k0: int, k: int): nat {
    if k == k0 then Pow(5, x.b5) else 10 * Pow(5, x.b5)
  }

  /** Number and divisor, normalised and with the estimate of k corrected; the margin has its powers of five. */
  method Prepare(b0: Bigint, be: int, x0: Exps, k0: int, kCheck: bool, leftright: bool)
    returns (b: Bigint, s: Bigint, margin: Bigint, k: int, x: Exps)
    requires Number(b0) && b0.Val() > 0 && GoodEstimate(b0.Val(), be, k0, kCheck)
    requires x0.b2 - x0.s2 == be - k0 && x0.b5 - x0.s5 == -k0
    modifies b0, b0.x
    ensures Number(b) && Normalised(s) && Number(s) && Number(margin)
    ensures Apart(b, s) && Apart(b, margin) && Apart(s, margin)
    ensures b == b0 || (fresh(b) && fresh(b.x))
    ensures fresh(s) && fresh(s.x) && fresh(margin) && fresh(margin.x)
    ensures x.b2 - x0.b2 == x.s2 - x0.s2 == x.m2 - x0.m2 >= 0 && x.b5 == x0.b5 && x.s5 == x0.s5
    ensures Settled(b.Val(), s.Val(), old(b0.Val()), x, k0, k)
    ensures (k == k0 || k == k0 - 1) && s.Val() <= b.Val() < 10 * s.Val()
    ensures margin.Val() > 0 && (leftright ==> margin.Val() == UnscaledMargin(x, k0, k))
  {
    hide Value, PowB, Pow2, Pow, Num, Ratio, Normalised;
    ghost var m := b0.Val();
    b, margin := TimesFive(b0, x0.b5, leftright);
    FiveTimesPositive(m, x0.b5);
    var i;
    b, s, i := ScaleBoth(b, x0.b2, x0.s2, x0.s5, m, x0.b5);
    x := x0.(b2 := x0.b2 + i, s2 := x0.s2 + i, m2 := x0.m2 + i);
    RatioOf(m, x.b2, x.b5, x.s2, x.s5, be, k0);
    b, k := CheckEstimate(b, s, k0, kCheck);
    if k != k0 && leftright {
      margin := MultAdd(margin, 10, 0);
    }
  }

  lemma FiveTimesPositive(m: nat, e: nat)
    requires m > 0
    ensures m * Pow(5, e) > 0
  {
    PowPositive(5, e);
    MulMono(1, m, 1, Pow(5, e));
  }

  lemma StandsFor(g: Gen, m: nat, be: int, half: int, powerOfTwo: bool, k0: int, k: int, x: Exps, margin: nat)
    requires x.b2 - x.s2 == be - k0 && x.b5 - x.s5 == -k0 && x.m2 - x.s2 == half - (if powerOfTwo then 1 else 0) - k0
    requires Settled(g.v, g.s, m, x, k0, k) && margin == UnscaledMargin(x, k0, k) > 0 && g.lo == margin * Pow2(x.m2)
    requires g.hi == if powerOfTwo then 2 * g.lo else g.lo
    ensures Stands(g, m, be, half, powerOfTwo, k) && 0 < g.lo <= g.hi && g.s <= g.v < 10 * g.s
  {
    hide Num, Ratio, Pow2, Pow;
    MarginValue(margin, Pow(5, x.b5), x.b5, x.m2, k != k0);
    MulMono(1, margin, 1, Pow2(x.m2));
    RatioFixed(m, x.b2, x.b5, x.s2, x.s5, be, k0, k);
    RatioFixed(1, x.m2, x.b5, x.s2, x.s5, if powerOfTwo then half - 1 else half, k0, k);
    if powerOfTwo {
      TwiceNum(x.m2, x.b5);
      RatioFixed(1, x.m2 + 1, x.b5, x.s2, x.s5, half, k0, k);
    }
  }

  /** The double and its margins, also when the margins are not computed. */
  lemma MarginsOf(v: nat, s: nat, m: nat, be: int, half: int, powerOfTwo: bool, k0: int, k: int, x: Exps, margin: nat,
                  closed: bool)
    returns (g: Gen)
    requires x.b2 - x.s2 == be - k0 && x.b5 - x.s5 == -k0 && x.m2 - x.s2 == half - (if powerOfTwo then 1 else 0) - k0
    requires Settled(v, s, m, x, k0, k) && margin == UnscaledMargin(x, k0, k) > 0
    ensures Stands(g, m, be, half, powerOfTwo, k) && g.v == v && g.s == s && g.closed == closed
  {
    hide Stands, Settled, UnscaledMargin, Pow2;
    var lo := margin * Pow2(x.m2);
    g := Gen(v, s, lo, if powerOfTwo then 2 * lo else lo, closed);
    StandsFor(g, m, be, half, powerOfTwo, k0, k, x, margin);
  }

  /** The margins are scaled, and all operands stand for the double. */
  method FinishOperands(b: Bigint, s: Bigint, margin: Bigint, ghost m: nat, ghost be: int, ghost half: int,
                        powerOfTwo: bool, ghost k0: int, ghost k: int, x: Exps, ghost closed: bool)
    returns (mlo: Bigint, mhi: Bigint, ghost g: Gen)
    requires Number(b) && Normalised(s) && Number(s) && Number(margin)
    requires Apart(b, s) && Apart(b, margin) && Apart(s, margin)
    requires x.b2 - x.s2 == be - k0 && x.b5 - x.s5 == -k0 && x.m2 - x.s2 == half - (if powerOfTwo then 1 else 0) - k0
    requires Settled(b.Val(), s.Val(), m, x, k0, k) && margin.Val() == UnscaledMargin(x, k0, k) > 0
    ensures Operands(b, s, mlo, mhi) && (mlo == margin || (fresh(mlo) && fresh(mlo.x)))
    ensures (mhi == margin || (fresh(mhi) && fresh(mhi.x)))
    ensures g == Gen(b.Val(), s.Val(), mlo.Val(), mhi.Val(), closed) && 0 < g.lo <= g.hi && g.s <= g.v < 10 * g.s
    ensures Stands(g, m, be, half, powerOfTwo, k)
  {
    hide Value, PowB, Pow2, Pow, Num, Ratio, Stands, Normalised, Settled, UnscaledMargin;
    mlo, mhi := Margins(margin, x.m2, powerOfTwo);
    g := Gen(b.Val(), s.Val(), mlo.Val(), mhi.Val(), closed);
    StandsFor(g, m, be, half, powerOfTwo, k0, k, x, margin.Val());
  }

  /** The margins are finished and the digit loop runs. */
  method Generate(b: Bigint, s: Bigint, margin: Bigint, ghost m: nat, ghost be: int, ghost half: int,
                  powerOfTwo: bool, ghost k0: int, k: int, x: Exps, mode1: bool, even: bool, ilim: int)
    returns (t: seq<Digit>, decpt: int, ghost n: nat, ghost rounded: bool, ghost g: Gen, ghost d: nat)
    requires Number(b) && Normalised(s) && Number(s) && Number(margin)
    requires Apart(b, s) && Apart(b, margin) && Apart(s, margin)
    requires x.b2 - x.s2 == be - k0 && x.b5 - x.s5 == -k0 && x.m2 - x.s2 == half - (if powerOfTwo then 1 else 0) - k0
    requires Settled(b.Val(), s.Val(), m, x, k0, k) && margin.Val() == UnscaledMargin(x, k0, k) > 0
    modifies b, b.x, margin, margin.x
    ensures Stands(g, m, be, half, powerOfTwo, k) && g.closed == (even && !mode1)
    ensures k < decpt <= k + 2 && Printed(g, t, decpt - k - 1, n, d, rounded)
    ensures (rounded ==> n == ilim) && (ilim >= 1 ==> n <= ilim)
  {
    hide Value, PowB, Pow2, Pow, Num, Ratio, Stands, Normalised, Settled, UnscaledMargin, Printed;
    var mlo, mhi, up;
    mlo, mhi, g := FinishOperands(b, s, margin, m, be, half, powerOfTwo, k0, k, x, even && !mode1);
    t, up, n, rounded, d := LeftRight(b, s, mlo, mhi, mode1, even, ilim);
    decpt := k + up + 1;
  }

  // ---- Modes ----

  /** Modes out of range are mode 0, and the debugging modes 6 to 9 are modes 2 to 5. */
  function NormalMode(mode: int): (m: nat)
    ensures m <= 5 && (0 <= mode <= 5 ==> m == mode) && (6 <= mode <= 9 ==> m + 4 == mode) && (!(0 <= mode <= 9) ==> m == 0)
  {
    if mode < 0 || mode > 9 then 0 else if mode > 5 then mode - 4 else mode
  }

  /** How many digits a mode asks for when the first one has the weight 10^k: as many as it takes (-1), ndigits but at
      least one, or those down to the place 10^-ndigits, which may be none at all. */
  function Limit(mode: nat, ndigits: int, k: int): int {
    if mode <= 1 then -1
    else if mode == 2 || mode == 4 then if ndigits <= 0 then 1 else ndigits
    else ndigits + k + 1
  }

  /** The switch over the modes. */
  method Limits(mode: nat, ndigits0: int, k: int) returns (ilim: int, ilim1: int, ndigits: int, leftright: bool)
    requires mode <= 5
    ensures ilim == Limit(mode, ndigits0, k) && ilim1 == Limit(mode, ndigits0, k - 1)
    ensures leftright <==> mode != 2 && mode != 3
    ensures mode == 3 || mode == 5 ==> ndigits == ndigits0
    ensures mode != 3 && mode != 5 ==> ndigits >= 0
  {
    leftright, ndigits := true, ndigits0;
    match mode {
      case 0 | 1 =>
        ilim, ilim1, ndigits := -1, -1, 0;
      case 2 | 4 =>
        leftright := mode == 4;
        if ndigits <= 0 {
          ndigits := 1;
        }
        ilim, ilim1 := ndigits, ndigits;
      case _ =>
        leftright := mode == 5;
        ilim := ndigits + k + 1;
        ilim1 := ilim - 1;
    }
  }

  /** The number v / s rounded half-even to a multiple of 10^(1 - lim), which is more than its first digit stands for:
      one such multiple or none. */
  ghost predicate RoundedAway(v: nat, s: nat, lim: int, one: bool) {
    lim <= 0 && Gen(v, s * Pow(10, 1 - lim), 0, 0, false).RoundedHalfEven(if one then 1 else 0, 0)
  }

  /** Modes 3 and 5 when the last place asked for is to the left of the first digit: a single one or no digits. */
  method NoPlaces(b: Bigint, s0: Bigint, ilim: int, ndigits: int, k: int) returns (t: seq<Digit>, decpt: int)
    requires Number(b) && Number(s0) && Apart(b, s0) && s0.Val() <= b.Val() < 10 * s0.Val() && ilim <= 0
    modifies s0, s0.x
    ensures (t == [1] && ilim == 0 && decpt == k + 2) || (t == [] && decpt == -ndigits)
    ensures RoundedAway(b.Val(), old(s0.Val()), ilim, t == [1])
  {
    hide Value, PowB, Pow2, RoundedAway;
    AwayRight(b.Val(), s0.Val(), ilim);
    if ilim < 0 {
      return [], -ndigits;
    }
    var s := MultAdd(s0, 5, 0);
    var c := Cmp(b, s);
    if c <= 0 {
      return [], -ndigits;
    }
    return [1], k + 2;
  }

  lemma AwayRight(v: nat, s: nat, lim: int)
    requires s <= v < 10 * s && lim <= 0
    ensures RoundedAway(v, s, lim, lim == 0 && v > 5 * s)
  {
    hide Pow;
    var p := Pow(10, 1 - lim);
    Pow10Of0();
    Pow10At(1 - lim);
    MulMono(s, s, 10, p);
    if lim < 0 {
      MulMono(s, s, 100, p);
    }
  }

  lemma Pow10At(n: nat)
    requires n >= 1
    ensures Pow(10, n) >= 10 && (n == 1 ==> Pow(10, n) == 10) && (n >= 2 ==> Pow(10, n) >= 100)
  {
    assert Pow(10, n) == 10 * Pow(10, n - 1);
    if n >= 2 {
      PowPositive(10, n - 2);
      assert Pow(10, n - 1) == 10 * Pow(10, n - 2);
    }
  }

  /** How the generation of digits ends: by the stopping tests, at the limit of digits, or before the first digit. */
  datatype Ending = Short | AtLimit | NoDigits

  /** The result in modes 0, 1, 4 and 5: as the digit loop leaves it, with at most the digits asked for and rounded only
      when all of them are there; in mode 5, if no digit is asked for, rounded at the place asked for. */
  ghost predicate Generated(t: seq<Digit>, decpt: int, n: nat, end: Ending, g: Gen, k: int, d: nat, mode: nat, ndigits: int)
  {
    var lim := Limit(mode, ndigits, k);
    && (end.NoDigits? <==> mode == 5 && lim <= 0)
    && (end.AtLimit? ==> n == lim)
    && (end.NoDigits? ==> RoundedAway(g.v, g.s, lim, t == [1]))
    && (end.NoDigits? ==> (t == [1] && decpt == 1 - ndigits) || (t == [] && decpt == -ndigits))
    && (!end.NoDigits? ==> k < decpt <= k + 2 && Printed(g, t, decpt - k - 1, n, d, end.AtLimit?))
    && (!end.NoDigits? && mode >= 4 ==> n <= lim)
  }

  /** `dtoa`, modes 0, 1, 4 and 5, on the arbitrary-precision path, for the double m * 2^be: `g` is the double with its
      margins, divided by 10^k, and the digits t with the decimal point after position decpt stand for the
      decimal d. */
  method ShortestDigits(b0: Bigint, be: int, bbits: nat, denorm: bool, powerOfTwo: bool, k0: int, kCheck: bool,
                        mode: nat, even: bool, ndigits0: int)
    returns (t: seq<Digit>, decpt: int, ghost n: nat, ghost end: Ending, ghost g: Gen, ghost k: int, ghost d: nat)
    requires Number(b0) && b0.Val() > 0 && (if denorm then be >= -1075 else bbits <= P)
    requires GoodEstimate(b0.Val(), be, k0, kCheck) && mode in {0, 1, 4, 5}
    modifies b0, b0.x
    ensures Stands(g, old(b0.Val()), be, HalfUlp(be, bbits, denorm), powerOfTwo, k) && g.closed == (even && mode != 1)
    ensures Generated(t, decpt, n, end, g, k, d, mode, ndigits0)
  {
    hide Value, PowB, Pow2, Pow, Num, Ratio, Normalised, ReadsAs, Stands;
    hide GoodEstimate, HalfUlp, Settled, UnscaledMargin, Printed, RoundedAway;
    ghost var m, half := b0.Val(), HalfUlp(be, bbits, denorm);
    var ilim, ilim1, ndigits, leftright := Limits(mode, ndigits0, k0);
    var x := MarginExponents(be, bbits, denorm, powerOfTwo, k0);
    var b, s, margin, k1;
    b, s, margin, k1, x := Prepare(b0, be, x, k0, kCheck, true);
    k := k1;
    if k1 != k0 {
      ilim := ilim1;
    }
    if ilim <= 0 && mode == 5 {
      ghost var sv := s.Val();
      t, decpt := NoPlaces(b, s, ilim, ndigits, k1);
      end, n, d := NoDigits, 0, 0;
      g := MarginsOf(b.Val(), sv, m, be, half, powerOfTwo, k0, k1, x, margin.Val(), even && mode != 1);
    } else {
      ghost var rounded;
      t, decpt, n, rounded, g, d := Generate(b, s, margin, m, be, half, powerOfTwo, k0, k1, x, mode == 1, even, ilim);
      end := if rounded then AtLimit else Short;
    }
  }

  /** The result in modes 2 and 3: the number v / s itself when it has fewer digits than asked for, otherwise rounded to
      that many digits; rounded at the place asked for if that is left of the first digit. */
  ghost predicate FixedResult(t: seq<Digit>, decpt: int, n: nat, v: nat, s: nat, k: int, d: nat, mode: nat, ndigits: int)
  {
    var lim := Limit(mode, ndigits, k);
    if lim <= 0 then
      && RoundedAway(v, s, lim, t == [1])
      && ((t == [1] && decpt == 1 - ndigits) || (t == [] && decpt == -ndigits))
    else
      && k < decpt <= k + 2 && 1 <= |t| <= n <= lim
      && ReadsAs(t, n, decpt - k - 1, d) && t[0] != 0 && t[|t| - 1] != 0
      && if n < lim then d * s == v * Pow(10, n - 1) else Gen(v, s, 0, 0, false).RoundedHalfEven(d, n - 1)
  }

  /** `dtoa`, modes 2 and 3, on the arbitrary-precision path: the double itself when it has fewer digits than asked
      for, otherwise the double rounded half-even to that many digits. */
  method RoundedDigits(b0: Bigint, be: int, bbits: nat, denorm: bool, k0: int, kCheck: bool, mode: nat, ndigits0: int)
    returns (t: seq<Digit>, decpt: int, ghost n: nat, ghost v: nat, ghost sv: nat, ghost k: int, ghost d: nat)
    requires Number(b0) && b0.Val() > 0 && (if denorm then be >= -1075 else bbits <= P)
    requires GoodEstimate(b0.Val(), be, k0, kCheck) && mode in {2, 3}
    modifies b0, b0.x
    ensures Ratio(v, sv, old(b0.Val()), be, k) && sv <= v < 10 * sv
    ensures FixedResult(t, decpt, n, v, sv, k, d, mode, ndigits0)
  {
    hide Value, PowB, Pow2, Pow, Num, Ratio, Normalised, Gen.RoundedHalfEven, ReadsAs, RoundedAway;
    ghost var m := b0.Val();
    var ilim, ilim1, ndigits, leftright := Limits(mode, ndigits0, k0);
    var x := Exponents(be, bbits, denorm, k0, false);
    var b, s, margin, k1, up;
    b, s, margin, k1, x := Prepare(b0, be, x, k0, kCheck, false);
    RatioFixed(m, x.b2, x.b5, x.s2, x.s5, be, k0, k1);
    v, sv, k := b.Val(), s.Val(), k1;
    if k1 != k0 {
      ilim := ilim1;
    }
    if ilim <= 0 && mode == 3 {
      t, decpt := NoPlaces(b, s, ilim, ndigits, k1);
      n, d := 0, 0;
    } else {
      t, up, n, d := FixedDigits(b, s, ilim);
      decpt := k1 + up + 1;
    }
  }
}

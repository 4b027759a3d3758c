/** `quorem`: the quotient digit by estimate and correction. */
module QuoRems {
  import opened Bits
  import opened BigWords
  import opened BigLoops
  import opened Bigints

  /** The divisor is shifted so that its leading word has exactly four leading zero bits. */
  ghost predicate Normalised(s: Bigint)
    reads s, s.x
  {
    s.Valid() && s.wds >= 1 && 0x800_0000 <= s.x[s.wds - 1] < 0x1000_0000
  }

  /** The quotient of the leading words is never too great. */
  lemma EstimateLow(bv: nat, sv: nat, bt: nat, st: nat, p: nat, q: nat)
    requires p > 0 && bt * p <= bv && sv < (st + 1) * p && q * (st + 1) <= bt
    ensures q * sv <= bv
  {
    MulMono(q, q, sv, (st + 1) * p);
    Associate(q, st + 1, p);
    MulMono(q * (st + 1), bt, p, p);
  }

  /** It is at most one too small. */
  lemma EstimateHigh(bv: nat, sv: nat, bt: nat, st: nat, p: nat, q: nat)
    requires p > 0 && bv < (bt + 1) * p && st * p <= sv && bt < (q + 1) * (st + 1) && q + 1 <= st
    ensures bv < (q + 2) * sv
  {
    Distribute(q + 1, 1, st);
    assert (q + 1) * (st + 1) == (q + 1) * st + (q + 1);
    assert (q + 1) * (st + 1) <= (q + 2) * st;
    MulMono(bt + 1, (q + 2) * st, p, p);
    Associate(q + 2, st, p);
    MulMono(q + 2, q + 2, st * p, sv);
  }

  /** Ten times a normalised divisor has no more words than the divisor. */
  lemma TenTimesFits(s: seq<Word>)
    requires |s| > 0 && s[|s| - 1] < 0x1000_0000
    ensures 10 * Value(s) < PowB(|s|)
  {
    ValueTop(s);
    MulMono(s[|s| - 1] + 1, 0x1000_0000, PowB(|s| - 1), PowB(|s| - 1));
  }

  lemma SameLength(b: seq<Word>, s: seq<Word>)
    requires |b| >= |s| > 0 && s[|s| - 1] < 0x1000_0000 && Value(b) < 10 * Value(s) && (|b| <= 1 || b[|b| - 1] != 0)
    ensures |b| == |s|
  {
    if |b| > |s| {
      TenTimesFits(s);
      ValueTop(b);
      PowBMono(|s|, |b| - 1);
      MulMono(1, b[|b| - 1], PowB(|b| - 1), PowB(|b| - 1));
    }
  }

  /** q times s is subtracted from b, which is at least that, and leading zero words are dropped. */
  method SubtractTimes(b: Bigint, s: Bigint, q: Word)
    requires b.Valid() && s.Valid() && b.x != s.x && b.wds == s.wds >= 1
    requires q * s.Val() <= b.Val()
    modifies b, b.x
    ensures b.Valid() && b.Val() == old(b.Val()) - q * s.Val()
    ensures b.Normal() && b.wds <= s.wds && (b.wds == 0 ==> s.wds == 1 && b.x[0] == 0)
  {
    hide Value, PowB, Pow2;
    var n := s.wds;
    var carry, borrow := SubMulWords(b.x, s.x, n, q);
    ValueBound(b.x[..n]);
    NoBorrow(Value(b.x[..n]), old(b.Val()), q * s.Val(), carry + borrow, PowB(n));
    if b.x[n - 1] == 0 {
      var wds := TrimWords(b.x, n, if n == 1 then 0 else 1);
      b.wds := wds;
    }
  }

  /** What `quorem` returns and leaves are the floor quotient and the remainder. */
  lemma QuotientIsFloor(bv: nat, sv: nat, q: nat, rest: nat)
    requires bv == q * sv + rest && rest < sv
    ensures q == bv / sv && rest == bv % sv
  {
    DivModUnique(bv, sv, q, rest);
  }

  /** The estimate from the leading words of two numbers of the same length. */
  lemma Estimate(b: seq<Word>, s: seq<Word>, q: nat)
    requires |b| == |s| > 0 && 0x800_0000 <= s[|s| - 1] < 0x1000_0000 && Value(b) < 10 * Value(s)
    requires q == WordDiv(b[|b| - 1], s[|s| - 1] + 1)
    ensures q <= 9 && q * Value(s) <= Value(b) < (q + 2) * Value(s)
  {
    hide Value, PowB;
    ValueTop(b);
    ValueTop(s);
    var p := PowB(|s| - 1);
    EstimateLow(Value(b), Value(s), b[|b| - 1], s[|s| - 1], p, q);
    SmallQuotient(Value(b), Value(s), q);
    EstimateHigh(Value(b), Value(s), b[|b| - 1], s[|s| - 1], p, q);
  }

  /** The correction: what is left after subtracting q times s is less than twice s. */
  method Correct(b: Bigint, s: Bigint, q0: nat) returns (q: nat)
    requires b.Valid() && b.Normal() && Normalised(s) && b != s && b.x != s.x && b.wds <= s.wds
    requires b.Val() < 2 * s.Val() && (b.wds == 0 ==> b.x[0] == 0)
    modifies b, b.x
    ensures b.Valid() && b.Normal() && b.Val() < s.Val() && (b.wds == 0 ==> b.x[0] == 0)
    ensures if q == q0 then b.Val() == old(b.Val()) else q == q0 + 1 && b.Val() == old(b.Val()) - s.Val()
  {
    hide Value, PowB, Pow2;
    var c := Cmp(b, s);
    q := q0;
    if c >= 0 {
      LengthOfGreater(b.x[..b.wds], s.x[..s.wds]);
      SubtractTimes(b, s, 1);
      q := q + 1;
    }
  }

  lemma AfterEstimate(bv: int, sv: int, q: int, rest: int)
    requires q * sv <= bv < (q + 2) * sv && rest == bv - q * sv
    ensures 0 <= rest < 2 * sv && bv == (q + 1) * sv + (rest - sv) && bv == q * sv + rest
  {
    Distribute(q, 2, sv);
    Distribute(q, 1, sv);
  }

  /** `quorem`: returns the quotient of b by s, below ten, and leaves the remainder in b. */
  method QuoRem(b: Bigint, s: Bigint) returns (q: nat)
    requires b.Valid() && b.Normal() && b.wds >= 1 && Normalised(s) && b != s && b.x != s.x
    requires b.Val() < 10 * s.Val()
    modifies b, b.x
    ensures b.Valid() && b.Normal() && (b.wds == 0 ==> b.x[0] == 0)
    ensures q <= 9 && old(b.Val()) == q * s.Val() + b.Val() && b.Val() < s.Val()
  {
    hide Value, PowB, Pow2;
    ghost var bv, sv := b.Val(), s.Val();
    var n := s.wds;
    PositiveTop(s.x[..n]);
    if b.wds < n {
      ValueLonger(s.x[..n], b.x[..b.wds]);
      return 0;
    }
    SameLength(b.x[..b.wds], s.x[..n]);
    var q0 := WordDiv(b.x[n - 1], s.x[n - 1] + 1);
    Estimate(b.x[..n], s.x[..n], q0);
    if q0 != 0 {
      SubtractTimes(b, s, q0);
    }
    AfterEstimate(bv, sv, q0, b.Val());
    q := Correct(b, s, q0);
    SmallQuotient(bv, sv, q);
  }

  lemma PositiveTop(s: seq<Word>)
    requires |s| > 0 && s[|s| - 1] > 0
    ensures Value(s) > 0
  {
    ValueTop(s);
    MulMono(1, s[|s| - 1], PowB(|s| - 1), PowB(|s| - 1));
  }

  lemma SmallQuotient(bv: nat, sv: nat, q: nat)
    requires q * sv <= bv < 10 * sv
    ensures q <= 9
  {
    if q >= 10 { MulMono(10, q, sv, sv); }
  }

  lemma LengthOfGreater(b: seq<Word>, s: seq<Word>)
    requires 1 <= |s| && s[|s| - 1] != 0 && Value(b) >= Value(s)
    ensures |b| >= |s|
  {
    if |b| < |s| { ValueLonger(s, b); }
  }
}

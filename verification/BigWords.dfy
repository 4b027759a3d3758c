/** Numbers as little-endian sequences of 32-bit words. */
module BigWords {
  import opened Bits

  const B: nat := 0x1_0000_0000

  type Word = w: nat | w < 0x1_0000_0000

  /** The weight of word n. */
  function PowB(n: nat): (p: nat)
    ensures p > 0
  {
    if n == 0 then 1 else B * PowB(n - 1)
  }

  ghost function Value(s: seq<Word>): nat
  {
    if |s| == 0 then 0 else Value(s[..|s| - 1]) + s[|s| - 1] * PowB(|s| - 1)
  }

  // ---- Products and sums of products ----

  lemma Distribute(a: int, b: int, p: int)
    ensures (a + b) * p == a * p + b * p
  {
  }

  lemma Commute(a: int, b: int)
    ensures a * b == b * a
  {
  }

  lemma Associate(a: int, b: int, c: int)
    ensures a * b * c == a * (b * c)
  {
  }

  lemma MulMono(a: int, b: int, c: int, d: int)
    requires 0 <= a <= b && 0 <= c <= d
    ensures 0 <= a * c <= b * d
  {
    assert a * c <= a * d;
    assert a * d <= b * d;
  }

  lemma MulStrict(a: int, b: int, c: int)
    requires a < b && c > 0
    ensures a * c < b * c
  {
    Distribute(a, b - a, c);
    MulMono(1, b - a, c, c);
  }

  /** A word product plus two words fits in 64 bits. */
  lemma ProductFits(x: Word, y: Word, c: Word, d: Word)
    ensures x * y + c + d < B * B
  {
    MulMono(x, B - 1, y, B - 1);
  }

  /** The two words of a 64-bit number. */
  lemma Split64(y: nat)
    requires y < B * B
    ensures y % B + (y / B) * B == y && 0 <= y % B < B && 0 <= y / B < B
  {
  }

  // ---- Values ----

  lemma ValueAppend(s: seq<Word>, w: Word)
    ensures Value(s + [w]) == Value(s) + w * PowB(|s|)
  {
    assert (s + [w])[..|s|] == s;
  }

  lemma {:induction false} ValueBound(s: seq<Word>)
    ensures Value(s) < PowB(|s|)
  {
    if |s| > 0 {
      var n := |s| - 1;
      ValueBound(s[..n]);
      MulMono(s[n], B - 1, PowB(n), PowB(n));
      Distribute(B - 1, 1, PowB(n));
    }
  }

  lemma PositiveWords(s: seq<Word>)
    requires Value(s) > 0
    ensures |s| >= 1
  {
  }

  /** A leading word of a value gives its size. */
  lemma ValueTop(s: seq<Word>)
    requires |s| > 0
    ensures s[|s| - 1] * PowB(|s| - 1) <= Value(s) < (s[|s| - 1] + 1) * PowB(|s| - 1)
  {
    var n := |s| - 1;
    ValueBound(s[..n]);
    Distribute(s[n], 1, PowB(n));
  }

  lemma {:induction false} PowBMono(m: nat, n: nat)
    requires m <= n
    ensures PowB(m) <= PowB(n)
    decreases n
  {
    if m < n { PowBMono(m, n - 1); }
  }

  lemma {:induction false} PowBAdd(m: nat, n: nat)
    ensures PowB(m + n) == PowB(m) * PowB(n)
    decreases n
  {
    if n > 0 {
      PowBAdd(m, n - 1);
      Associate(PowB(m), B, PowB(n - 1));
      Associate(B, PowB(m), PowB(n - 1));
    }
  }

  /** Zero words at the top do not count. */
  lemma {:induction false} ValueTrim(s: seq<Word>, n: nat)
    requires n <= |s| && forall i :: n <= i < |s| ==> s[i] == 0
    ensures Value(s) == Value(s[..n])
    decreases |s|
  {
    if n < |s| {
      ValueTrim(s[..|s| - 1], n);
      assert s[..|s| - 1][..n] == s[..n];
    } else {
      assert s[..n] == s;
    }
  }

  /** A longer number without leading zero word is the greater one. */
  lemma ValueLonger(a: seq<Word>, b: seq<Word>)
    requires |a| > |b| && a[|a| - 1] != 0
    ensures Value(a) > Value(b)
  {
    ValueTop(a);
    ValueBound(b);
    PowBMono(|b|, |a| - 1);
    MulMono(1, a[|a| - 1], PowB(|a| - 1), PowB(|a| - 1));
  }

  /** Where two numbers first differ, from the top, decides the order. */
  lemma {:induction false} ValueDecide(a: seq<Word>, b: seq<Word>, i: nat)
    requires |a| == |b| && i < |a| && a[i] < b[i] && forall j :: i < j < |a| ==> a[j] == b[j]
    ensures Value(a) < Value(b)
    decreases |a|
  {
    var n := |a| - 1;
    if i == n {
      ValueTop(a);
      ValueTop(b);
      MulMono(a[n] + 1, b[n], PowB(n), PowB(n));
    } else {
      ValueDecide(a[..n], b[..n], i);
    }
  }

  lemma {:induction false} ValueSplit(s: seq<Word>, off: nat)
    requires off <= |s|
    ensures Value(s) == Value(s[..off]) + Value(s[off..]) * PowB(off)
    decreases |s|
  {
    if off == |s| {
      assert s[..off] == s;
    } else {
      var n := |s| - 1;
      ValueSplit(s[..n], off);
      assert s[..n][..off] == s[..off] && s[..n][off..] == s[off..][..n - off];
      PowBAdd(n - off, off);
      Associate(s[n], PowB(n - off), PowB(off));
      Distribute(Value(s[off..n]), s[n] * PowB(n - off), PowB(off));
    }
  }

  /** The first j + n words as the first j words and the n words after them. */
  lemma SplitAt(s: seq<Word>, j: nat, n: nat)
    requires j + n <= |s|
    ensures Value(s[..j + n]) == Value(s[..j]) + Value(s[j..j + n]) * PowB(j)
  {
    var t := s[..j + n];
    ValueSplit(t, j);
    assert t[..j] == s[..j];
    assert t[j..] == s[j..j + n];
  }

  lemma DivBounds(x: nat, d: nat)
    requires d > 0
    ensures 0 <= x / d <= x && (x / d) * d <= x < (x / d + 1) * d
  {
    var q, r := x / d, x % d;
    assert x == d * q + r;
    Distribute(q, 1, d);
    if q < 0 {
      MulAtLeast(d, q);
      assert false;
    }
    MulMono(q, q, 1, d);
  }

  /** Word division. */
  function WordDiv(x: Word, d: nat): (q: Word)
    requires d > 0
    ensures q * d <= x < (q + 1) * d
  {
    DivBounds(x, d);
    x / d
  }
}

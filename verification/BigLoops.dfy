/** The word loops of the arbitrary-precision arithmetic, on word arrays in place. */
module BigLoops {
  import opened Bits
  import opened BigWords

  /** One step of multiply-and-add: word x times m plus the carry. */
  lemma MulAddStep(vNew: int, lo: int, hi: int, p: int, x: int, m: int, carry: int, vOld: int, a: int)
    requires vNew + carry * p == vOld * m + a && lo + hi * B == x * m + carry
    ensures vNew + lo * p + hi * (B * p) == (vOld + x * p) * m + a
  {
    Distribute(lo, hi * B, p);
    Distribute(x * m, carry, p);
    Associate(hi, B, p);
    Distribute(vOld, x * p, m);
    Associate(x, m, p);
    Associate(x, p, m);
  }

  /** Appending one word on both sides of a slice. */
  lemma SliceValue(s: seq<Word>, i: nat)
    requires i < |s|
    ensures Value(s[..i + 1]) == Value(s[..i]) + s[i] * PowB(i)
  {
    assert s[..i + 1][..i] == s[..i];
  }

  /** Overwriting word i leaves the words on either side of it. */
  lemma StoreWord(s: seq<Word>, t: seq<Word>, i: nat, w: Word)
    requires i < |s| && t == s[i := w]
    ensures Value(t[..i + 1]) == Value(s[..i]) + w * PowB(i) && t[i + 1..] == s[i + 1..]
  {
    SliceValue(t, i);
    assert t[..i] == s[..i];
  }

  /** The state of the `multadd` loop after i words: x0 are the words at the start, x those now. */
  ghost predicate MulAddAt(x0: seq<Word>, x: seq<Word>, i: nat, m: Word, a: Word, carry: Word) {
    i <= |x| == |x0| && x[i..] == x0[i..] && Value(x[..i]) + carry * PowB(i) == Value(x0[..i]) * m + a
  }

  lemma MulAddNext(x0: seq<Word>, x: seq<Word>, i: nat, m: Word, a: Word, carry: Word, lo: Word, hi: Word)
    requires MulAddAt(x0, x, i, m, a, carry) && i < |x|
    requires lo + hi * B == x[i] * m + carry
    ensures MulAddAt(x0, x[i := lo], i + 1, m, a, hi)
  {
    MulAddStep(Value(x[..i]), lo, hi, PowB(i), x[i], m, carry, Value(x0[..i]), a);
    StoreWord(x, x[i := lo], i, lo);
    SliceValue(x0, i);
    assert x0[i] == x0[i..][0] == x[i];
    assert x0[i + 1..] == x0[i..][1..] == x[i..][1..];
  }

  /** The loop of `multadd`: the first n words are multiplied by m and a is added. */
  method MulAddWords(x: array<Word>, n: nat, m: Word, a: Word) returns (carry: Word)
    requires 1 <= n <= x.Length
    modifies x
    ensures Value(x[..n]) + carry * PowB(n) == old(Value(x[..n])) * m + a
    ensures x[n..] == old(x[n..])
  {
    hide MulAddAt, Value, PowB;
    carry := a;
    ghost var x0 := x[..];
    MulAddStart(x0, m, a);
    var i := 0;
    while i < n
      invariant 0 <= i <= n
      invariant MulAddAt(x0, x[..], i, m, a, carry)
    {
      ProductFits(x[i], m, carry, 0);
      var y := x[i] * m + carry;
      Split64(y);
      MulAddNext(x0, x[..], i, m, a, carry, y % B, y / B);
      carry := y / B;
      x[i] := y % B;
      i := i + 1;
    }
    MulAddDone(x0, x[..], n, m, a, carry);
    assert x[..][..n] == x[..n] && x0[..n] == old(x[..n]);
  }

  lemma MulAddStart(x0: seq<Word>, m: Word, a: Word)
    ensures MulAddAt(x0, x0, 0, m, a, a)
  {
  }

  lemma MulAddDone(x0: seq<Word>, x: seq<Word>, n: nat, m: Word, a: Word, carry: Word)
    requires MulAddAt(x0, x, n, m, a, carry)
    ensures n <= |x| == |x0| && Value(x[..n]) + carry * PowB(n) == Value(x0[..n]) * m + a && x[n..] == x0[n..]
  {
  }

  lemma SubMulStep(vNew: int, vOld: int, vs: int, q: int, p: int, s: int, b: int, carry: int, borrow: int, lo: int,
                   hi: int, borrow': int)
    requires vNew + q * vs == vOld + (carry + borrow) * p
    requires lo + hi * B == s * q + carry
    ensures vNew + (b - lo - borrow + borrow' * B) * p + q * (vs + s * p) == vOld + b * p + (hi + borrow') * (B * p)
  {
    Distribute(lo, hi * B, p);
    Distribute(s * q, carry, p);
    Associate(hi, B, p);
    Associate(borrow', B, p);
    Distribute(hi, borrow', B * p);
    Distribute(carry, borrow, p);
    Distribute(b - lo - borrow, borrow' * B, p);
    Distribute(b - lo, -borrow, p);
    Distribute(b, -lo, p);
    assert q * (vs + s * p) == q * vs + q * (s * p);
    Associate(s, q, p);
    Associate(q, s, p);
  }

  /** The state of the `quorem` loop after i words: b0 are the words at the start, b those now. */
  ghost predicate SubMulAt(b0: seq<Word>, b: seq<Word>, s: seq<Word>, i: nat, q: Word, carry: Word, borrow: nat) {
    i <= |s| && i <= |b| == |b0| && b[i..] == b0[i..] && borrow <= 1 &&
    Value(b[..i]) + q * Value(s[..i]) == Value(b0[..i]) + (carry + borrow) * PowB(i)
  }

  lemma SubMulStart(b: seq<Word>, s: seq<Word>, q: Word)
    ensures SubMulAt(b, b, s, 0, q, 0, 0)
  {
  }

  lemma SubMulNext(b0: seq<Word>, b: seq<Word>, s: seq<Word>, i: nat, q: Word, carry: Word, borrow: nat, lo: Word,
                   hi: Word, y: int)
    requires SubMulAt(b0, b, s, i, q, carry, borrow) && i < |s| && i < |b|
    requires lo + hi * B == s[i] * q + carry && y == b[i] - lo - borrow
    ensures var w := if y < 0 then y + B else y;
      0 <= w < B && SubMulAt(b0, b[i := w], s, i + 1, q, hi, if y < 0 then 1 else 0)
  {
    var w := if y < 0 then y + B else y;
    SubMulStep(Value(b[..i]), Value(b0[..i]), Value(s[..i]), q, PowB(i), s[i], b[i], carry, borrow, lo, hi, if y < 0 then 1 else 0);
    StoreWord(b, b[i := w], i, w);
    SliceValue(b0, i);
    SliceValue(s, i);
    assert b0[i] == b0[i..][0] == b[i];
    assert b0[i + 1..] == b0[i..][1..] == b[i..][1..];
  }

  lemma SubMulDone(b0: seq<Word>, b: seq<Word>, s: seq<Word>, n: nat, q: Word, carry: Word, borrow: nat)
    requires SubMulAt(b0, b, s, n, q, carry, borrow)
    ensures n <= |s| && n <= |b| == |b0| && b[n..] == b0[n..] && borrow <= 1
    ensures Value(b[..n]) + q * Value(s[..n]) == Value(b0[..n]) + (carry + borrow) * PowB(n)
  {
  }

  /** The subtraction loop of `quorem`: q times the first n words of s is subtracted from those of b. */
  method SubMulWords(b: array<Word>, s: array<Word>, n: nat, q: Word) returns (carry: Word, borrow: nat)
    requires 1 <= n <= b.Length && n <= s.Length && b != s
    modifies b
    ensures borrow <= 1
    ensures Value(b[..n]) + q * Value(s[..n]) == old(Value(b[..n])) + (carry + borrow) * PowB(n)
    ensures b[n..] == old(b[n..])
  {
    hide SubMulAt, Value, PowB;
    carry, borrow := 0, 0;
    ghost var b0 := b[..];
    SubMulStart(b0, s[..], q);
    var i := 0;
    while i < n
      invariant 0 <= i <= n
      invariant SubMulAt(b0, b[..], s[..], i, q, carry, borrow)
    {
      ProductFits(s[i], q, carry, 0);
      var ys := s[i] * q + carry;
      Split64(ys);
      var y := b[i] - ys % B - borrow;
      SubMulNext(b0, b[..], s[..], i, q, carry, borrow, ys % B, ys / B, y);
      carry := ys / B;
      borrow := if y < 0 then 1 else 0;
      b[i] := if y < 0 then y + B else y;
      i := i + 1;
    }
    SubMulDone(b0, b[..], s[..], n, q, carry, borrow);
    assert b[..][..n] == b[..n] && b0[..n] == old(b[..n]) && s[..][..n] == s[..n];
  }

  /** When nothing was to be borrowed at the top, the loop left the exact difference. */
  lemma NoBorrow(vNew: nat, vOld: nat, qs: nat, c: nat, p: nat)
    requires vNew + qs == vOld + c * p && vNew < p && qs <= vOld
    ensures c == 0
  {
    if c > 0 { MulMono(1, c, p, p); }
  }

  lemma MulAccStep(vNew: int, lo: int, hi: int, p: int, x: int, y: int, cold: int, carry: int, vOld: int, va: int)
    requires vNew + carry * p == vOld + y * va && lo + hi * B == x * y + cold + carry
    ensures vNew + lo * p + hi * (B * p) == vOld + cold * p + y * (va + x * p)
  {
    Distribute(lo, hi * B, p);
    Distribute(x * y + cold, carry, p);
    Distribute(x * y, cold, p);
    Associate(hi, B, p);
    assert y * (va + x * p) == y * va + y * (x * p);
    Associate(y, x, p);
    Associate(x, y, p);
  }

  lemma OffsetSlice(s: seq<Word>, off: nat, i: nat)
    requires off + i < |s|
    ensures Value(s[off..off + i + 1]) == Value(s[off..off + i]) + s[off + i] * PowB(i)
  {
    hide Value, PowB;
    var t := s[off..];
    SliceValue(t, i);
    assert t[..i] == s[off..off + i];
    assert t[..i + 1] == s[off..off + i + 1];
  }

  /** Overwriting word i, counted from `off`. */
  lemma StoreAt(s: seq<Word>, t: seq<Word>, off: nat, i: nat, w: Word)
    requires off + i < |s| && t == s[off + i := w]
    ensures t[..off] == s[..off] && t[off + i + 1..] == s[off + i + 1..]
    ensures Value(t[off..off + i + 1]) == Value(s[off..off + i]) + w * PowB(i)
  {
    OffsetSlice(t, off, i);
    assert t[off..off + i] == s[off..off + i];
  }

  /** The same words before `off` and from `off + i` on. */
  ghost predicate SameAround(c: seq<Word>, c0: seq<Word>, off: nat, i: nat) {
    off + i <= |c| == |c0| && c[..off] == c0[..off] && c[off + i..] == c0[off + i..]
  }

  lemma AroundNext(c0: seq<Word>, c: seq<Word>, c': seq<Word>, off: nat, i: nat)
    requires SameAround(c, c0, off, i) && off + i < |c| && |c'| == |c|
    requires c'[..off] == c[..off] && c'[off + i + 1..] == c[off + i + 1..]
    ensures SameAround(c', c0, off, i + 1) && c[off + i] == c0[off + i]
  {
    assert c[off + i] == c[off + i..][0] == c0[off + i];
    assert c0[off + i + 1..] == c0[off + i..][1..] == c[off + i..][1..];
  }

  /** The state of the `mult` inner loop after i words. */
  ghost predicate MulAccAt(c0: seq<Word>, c: seq<Word>, a: seq<Word>, off: nat, i: nat, y: Word, carry: Word) {
    i <= |a| && SameAround(c, c0, off, i) &&
    Value(c[off..off + i]) + carry * PowB(i) == Value(c0[off..off + i]) + y * Value(a[..i])
  }

  lemma MulAccStart(c: seq<Word>, a: seq<Word>, off: nat, y: Word)
    requires off <= |c|
    ensures MulAccAt(c, c, a, off, 0, y, 0)
  {
  }

  lemma MulAccNext(c0: seq<Word>, c: seq<Word>, a: seq<Word>, off: nat, i: nat, y: Word, carry: Word, lo: Word,
                   hi: Word)
    requires MulAccAt(c0, c, a, off, i, y, carry) && i < |a| && off + i < |c|
    requires lo + hi * B == a[i] * y + c[off + i] + carry
    ensures MulAccAt(c0, c[off + i := lo], a, off, i + 1, y, hi)
  {
    MulAccStep(Value(c[off..off + i]), lo, hi, PowB(i), a[i], y, c[off + i], carry, Value(c0[off..off + i]), Value(a[..i]));
    var c' := c[off + i := lo];
    StoreAt(c, c', off, i, lo);
    AroundNext(c0, c, c', off, i);
    OffsetSlice(c0, off, i);
    SliceValue(a, i);
  }

  lemma MulAccDone(c0: seq<Word>, c: seq<Word>, a: seq<Word>, off: nat, n: nat, y: Word, carry: Word)
    requires MulAccAt(c0, c, a, off, n, y, carry)
    ensures n <= |a| && off + n <= |c| == |c0| && c[..off] == c0[..off] && c[off + n..] == c0[off + n..]
    ensures Value(c[off..off + n]) + carry * PowB(n) == Value(c0[off..off + n]) + y * Value(a[..n])
  {
  }

  /** The inner loop of `mult`: the product of the words of a with y is added at offset `off`. */
  method MulAccWords(c: array<Word>, off: nat, a: array<Word>, n: nat, y: Word) returns (carry: Word)
    requires 1 <= n <= a.Length && off + n <= c.Length && a != c
    modifies c
    ensures Value(c[off..off + n]) + carry * PowB(n) == old(Value(c[off..off + n])) + y * Value(a[..n])
    ensures c[..off] == old(c[..off]) && c[off + n..] == old(c[off + n..])
  {
    hide MulAccAt, Value, PowB;
    carry := 0;
    ghost var c0 := c[..];
    MulAccStart(c0, a[..], off, y);
    var i := 0;
    while i < n
      invariant 0 <= i <= n
      invariant MulAccAt(c0, c[..], a[..], off, i, y, carry)
    {
      ProductFits(a[i], y, c[off + i], carry);
      var z := a[i] * y + c[off + i] + carry;
      Split64(z);
      MulAccNext(c0, c[..], a[..], off, i, y, carry, z % B, z / B);
      carry := z / B;
      c[off + i] := z % B;
      i := i + 1;
    }
    MulAccDone(c0, c[..], a[..], off, n, y, carry);
    assert c[..][off..off + n] == c[off..off + n] && c0[off..off + n] == old(c[off..off + n]) && a[..][..n] == a[..n];
  }

  lemma Pow2Of32(k: nat)
    requires k <= 32
    ensures Pow2(k) * Pow2(32 - k) == B
  {
    hide Pow2;
    Pow2Add(k, 32 - k);
    Pow2Of8();
    Pow2Add(8, 8);
    Pow2Add(16, 16);
  }

  lemma ShiftWordArith(x: nat, m: nat, r: nat, q: nat, t: nat)
    requires m * r == B && x < B && x == q * r + t && t < r
    ensures x * m == q * B + t * m && t * m + m <= B && q < m
  {
    Distribute(q * r, t, m);
    Associate(q, r, m);
    Commute(r, m);
    MulMono(t + 1, r, m, m);
    Distribute(t, 1, m);
    if q >= m { MulMono(m, q, r, r); }
  }

  /** `x << k | z` and `x >> 32-k` are the two words of x * 2^k + z. */
  lemma ShiftWord(x: Word, k: nat, z: nat)
    requires k <= 32 && z < Pow2(k)
    ensures var lo, hi := (x * Pow2(k)) % B + z, x / Pow2(32 - k);
      lo < B && 0 <= hi < Pow2(k) && lo + hi * B == x * Pow2(k) + z
  {
    hide Pow2;
    var m, r := Pow2(k), Pow2(32 - k);
    Pow2Of32(k);
    DivBounds(x, r);
    var q := x / r;
    var t := x - q * r;
    Distribute(q, 1, r);
    ShiftWordArith(x, m, r, q, t);
    DivModUnique(x * m, B, q, t * m);
  }

  /** The state of the `lshift` loop after i words. */
  ghost predicate ShiftAt(out0: seq<Word>, out: seq<Word>, x: seq<Word>, off: nat, i: nat, k: nat, z: Word) {
    i <= |x| && z < Pow2(k) && SameAround(out, out0, off, i) &&
    Value(out[off..off + i]) + z * PowB(i) == Value(x[..i]) * Pow2(k)
  }

  lemma ShiftStart(out: seq<Word>, x: seq<Word>, off: nat, k: nat)
    requires off <= |out|
    ensures ShiftAt(out, out, x, off, 0, k, 0)
  {
  }

  lemma ShiftNext(out0: seq<Word>, out: seq<Word>, x: seq<Word>, off: nat, i: nat, k: nat, z: Word)
    requires ShiftAt(out0, out, x, off, i, k, z) && i < |x| && off + i < |out| && k <= 31
    ensures var lo, hi := (x[i] * Pow2(k)) % B + z, x[i] / Pow2(32 - k);
      lo < B && 0 <= hi < B && ShiftAt(out0, out[off + i := lo], x, off, i + 1, k, hi)
  {
    ShiftWord(x[i], k, z);
    PowerFits(k);
    var lo, hi := (x[i] * Pow2(k)) % B + z, x[i] / Pow2(32 - k);
    MulAddStep(Value(out[off..off + i]), lo, hi, PowB(i), x[i], Pow2(k), z, Value(x[..i]), 0);
    var out' := out[off + i := lo];
    StoreAt(out, out', off, i, lo);
    AroundNext(out0, out, out', off, i);
    SliceValue(x, i);
  }

  lemma PowerFits(k: nat)
    requires k <= 31
    ensures Pow2(k) <= B
  {
    Pow2Of32(k);
    MulMono(1, Pow2(32 - k), Pow2(k), Pow2(k));
  }

  lemma ShiftDone(out0: seq<Word>, out: seq<Word>, x: seq<Word>, off: nat, n: nat, k: nat, z: Word)
    requires ShiftAt(out0, out, x, off, n, k, z)
    ensures n <= |x| && off + n <= |out| == |out0| && out[..off] == out0[..off] && out[off + n..] == out0[off + n..]
    ensures Value(out[off..off + n]) + z * PowB(n) == Value(x[..n]) * Pow2(k)
  {
  }

  /** The loop of `lshift`: n words shifted left by k bits, to offset off of the new array. */
  method ShiftWords(x: array<Word>, n: nat, out: array<Word>, off: nat, k: nat) returns (z: Word)
    requires 1 <= n <= x.Length && off + n <= out.Length && x != out && k <= 31
    modifies out
    ensures Value(out[off..off + n]) + z * PowB(n) == Value(x[..n]) * Pow2(k)
    ensures out[..off] == old(out[..off]) && out[off + n..] == old(out[off + n..])
  {
    hide ShiftAt, Value, PowB, Pow2;
    z := 0;
    ghost var out0 := out[..];
    ShiftStart(out0, x[..], off, k);
    var i := 0;
    while i < n
      invariant 0 <= i <= n
      invariant ShiftAt(out0, out[..], x[..], off, i, k, z)
    {
      ShiftNext(out0, out[..], x[..], off, i, k, z);
      out[off + i] := (x[i] * Pow2(k)) % B + z;
      z := x[i] / Pow2(32 - k);
      i := i + 1;
    }
    ShiftDone(out0, out[..], x[..], off, n, k, z);
    assert out[..][off..off + n] == out[off..off + n] && x[..][..n] == x[..n];
  }

  lemma DiffStep(vNew: int, vOld: int, vb: int, p: int, a: int, b: int, borrow: int, borrow': int)
    requires vNew + vb == vOld + borrow * p
    ensures vNew + (a - b - borrow + borrow' * B) * p + (vb + b * p) == vOld + a * p + borrow' * (B * p)
  {
    Associate(borrow', B, p);
    Distribute(a - b - borrow, borrow' * B, p);
    Distribute(a - b, -borrow, p);
    Distribute(a, -b, p);
  }

  /** The state of the `diff` loops after i words; the words of b run out first. */
  ghost predicate DiffAt(c: seq<Word>, a: seq<Word>, b: seq<Word>, i: nat, borrow: nat) {
    i <= |c| && i <= |a| && borrow <= 1 &&
    Value(c[..i]) + Value(if i < |b| then b[..i] else b) == Value(a[..i]) + borrow * PowB(i)
  }

  lemma DiffStart(c: seq<Word>, a: seq<Word>, b: seq<Word>)
    ensures DiffAt(c, a, b, 0, 0)
  {
  }

  lemma DiffNext(c: seq<Word>, a: seq<Word>, b: seq<Word>, i: nat, borrow: nat)
    requires DiffAt(c, a, b, i, borrow) && i < |c| && i < |a|
    ensures var y := a[i] - (if i < |b| then b[i] else 0) - borrow;
      var w := if y < 0 then y + B else y;
      0 <= w < B && DiffAt(c[i := w], a, b, i + 1, if y < 0 then 1 else 0)
  {
    var bi := if i < |b| then b[i] else 0;
    var y := a[i] - bi - borrow;
    var w := if y < 0 then y + B else y;
    DiffStep(Value(c[..i]), Value(a[..i]), Value(if i < |b| then b[..i] else b), PowB(i), a[i], bi, borrow, if y < 0 then 1 else 0);
    StoreWord(c, c[i := w], i, w);
    SliceValue(a, i);
    if i < |b| {
      SliceValue(b, i);
      assert i + 1 == |b| ==> b[..i + 1] == b;
    }
  }

  lemma DiffDone(c: seq<Word>, a: seq<Word>, b: seq<Word>, n: nat, borrow: nat)
    requires DiffAt(c, a, b, n, borrow) && |b| <= n
    ensures n <= |c| && n <= |a| && borrow <= 1 && Value(c[..n]) + Value(b) == Value(a[..n]) + borrow * PowB(n)
  {
  }

  /** The two loops of `diff`: the words of b are subtracted from those of the longer a. */
  method DiffWords(a: array<Word>, wa: nat, b: array<Word>, wb: nat, c: array<Word>) returns (borrow: nat)
    requires 1 <= wb <= wa && wb <= b.Length && wa <= a.Length && wa <= c.Length && a != c && b != c
    modifies c
    ensures borrow <= 1
    ensures Value(c[..wa]) + Value(b[..wb]) == Value(a[..wa]) + borrow * PowB(wa)
  {
    hide DiffAt, Value, PowB;
    borrow := 0;
    ghost var bs := b[..wb];
    DiffStart(c[..], a[..], bs);
    var i := 0;
    while i < wb
      invariant 0 <= i <= wb && b[..wb] == bs
      invariant DiffAt(c[..], a[..], bs, i, borrow)
    {
      DiffNext(c[..], a[..], bs, i, borrow);
      var y := a[i] - b[i] - borrow;
      borrow := if y < 0 then 1 else 0;
      c[i] := if y < 0 then y + B else y;
      i := i + 1;
    }
    while i < wa
      invariant wb <= i <= wa && b[..wb] == bs
      invariant DiffAt(c[..], a[..], bs, i, borrow)
    {
      DiffNext(c[..], a[..], bs, i, borrow);
      var y := a[i] - borrow;
      borrow := if y < 0 then 1 else 0;
      c[i] := if y < 0 then y + B else y;
      i := i + 1;
    }
    DiffDone(c[..], a[..], bs, wa, borrow);
    assert c[..][..wa] == c[..wa] && a[..][..wa] == a[..wa];
  }

  lemma SameAbove(a: seq<Word>, b: seq<Word>, i: nat)
    requires i <= |a| == |b| && a[i..] == b[i..]
    ensures forall j :: i <= j < |a| ==> a[j] == b[j]
  {
    assert a == a[..i] + a[i..] && b == b[..i] + b[i..];
  }

  lemma OneMore(a: seq<Word>, b: seq<Word>, i: nat)
    requires i < |a| == |b| && a[i + 1..] == b[i + 1..] && a[i] == b[i]
    ensures a[i..] == b[i..]
  {
    assert a[i..] == [a[i]] + a[i + 1..] && b[i..] == [b[i]] + b[i + 1..];
  }

  /** `cmp` on two numbers of the same length. */
  method CompareWords(a: array<Word>, b: array<Word>, n: nat) returns (c: int)
    requires 1 <= n <= a.Length && n <= b.Length
    ensures c < 0 <==> Value(a[..n]) < Value(b[..n])
    ensures c > 0 <==> Value(a[..n]) > Value(b[..n])
  {
    hide Value;
    var i := n;
    while true
      invariant 1 <= i <= n && a[..n][i..] == b[..n][i..]
      decreases i
    {
      i := i - 1;
      if a[i] != b[i] {
        SameAbove(a[..n], b[..n], i + 1);
        if a[i] < b[i] {
          ValueDecide(a[..n], b[..n], i);
          return -1;
        } else {
          ValueDecide(b[..n], a[..n], i);
          return 1;
        }
      }
      OneMore(a[..n], b[..n], i);
      if i == 0 {
        assert a[..n][0..] == a[..n] && b[..n][0..] == b[..n];
        return 0;
      }
    }
  }

  /** Leading zero words are dropped, from length n down to no less than low. */
  method TrimWords(x: array<Word>, n: nat, low: nat) returns (m: nat)
    requires low <= n <= x.Length
    ensures low <= m <= n && Value(x[..m]) == Value(x[..n]) && (m > low ==> x[m - 1] != 0)
  {
    m := n;
    while m > low && x[m - 1] == 0
      invariant low <= m <= n && forall i :: m <= i < n ==> x[i] == 0
    {
      m := m - 1;
    }
    ValueTrim(x[..n], m);
    assert x[..n][..m] == x[..m];
  }
}

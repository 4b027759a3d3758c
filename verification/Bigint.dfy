/** The arbitrary-precision integers of `dtoa`. */
module Bigints {
  import opened Bits
  import opened BigWords
  import opened BigLoops

  class Bigint {
    const k: nat
    const maxwds: nat
    const x: array<Word>
    var wds: nat
    var sign: bool

    ghost predicate Valid()
      reads this, x
    {
      1 <= maxwds == x.Length <= Pow2(k) && wds <= maxwds
    }

    ghost function Val(): nat
      requires Valid()
      reads this, x
    {
      Value(x[..wds])
    }

    /** No leading zero word; zero has one word or none. */
    ghost predicate Normal()
      requires Valid()
      reads this, x
    {
      wds <= 1 || x[wds - 1] != 0
    }

    /** `Balloc`. */
    constructor (k: nat)
      ensures Valid() && fresh(x) && this.k == k && maxwds == Pow2(k) && wds == 0 && !sign
    {
      this.k, maxwds, wds, sign := k, Pow2(k), 0, false;
      x := new Word[Pow2(k)];
    }

    /** A constant with the given words, as the entries of the `p5_a` table. */
    constructor Of(k: nat, words: seq<Word>)
      requires 1 <= |words| <= Pow2(k)
      ensures Valid() && fresh(x) && wds == maxwds == |words| && !sign && x[..] == words && this.k == k
    {
      this.k, maxwds, wds, sign := k, |words|, |words|, false;
      x := new Word[|words|](i requires 0 <= i < |words| => words[i]);
    }
  }

  /** r is a new object, or b itself updated in place. */
  twostate predicate Renewed(b: Bigint, new r: Bigint) {
    r == b || (fresh(r) && fresh(r.x))
  }

  /** `i2b`. */
  method FromInt(i: Word) returns (b: Bigint)
    ensures b.Valid() && fresh(b) && fresh(b.x) && b.Val() == i && b.wds == 1 && b.Normal() && b.x[0] == i
  {
    b := new Bigint(1);
    assert Pow2(1) == 2;
    b.x[0] := i;
    b.wds := 1;
    assert b.x[..1] == [i];
    assert Value([]) == 0 && Value([i]) == i by { ValueAppend([], i); assert [] + [i] == [i]; }
  }

  /** `Bcopy`: sign and words of b, into an object with room for them. */
  method Copy(b: Bigint, k: nat) returns (r: Bigint)
    requires b.Valid() && b.wds <= Pow2(k)
    ensures r.Valid() && fresh(r) && fresh(r.x) && r.k == k && r.maxwds == Pow2(k)
    ensures r.wds == b.wds && r.sign == b.sign && r.x[..r.wds] == b.x[..b.wds]
  {
    r := new Bigint(k);
    r.wds, r.sign := b.wds, b.sign;
    forall i | 0 <= i < b.wds { r.x[i] := b.x[i]; }
  }

  /** `multadd`: b * m + a, in place unless a word more is needed than there is room for. */
  method MultAdd(b: Bigint, m: Word, a: Word) returns (r: Bigint)
    requires b.Valid() && b.wds >= 1
    modifies b, b.x
    ensures r.Valid() && Renewed(b, r)
    ensures r.Val() == old(b.Val()) * m + a
    ensures r.wds >= 1 && (old(b.Normal()) && m > 0 ==> r.Normal())
    ensures r.sign == old(b.sign)
  {
    hide Value, PowB;
    var wds := b.wds;
    ghost var v0, top := b.Val(), b.x[wds - 1];
    var carry := MulAddWords(b.x, wds, m, a);
    r := b;
    if carry != 0 {
      if wds >= b.maxwds {
        assert Pow2(b.k + 1) == 2 * Pow2(b.k);
        r := Copy(b, b.k + 1);
      }
      r.x[wds] := carry;
      r.wds := wds + 1;
      SliceValue(r.x[..], wds);
      assert r.x[..][..wds] == b.x[..wds] && r.x[..][..wds + 1] == r.x[..wds + 1];
    } else if wds > 1 && m > 0 && top != 0 {
      TopStays(old(b.x[..wds]), b.x[..wds], m, a);
    }
  }

  /** Without carry the leading word of a product does not become zero. */
  lemma TopStays(s: seq<Word>, t: seq<Word>, m: nat, a: nat)
    requires |s| == |t| > 0 && s[|s| - 1] != 0 && m > 0 && Value(t) == Value(s) * m + a
    ensures t[|t| - 1] != 0
  {
    ValueTop(s);
    ValueTop(t);
    var p := PowB(|s| - 1);
    MulMono(1, s[|s| - 1], p, p);
    MulMono(Value(s), Value(s), 1, m);
  }

  lemma MultArith(low: int, mid: int, mid': int, p: int, va: int, vb: int, y: int)
    requires low + mid * p == va * vb && mid' == mid + y * va
    ensures low + mid' * p == va * (vb + y * p)
  {
    Distribute(mid, y * va, p);
    Associate(y, va, p);
    Associate(y, p, va);
    Distribute(vb, y * p, va);
  }

  lemma MultStep(c: seq<Word>, c': seq<Word>, a: seq<Word>, b: seq<Word>, j: nat)
    requires j < |b| && |c| == |c'| && |a| + |b| <= |c|
    requires Value(c[..j + |a|]) == Value(a) * Value(b[..j])
    requires c'[..j] == c[..j]
    requires Value(c'[j..j + |a| + 1]) == Value(c[j..j + |a|]) + b[j] * Value(a)
    ensures Value(c'[..j + |a| + 1]) == Value(a) * Value(b[..j + 1])
  {
    hide Value, PowB;
    SplitAt(c, j, |a|);
    SplitAt(c', j, |a| + 1);
    SliceValue(b, j);
    MultArith(Value(c[..j]), Value(c[j..j + |a|]), Value(c'[j..j + |a| + 1]), PowB(j), Value(a), Value(b[..j]), b[j]);
  }

  /** The loops of `mult`, for a with at least as many words as b. */
  method MultWords(a: array<Word>, wa: nat, b: array<Word>, wb: nat, c: array<Word>)
    requires wb <= wa <= a.Length && wb <= b.Length && wa + wb <= c.Length && a != c && b != c
    modifies c
    ensures Value(c[..wb + wa]) == Value(a[..wa]) * Value(b[..wb])
  {
    hide Value, PowB;
    for i := 0 to wa + wb
      invariant forall l :: 0 <= l < i ==> c[l] == 0
    {
      c[i] := 0;
    }
    ghost var a0, b0 := a[..wa], b[..wb];
    ZeroWords(c[..0 + wa]);
    ZeroWords(b0[..0]);
    var j := 0;
    while j < wb
      invariant 0 <= j <= wb && a[..wa] == a0 && b[..wb] == b0
      invariant Value(c[..j + wa]) == Value(a0) * Value(b0[..j])
      invariant forall l :: j + wa <= l < wa + wb ==> c[l] == 0
    {
      MultRow(c, j, a, wa, b[j], a0, b0);
      j := j + 1;
    }
    assert b0[..wb] == b0;
  }

  /** One turn of the outer loop of `mult`. */
  method MultRow(c: array<Word>, j: nat, a: array<Word>, wa: nat, y: Word, ghost a0: seq<Word>, ghost b0: seq<Word>)
    requires j < |b0| <= wa <= a.Length && wa + |b0| <= c.Length && a != c && a0 == a[..wa] && y == b0[j]
    requires Value(c[..j + wa]) == Value(a0) * Value(b0[..j]) && c[j + wa] == 0
    modifies c
    ensures Value(c[..j + wa + 1]) == Value(a0) * Value(b0[..j + 1])
    ensures c[j + wa + 1..] == old(c[j + wa + 1..])
  {
    hide Value, PowB;
    ghost var before := c[..];
    if y != 0 {
      var carry := MulAccWords(c, j, a, wa, y);
      ghost var mid := c[..];
      c[j + wa] := carry;
      assert c[..j] == before[..j] && c[j..j + wa] == mid[j..j + wa];
    }
    OffsetSlice(c[..], j, wa);
    assert c[..][j..j + wa] == c[j..j + wa];
    assert before[..j + wa] == before[..][..j + wa];
    MultStep(before, c[..], a0, b0, j);
    assert c[..][..j + wa + 1] == c[..j + wa + 1];
  }

  lemma Pow2Next(k: nat)
    ensures Pow2(k + 1) == 2 * Pow2(k)
  {
  }

  /** `mult` after the operands are ordered by length. */
  method MultLonger(a: Bigint, b: Bigint) returns (c: Bigint)
    requires a.Valid() && b.Valid() && b.wds <= a.wds
    ensures c.Valid() && fresh(c) && fresh(c.x) && !c.sign
    ensures c.Val() == a.Val() * b.Val()
    ensures c.wds == 0 || c.x[c.wds - 1] != 0
  {
    var k := a.k;
    var wc := a.wds + b.wds;
    if wc > a.maxwds {
      k := k + 1;
    }
    Pow2Next(a.k);
    c := new Bigint(k);
    MultWords(a.x, a.wds, b.x, b.wds, c.x);
    var wds := TrimWords(c.x, wc, 0);
    c.wds := wds;
  }

  /** `mult`: the product, in a new object that always has room for it. */
  method Mult(a: Bigint, b: Bigint) returns (c: Bigint)
    requires a.Valid() && b.Valid()
    ensures c.Valid() && fresh(c) && fresh(c.x) && !c.sign
    ensures c.Val() == a.Val() * b.Val()
    ensures c.wds == 0 || c.x[c.wds - 1] != 0
  {
    if a.wds < b.wds {
      c := MultLonger(b, a);
    } else {
      c := MultLonger(a, b);
    }
  }

  /** `cmp`: negative, zero or positive. The source compares lengths first, so a number without
      words counts as less than a one-word zero, and two of them must not be compared. */
  method Cmp(a: Bigint, b: Bigint) returns (c: int)
    requires a.Valid() && b.Valid() && a.Normal() && b.Normal() && (a.wds >= 1 || b.wds >= 1)
    ensures a.Val() < b.Val() ==> c < 0
    ensures a.Val() > b.Val() ==> c > 0
    ensures a.Val() == b.Val() ==> if a.wds < b.wds then c < 0 else if a.wds > b.wds then c > 0 else c == 0
    ensures a.Val() == b.Val() && a.wds != b.wds ==> a.Val() == 0
  {
    c := a.wds - b.wds;
    if c != 0 {
      if c > 0 && a.x[a.wds - 1] != 0 {
        ValueLonger(a.x[..a.wds], b.x[..b.wds]);
      } else if c < 0 && b.x[b.wds - 1] != 0 {
        ValueLonger(b.x[..b.wds], a.x[..a.wds]);
      } else {
        ZeroWord(a.x[..a.wds]);
        ZeroWord(b.x[..b.wds]);
      }
    } else {
      c := CompareWords(a.x, b.x, a.wds);
    }
  }

  lemma ZeroWord(s: seq<Word>)
    requires |s| == 0 || (|s| == 1 && s[0] == 0)
    ensures Value(s) == 0
  {
    ValueTrim(s, 0);
  }

  /** `diff` once the operands are ordered. */
  method DiffGreater(a: Bigint, b: Bigint, sign: bool) returns (c: Bigint)
    requires a.Valid() && b.Valid() && b.Normal() && a.wds >= 1 && b.wds >= 1 && a.Val() > b.Val()
    ensures c.Valid() && fresh(c) && fresh(c.x) && c.Normal() && c.wds >= 1 && c.sign == sign
    ensures c.Val() == a.Val() - b.Val()
  {
    hide Value, PowB, Pow2;
    c := new Bigint(a.k);
    c.sign := sign;
    LongerOfUnequal(a.x[..a.wds], b.x[..b.wds]);
    var borrow := DiffWords(a.x, a.wds, b.x, b.wds, c.x);
    ValueBound(c.x[..a.wds]);
    NoBorrow(Value(c.x[..a.wds]), Value(a.x[..a.wds]), Value(b.x[..b.wds]), borrow, PowB(a.wds));
    var wds := TrimWords(c.x, a.wds, 0);
    PositiveWords(c.x[..wds]);
    c.wds := wds;
  }

  /** `diff`: |a - b|, with the sign set when b is the greater. */
  method Diff(a: Bigint, b: Bigint) returns (c: Bigint)
    requires a.Valid() && b.Valid() && a.Normal() && b.Normal() && a.wds >= 1 && b.wds >= 1
    ensures c.Valid() && fresh(c) && fresh(c.x) && c.Normal() && c.wds >= 1
    ensures c.sign <==> a.Val() < b.Val()
    ensures c.Val() == if c.sign then b.Val() - a.Val() else a.Val() - b.Val()
  {
    hide Value, PowB;
    ZeroLength(a.x[..a.wds]);
    ZeroLength(b.x[..b.wds]);
    var i := Cmp(a, b);
    if i == 0 {
      c := new Bigint(0);
      c.wds := 1;
      c.x[0] := 0;
      ZeroWord(c.x[..1]);
    } else if i < 0 {
      c := DiffGreater(b, a, true);
    } else {
      c := DiffGreater(a, b, false);
    }
  }

  /** Zero without leading zero words has one word. */
  lemma ZeroLength(s: seq<Word>)
    requires |s| >= 1 && (|s| <= 1 || s[|s| - 1] != 0)
    ensures Value(s) == 0 ==> |s| == 1
  {
    if |s| > 1 {
      ValueTop(s);
      MulMono(1, s[|s| - 1], 1, PowB(|s| - 1));
    }
  }

  lemma LongerOfUnequal(a: seq<Word>, b: seq<Word>)
    requires |a| >= 1 && |b| >= 1 && Value(a) > Value(b) && (|b| <= 1 || b[|b| - 1] != 0)
    ensures |a| >= |b|
  {
    if |a| < |b| { ValueLonger(b, a); }
  }

  lemma {:induction false} Pow2Words(n: nat)
    ensures Pow2(32 * n) == PowB(n)
  {
    if n > 0 {
      Pow2Words(n - 1);
      Pow2Add(32 * (n - 1), 32);
      Pow2Of32(32);
    }
  }

  lemma ShiftArith(mid: int, z: int, pb: int, p: int, vb: int, m: int)
    requires mid + z * pb == vb * m
    ensures (mid + z * pb) * p == vb * (p * m)
  {
    Associate(vb, m, p);
  }

  lemma ZeroWords(s: seq<Word>)
    requires forall i :: 0 <= i < |s| ==> s[i] == 0
    ensures Value(s) == 0
  {
    ValueTrim(s, 0);
  }

  /** n zero words, the shifted words and the word shifted out. */
  lemma ShiftedValue(b: seq<Word>, r: seq<Word>, n: nat, m: nat, z: Word)
    requires n + |b| < |r| && (forall h :: 0 <= h < n ==> r[h] == 0) && r[n + |b|] == z
    requires Value(r[n..n + |b|]) + z * PowB(|b|) == Value(b) * m
    ensures Value(r[..n + |b| + 1]) == Value(b) * (PowB(n) * m)
  {
    hide Value, PowB;
    var w := |b|;
    var vm, pw, pn := Value(r[n..n + w]), PowB(w), PowB(n);
    assert Value(r[n..n + w + 1]) == vm + z * pw by { OffsetSlice(r, n, w); }
    assert Value(r[..n + (w + 1)]) == Value(r[n..n + (w + 1)]) * pn by {
      SplitAt(r, n, w + 1);
      ZeroWords(r[..n]);
    }
    ShiftArith(vm, z, pw, pn, Value(b), m);
  }

  lemma ShiftedWords(b: seq<Word>, r: seq<Word>, n: nat, m: nat, f: nat, z: Word)
    requires n + |b| < |r| && (forall h :: 0 <= h < n ==> r[h] == 0) && r[n + |b|] == z && f == PowB(n) * m
    requires Value(r[n..n + |b|]) + z * PowB(|b|) == Value(b) * m
    ensures Value(r[..n + |b| + 1]) == Value(b) * f
    ensures z == 0 ==> Value(r[..n + |b|]) == Value(b) * f
  {
    hide Value, PowB;
    ShiftedValue(b, r, n, m, z);
    SliceValue(r, n + |b|);
  }

  /** Shifting left keeps a leading word that is not zero. */
  lemma ShiftedTop(b: seq<Word>, r: seq<Word>, n: nat, f: nat)
    requires |b| > 0 && |r| == n + |b| && b[|b| - 1] != 0 && f >= PowB(n) && Value(r) == Value(b) * f
    ensures r[|r| - 1] != 0
  {
    ValueTop(b);
    ValueTop(r);
    var p := PowB(|b| - 1);
    PowBAdd(|b| - 1, n);
    MulMono(1, b[|b| - 1], p, p);
    MulMono(p, Value(b), PowB(n), f);
  }

  /** The room `lshift` asks for. */
  method ShiftRoom(k: nat, maxwds: nat, n1: nat) returns (k1: nat)
    requires 1 <= maxwds <= Pow2(k)
    ensures n1 <= Pow2(k1)
  {
    k1 := k;
    var i := maxwds;
    while n1 > i
      invariant 1 <= i <= Pow2(k1)
      decreases n1 - i
    {
      Pow2Next(k1);
      i := i * 2;
      k1 := k1 + 1;
    }
  }

  lemma ShiftFactor(k: nat)
    ensures Pow2(k) == PowB(k / 32) * Pow2(k % 32)
  {
    Pow2Add(32 * (k / 32), k % 32);
    Pow2Words(k / 32);
  }

  lemma ShiftAtLeast(k: nat)
    ensures Pow2(k) >= PowB(k / 32)
  {
    ShiftFactor(k);
    MulMono(PowB(k / 32), PowB(k / 32), 1, Pow2(k % 32));
  }

  /** `lshift`: b * 2^k, in a new object that always has room for it. */
  method LShift(b: Bigint, k: nat) returns (r: Bigint)
    requires b.Valid() && b.wds >= 1
    ensures r.Valid() && fresh(r) && fresh(r.x) && r.wds >= 1 && !r.sign
    ensures r.Val() == b.Val() * Pow2(k)
    ensures b.x[b.wds - 1] != 0 ==> r.x[r.wds - 1] != 0
  {
    hide Value, PowB, Pow2;
    var n := k / 32;
    var n1 := n + b.wds + 1;
    var k1 := ShiftRoom(b.k, b.maxwds, n1);
    r := new Bigint(k1);
    for l := 0 to n
      modifies r.x
      invariant forall h :: 0 <= h < l ==> r.x[h] == 0
    {
      r.x[l] := 0;
    }
    ghost var zeros := r.x[..n];
    var z := ShiftWords(b.x, b.wds, r.x, n, k % 32);
    ghost var mid := r.x[n..n + b.wds];
    r.x[n + b.wds] := z;
    assert r.x[..n] == zeros && r.x[n..n + b.wds] == mid;
    assert forall h :: 0 <= h < n ==> r.x[..][h] == zeros[h];
    ShiftFactor(k);
    ShiftedWords(b.x[..b.wds], r.x[..], n, Pow2(k % 32), Pow2(k), z);
    r.wds := if z != 0 then n1 else n1 - 1;
    assert r.x[..][..r.wds] == r.x[..r.wds];
    if z == 0 && b.x[b.wds - 1] != 0 {
      ShiftAtLeast(k);
      ShiftedTop(b.x[..b.wds], r.x[..n + b.wds], n, Pow2(k));
    }
  }
}

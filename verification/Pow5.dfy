/** `pow5mult` and its table of powers of five. */
module Pow5s {
  import opened Bits
  import opened BigWords
  import opened Bigints

  function Pow(b: nat, e: nat): nat
  {
    if e == 0 then 1 else b * Pow(b, e - 1)
  }

  lemma {:induction false} PowPositive(b: nat, e: nat)
    requires b > 0
    ensures Pow(b, e) > 0
  {
    if e > 0 {
      PowPositive(b, e - 1);
      MulMono(1, b, 1, Pow(b, e - 1));
    }
  }

  lemma {:induction false} PowAdd(b: nat, m: nat, n: nat)
    ensures Pow(b, m + n) == Pow(b, m) * Pow(b, n)
    decreases n
  {
    if n > 0 {
      PowAdd(b, m, n - 1);
      Associate(Pow(b, m), b, Pow(b, n - 1));
      Associate(b, Pow(b, m), Pow(b, n - 1));
    }
  }

  /** Squaring the base halves the exponent. */
  lemma {:induction false} PowSquare(b: nat, e: nat)
    ensures Pow(b * b, e) == Pow(b, 2 * e)
  {
    if e > 0 {
      PowSquare(b, e - 1);
      assert Pow(b, 2 * e) == b * Pow(b, 2 * e - 1) && Pow(b, 2 * e - 1) == b * Pow(b, 2 * e - 2);
      Associate(b, b, Pow(b, 2 * e - 2));
    }
  }

  // ---- The table ----

  /** The words of `p5_a[i]`. */
  function P5Words(i: nat): (w: seq<Word>)
    requires i <= 6
    ensures |w| == [1, 1, 2, 3, 5, 10, 19][i] && w[|w| - 1] != 0
  {
    match i
    case 0 => [625]
    case 1 => [390625]
    case 2 => [2264035265, 35]
    case 3 => [2242703233, 762134875, 1262]
    case 4 => [3211403009, 1849224548, 3668416493, 3913284084] + [1593091]
    case 5 => [781532673, 64985353, 253049085, 594863151] + ([3553621484, 3288652808, 3167596762, 2788392729] + [3911132675, 590])
    case _ => [2553183233, 3201533787, 3638140786, 303378311] + ([1809731782, 3477761648, 3583367183, 649228654] + ([2915460784, 487929380, 1011012442, 1677677582] + ([3428152256, 1710878487, 1438394610, 2161952759] + [4100910556, 1608314830, 349175])))
  }

  /** Field `k` of `p5_a[i]`. */
  function P5K(i: nat): nat
    requires i <= 6
  {
    [1, 1, 1, 2, 3, 4, 5][i]
  }

  lemma ValueOf1(a: Word)
    ensures Value([a]) == a
  {
    assert [a][..0] == [];
  }

  lemma ValueOf2(a: Word, b: Word)
    ensures Value([a, b]) == a + b * B
  {
    ValueOf1(a);
    assert [a, b] == [a] + [b];
    ValueAppend([a], b);
    assert PowB(1) == B;
  }

  lemma ValueOf3(a: Word, b: Word, c: Word)
    ensures Value([a, b, c]) == a + b * B + c * (B * B)
  {
    ValueOf2(a, b);
    assert [a, b, c] == [a, b] + [c];
    ValueAppend([a, b], c);
    assert PowB(2) == B * B;
  }

  lemma ValueOf4(a: Word, b: Word, c: Word, d: Word)
    ensures Value([a, b, c, d]) == a + b * B + c * (B * B) + d * (B * B * B)
  {
    ValueOf3(a, b, c);
    assert [a, b, c, d] == [a, b, c] + [d];
    ValueAppend([a, b, c], d);
    assert PowB(3) == B * B * B;
  }

  lemma ValueConcat(s: seq<Word>, t: seq<Word>)
    requires |s| == 4
    ensures Value(s + t) == Value(s) + Value(t) * (B * B * B * B)
  {
    ValueSplit(s + t, 4);
    assert (s + t)[..4] == s && (s + t)[4..] == t;
    assert PowB(4) == B * B * B * B;
  }

  const FIVE_4: nat := 625
  const FIVE_8: nat := 390625
  const FIVE_16: nat := 152587890625
  const FIVE_32: nat := 23283064365386962890625
  const FIVE_64: nat := 542101086242752217003726400434970855712890625
  const FIVE_128: nat := 293873587705571876992184134305561419454666389193021880377187926569604314863681793212890625
  const FIVE_256: nat := 86361685550944446253863518628003995711160003644362813850237034701685918031624270579715075034722882265605472939461496635969950989468319466936530037770580747746862471103668212890625

  lemma Entry0()
    ensures Value(P5Words(0)) == FIVE_4
  {
    ValueOf1(625);
  }

  lemma Entry1()
    ensures Value(P5Words(1)) == FIVE_8
  {
    ValueOf1(390625);
  }

  lemma Entry2()
    ensures Value(P5Words(2)) == FIVE_16
  {
    ValueOf2(2264035265, 35);
  }

  lemma Entry3()
    ensures Value(P5Words(3)) == FIVE_32
  {
    ValueOf3(2242703233, 762134875, 1262);
  }

  lemma Entry4()
    ensures Value(P5Words(4)) == FIVE_64
  {
    ValueOf4(3211403009, 1849224548, 3668416493, 3913284084);
    ValueOf1(1593091);
    ValueConcat([3211403009, 1849224548, 3668416493, 3913284084], [1593091]);
  }

  lemma Entry5()
    ensures Value(P5Words(5)) == FIVE_128
  {
    ValueOf4(781532673, 64985353, 253049085, 594863151);
    ValueOf4(3553621484, 3288652808, 3167596762, 2788392729);
    ValueOf2(3911132675, 590);
    ValueConcat([3553621484, 3288652808, 3167596762, 2788392729], [3911132675, 590]);
    ValueConcat([781532673, 64985353, 253049085, 594863151], [3553621484, 3288652808, 3167596762, 2788392729] + [3911132675, 590]);
  }

  lemma Entry6()
    ensures Value(P5Words(6)) == FIVE_256
  {
    ValueOf4(2553183233, 3201533787, 3638140786, 303378311);
    ValueOf4(1809731782, 3477761648, 3583367183, 649228654);
    ValueOf4(2915460784, 487929380, 1011012442, 1677677582);
    ValueOf4(3428152256, 1710878487, 1438394610, 2161952759);
    ValueOf3(4100910556, 1608314830, 349175);
    ValueConcat([3428152256, 1710878487, 1438394610, 2161952759], [4100910556, 1608314830, 349175]);
    ValueConcat([2915460784, 487929380, 1011012442, 1677677582], [3428152256, 1710878487, 1438394610, 2161952759] + [4100910556, 1608314830, 349175]);
    ValueConcat([1809731782, 3477761648, 3583367183, 649228654], [2915460784, 487929380, 1011012442, 1677677582] + ([3428152256, 1710878487, 1438394610, 2161952759] + [4100910556, 1608314830, 349175]));
    ValueConcat([2553183233, 3201533787, 3638140786, 303378311], [1809731782, 3477761648, 3583367183, 649228654] + ([2915460784, 487929380, 1011012442, 1677677582] + ([3428152256, 1710878487, 1438394610, 2161952759] + [4100910556, 1608314830, 349175])));
  }

  lemma {:induction false} FivePowers(i: nat)
    requires i <= 6
    ensures Pow(5, 4 * Pow2(i)) == [FIVE_4, FIVE_8, FIVE_16, FIVE_32, FIVE_64, FIVE_128, FIVE_256][i]
  {
    if i == 0 {
      assert Pow(5, 4) == 625 by { assert Pow(5, 2) == 25; PowAdd(5, 2, 2); }
    } else {
      FivePowers(i - 1);
      var h := 4 * Pow2(i - 1);
      assert 4 * Pow2(i) == h + h;
      PowAdd(5, h, h);
    }
  }

  /** Every entry of the table is the power of five it stands for. */
  lemma P5Table(i: nat)
    requires i <= 6
    ensures Value(P5Words(i)) == Pow(5, 4 * Pow2(i))
  {
    FivePowers(i);
    if i == 0 { Entry0(); }
    else if i == 1 { Entry1(); }
    else if i == 2 { Entry2(); }
    else if i == 3 { Entry3(); }
    else if i == 4 { Entry4(); }
    else if i == 5 { Entry5(); }
    else { Entry6(); }
  }

  lemma PowHalf(p: nat, k: nat)
    ensures Pow(p, k) == (if k % 2 == 1 then p else 1) * Pow(p * p, k / 2)
  {
    PowSquare(p, k / 2);
    if k % 2 == 1 {
      assert k == 2 * (k / 2) + 1;
    } else {
      assert k == 2 * (k / 2);
    }
  }

  lemma LoopStep(b: nat, b': nat, p: nat, k: nat)
    requires b' == if k % 2 == 1 then b * p else b
    ensures b' * Pow(p * p, k / 2) == b * Pow(p, k)
  {
    PowHalf(p, k);
    Associate(b, p, Pow(p * p, k / 2));
  }

  /** The entry `p5_a[i]` of the table. */
  method P5Entry(i: nat) returns (p: Bigint)
    requires i <= 6
    ensures p.Valid() && fresh(p) && fresh(p.x) && p.wds >= 1 && p.Val() == Pow(5, 4 * Pow2(i))
  {
    assert Pow2(1) == 2 && Pow2(2) == 4 && Pow2(3) == 8 && Pow2(4) == 16 && Pow2(5) == 32 by { Pow2Add(2, 3); }
    p := new Bigint.Of(P5K(i), P5Words(i));
    P5Table(i);
    assert p.x[..p.wds] == p.x[..];
  }

  /** The next power: the next table entry while there is one, a square after that. */
  method NextPower(p: Bigint, i: nat, overflow: bool) returns (p': Bigint, i': nat, overflow': bool)
    requires p.Valid() && i <= 6 && (!overflow ==> p.Val() == Pow(5, 4 * Pow2(i)))
    ensures p'.Valid() && fresh(p') && fresh(p'.x) && p'.Val() == p.Val() * p.Val()
    ensures i' <= 6 && (!overflow' ==> p'.Val() == Pow(5, 4 * Pow2(i')))
  {
    i', overflow' := i, overflow;
    if overflow {
      p' := Mult(p, p);
    } else if i < 6 {
      i' := i + 1;
      p' := P5Entry(i');
      NextSquare(i);
    } else {
      p' := Mult(p, p);
      overflow' := true;
    }
  }

  lemma NextSquare(i: nat)
    ensures Pow(5, 4 * Pow2(i + 1)) == Pow(5, 4 * Pow2(i)) * Pow(5, 4 * Pow2(i))
  {
    assert 4 * Pow2(i + 1) == 4 * Pow2(i) + 4 * Pow2(i);
    PowAdd(5, 4 * Pow2(i), 4 * Pow2(i));
  }

  /** The loop of `pow5mult`: b times 625^k. */
  method MultBy625Power(b0: Bigint, k0: nat) returns (b: Bigint)
    requires b0.Valid() && b0.Normal() && k0 > 0
    ensures b.Valid() && b.Normal() && (b == b0 || (fresh(b) && fresh(b.x)))
    ensures b.Val() == b0.Val() * Pow(625, k0)
  {
    hide Value, PowB;
    b := b0;
    var k := k0;
    var p5 := P5Entry(0);
    assert 4 * Pow2(0) == 4 && Pow(5, 4) == 625 by { FivePowers(0); }
    var i, overflow := 0, false;
    while true
      invariant k > 0 && i <= 6
      invariant b.Valid() && b.Normal() && (b == b0 || (fresh(b) && fresh(b.x)))
      invariant p5.Valid() && (!overflow ==> p5.Val() == Pow(5, 4 * Pow2(i)))
      invariant b.Val() * Pow(p5.Val(), k) == b0.Val() * Pow(625, k0)
      decreases k
    {
      ghost var v := b.Val();
      if k % 2 == 1 {
        b := Mult(b, p5);
      }
      LoopStep(v, b.Val(), p5.Val(), k);
      k := k / 2;
      if k == 0 { break; }
      p5, i, overflow := NextPower(p5, i, overflow);
    }
  }

  lemma FactorOut(v: nat, low: nat, k: nat)
    requires low == Pow(5, k % 4)
    ensures v * low * Pow(625, k / 4) == v * Pow(5, k)
  {
    PowOf4(k / 4);
    PowAdd(5, k % 4, 4 * (k / 4));
    Associate(v, low, Pow(625, k / 4));
  }

  lemma {:induction false} PowOf4(e: nat)
    ensures Pow(625, e) == Pow(5, 4 * e)
  {
    if e > 0 {
      PowOf4(e - 1);
      PowAdd(5, 4, 4 * (e - 1));
      assert 4 * Pow2(0) == 4 && Pow(5, 4) == 625 by { FivePowers(0); }
    }
  }

  /** `pow5mult`: b * 5^k for every k, by table while it lasts and by squaring after it. */
  method Pow5Mult(b0: Bigint, k: nat) returns (b: Bigint)
    requires b0.Valid() && b0.Normal() && b0.wds >= 1
    modifies b0, b0.x
    ensures b.Valid() && b.Normal() && (b == b0 || (fresh(b) && fresh(b.x)))
    ensures b.Val() == old(b0.Val()) * Pow(5, k)
  {
    b := b0;
    var i := k % 4;
    assert Pow(5, 0) == 1 && Pow(5, 1) == 5 && Pow(5, 2) == 25;
    assert Pow(5, 3) == 125 by { PowAdd(5, 1, 2); }
    if i != 0 {
      b := MultAdd(b, [5, 25, 125][i - 1], 0);
    }
    FactorOut(old(b0.Val()), Pow(5, i), k);
    if k / 4 != 0 {
      b := MultBy625Power(b, k / 4);
    }
  }
}

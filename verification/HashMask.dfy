/** Bucket numbers: linear hashing over a power-of-two range that is only partly in use. */
module HashMasks {
  import opened Bits

  /** `hash_mask`: reduce modulo buffmax, or modulo half of it when that bucket does not exist yet. */
  function HashMask(hashnr: nat, buffmax: nat, maxlength: nat): (b: nat)
    requires buffmax > 0
  {
    if And(hashnr, buffmax - 1) < maxlength then And(hashnr, buffmax - 1)
    // (0 >> 1) - 1 wraps round to a mask of all ones
    else And(hashnr, if buffmax / 2 == 0 then 0xFFFF_FFFF else buffmax / 2 - 1)
  }

  ghost predicate IsPow2(b: nat) {
    exists k: nat :: b == Pow2(k)
  }

  /** The sizes the table can have: a power of two that is more than `records` and at most twice it. */
  ghost predicate Sized(blength: nat, records: nat) {
    IsPow2(blength) && blength / 2 <= records < blength
  }

  lemma HalfPow2(k: nat)
    requires Pow2(k) >= 2
    ensures k > 0 && Pow2(k) / 2 == Pow2(k - 1) && Pow2(k) == 2 * Pow2(k - 1)
  {
  }

  /** The masked value as remainders. */
  lemma MaskIsMod(h: nat, b: nat, n: nat)
    requires IsPow2(b) && b >= 2 && b / 2 <= n <= b
    ensures HashMask(h, b, n) == if h % b < n then h % b else h % (b / 2)
    ensures HashMask(h, b, n) < n
    ensures b == 2 * (b / 2) && (h % b == h % (b / 2) || h % b == h % (b / 2) + b / 2)
    ensures And(h, b / 2) != 0 <==> h % b >= b / 2
  {
    hide Pow2, And;
    var k: nat :| b == Pow2(k);
    HalfPow2(k);
    AndLowMask(h, k);
    AndLowMask(h, k - 1);
    AndBit(h, k - 1);
    ModDouble(h, b / 2);
  }

  /** Growing the table by one bucket moves exactly the records of one old bucket whose next hash bit is set. */
  lemma GrowMask(h: nat, b: nat, n: nat)
    requires Sized(b, n) && n >= 1
    ensures HashMask(h, b, n + 1) ==
            if HashMask(h, b, n) == n - b / 2 && And(h, b / 2) != 0 then n else HashMask(h, b, n)
  {
    MaskIsMod(h, b, n);
    MaskIsMod(h, b, n + 1);
    GrowStep(h % b, h % (b / 2), b / 2, b, n);
  }

  lemma GrowStep(x: nat, y: nat, half: nat, b: nat, n: nat)
    requires b == 2 * half && half <= n < b && y < half && x < b && (x == y || x == y + half)
    ensures (if x < n + 1 then x else y) ==
            if (if x < n then x else y) == n - half && x >= half then n else if x < n then x else y
  {
  }

  lemma DoublePow2(b: nat)
    requires IsPow2(b)
    ensures IsPow2(2 * b)
    ensures b >= 2 ==> b % 2 == 0 && IsPow2(b / 2)
  {
    var k: nat :| b == Pow2(k);
    assert 2 * b == Pow2(k + 1);
    if b >= 2 {
      assert b == 2 * Pow2(k - 1) && b / 2 == Pow2(k - 1);
    }
  }

  /** Doubling `blength` when the table is full changes no bucket number. */
  lemma DoubleMask(h: nat, b: nat)
    requires IsPow2(b) && b >= 1
    ensures HashMask(h, 2 * b, b) == HashMask(h, b, b)
  {
    DoublePow2(b);
    MaskIsMod(h, 2 * b, b);
    if b == 1 {
      AndLowMask(h, 0);
    } else {
      MaskIsMod(h, b, b);
      assert h % b < b;
    }
  }

  function Halved(blength: nat, records: nat): nat {
    if records < blength / 2 then blength / 2 else blength
  }

  /** Shrinking the table by one bucket sends exactly the records of the last bucket to one other bucket. */
  lemma ShrinkMask(h: nat, b: nat, n: nat)
    requires Sized(b, n) && n >= 2
    ensures var b' := Halved(b, n - 1);
      && Sized(b', n - 1) && b' >= 2
      && 0 <= n - 1 - b' / 2 < n - 1
      && HashMask(h, b', n - 1) ==
           if HashMask(h, b, n) == n - 1 then n - 1 - b' / 2 else HashMask(h, b, n)
  {
    var b' := Halved(b, n - 1);
    DoublePow2(b);
    if b' != b {
      assert n == b' && b == 2 * b';
      DoubleMask(h, b');
    }
    assert HashMask(h, b', n) == HashMask(h, b, n);
    GrowMask(h, b', n - 1);
    MaskIsMod(h, b', n - 1);
  }
}

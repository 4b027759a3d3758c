/** Powers of two and the bitwise `and` of unsigned words, as the C sources use them. */
module Bits {

  function Pow2(k: nat): (p: nat)
    ensures p > 0
  {
    if k == 0 then 1 else 2 * Pow2(k - 1)
  }

  /** Bitwise `x & y` on unsigned integers of any width. */
  function And(x: nat, y: nat): (r: nat)
    ensures r <= x && r <= y
    decreases x
  {
    if x == 0 then 0
    else 2 * And(x / 2, y / 2) + (if x % 2 == 1 && y % 2 == 1 then 1 else 0)
  }

  lemma HalfMod(x: nat, m: nat)
    requires m > 0
    ensures x % (2 * m) == 2 * ((x / 2) % m) + x % 2
  {
    var h := x / 2;
    var q, r := h / m, h % m;
    assert h == m * q + r;
    assert x == 2 * (m * q + r) + x % 2;
    assert 2 * (m * q) == (2 * m) * q;
    DivModUnique(x, 2 * m, q, 2 * r + x % 2);
  }

  lemma MulAtLeast(m: int, k: int)
    requires m >= 0
    ensures k >= 1 ==> m * k >= m
    ensures k <= -1 ==> m * k <= -m
  {
    if k >= 1 {
      assert m * k == m * (k - 1) + m;
    } else if k <= -1 {
      assert m * k == m * (k + 1) - m;
    }
  }

  /** Quotient and remainder are the only pair with the division property. */
  lemma DivModUnique(x: int, m: int, q: int, r: int)
    requires 0 < m && 0 <= r < m && x == m * q + r
    ensures x / m == q && x % m == r
  {
    var q', r' := x / m, x % m;
    var k := q - q';
    assert m * q == m * q' + m * k;
    MulAtLeast(m, k);
  }

  /** Masking with 2^k - 1 is the remainder modulo 2^k. */
  lemma {:induction false} AndLowMask(x: nat, k: nat)
    ensures And(x, Pow2(k) - 1) == x % Pow2(k)
    decreases k
  {
    if k == 0 {
      AndZero(x);
    } else if x == 0 {
    } else {
      var m := Pow2(k - 1);
      assert (2 * m - 1) / 2 == m - 1 && (2 * m - 1) % 2 == 1;
      AndLowMask(x / 2, k - 1);
      HalfMod(x, m);
    }
  }

  lemma {:induction false} AndZero(x: nat)
    ensures And(x, 0) == 0
  {
    if x > 0 { AndZero(x / 2); }
  }

  /** `x & 2^k` is non-zero exactly when the remainder modulo 2^(k+1) has its top bit set. */
  lemma {:induction false} AndBit(x: nat, k: nat)
    ensures And(x, Pow2(k)) != 0 <==> x % Pow2(k + 1) >= Pow2(k)
    decreases k
  {
    if k == 0 {
      if x > 0 { AndZero(x / 2); }
      assert Pow2(1) == 2;
    } else if x == 0 {
    } else {
      var m := Pow2(k - 1);
      assert Pow2(k + 1) == 2 * Pow2(k) && Pow2(k) == 2 * m;
      AndBit(x / 2, k - 1);
      HalfMod(x, Pow2(k));
    }
  }

  /** The remainder modulo 2m is the remainder modulo m, with or without an extra m. */
  lemma ModDouble(x: nat, m: nat)
    requires m > 0
    ensures x % (2 * m) == if x % (2 * m) < m then x % m else x % m + m
  {
    var q, r := x / (2 * m), x % (2 * m);
    assert x == (2 * m) * q + r;
    assert (2 * m) * q == m * (2 * q);
    if r < m {
      DivModUnique(x, m, 2 * q, r);
    } else {
      assert m * (2 * q + 1) == m * (2 * q) + m;
      DivModUnique(x, m, 2 * q + 1, r - m);
    }
  }

  lemma {:induction false} Pow2Add(m: nat, n: nat)
    ensures Pow2(m + n) == Pow2(m) * Pow2(n)
    decreases n
  {
    if n > 0 {
      Pow2Add(m, n - 1);
      DoubleLater(Pow2(m), Pow2(n - 1));
    }
  }

  lemma DoubleLater(p: nat, q: nat)
    ensures p * (2 * q) == 2 * (p * q)
  {
  }

  lemma Pow2Of8()
    ensures Pow2(8) == 256
  {
    assert Pow2(4) == 16;
  }
}

/** The secure hash algorithm SHA-1 as FIPS 180-4 defines it. */
module Sha1Spec {
  type Octet = bv8
  type U32 = bv32

  datatype Regs = Regs(a: U32, b: U32, c: U32, d: U32, e: U32)

  function RotL(x: U32, n: nat): U32
    requires 0 < n < 32
  {
    (x << n) | (x >> (32 - n))
  }

  /** Addition is modulo 2^32. */
  function Plus(x: U32, y: U32): U32 { x + y }

  function Sum(p: U32, q: U32, r: U32, s: U32, u: U32): U32 { p + q + r + s + u }

  // ---- Functions and constants, sections 4.1.1 and 4.2.1 ----

  function Ch(x: U32, y: U32, z: U32): U32 { (x & y) ^ (!x & z) }

  function Parity(x: U32, y: U32, z: U32): U32 { x ^ y ^ z }

  function Maj(x: U32, y: U32, z: U32): U32 { (x & y) ^ (x & z) ^ (y & z) }

  function Mix(t: nat, x: U32, y: U32, z: U32): U32 {
    if t < 20 then Ch(x, y, z) else if t < 40 then Parity(x, y, z) else if t < 60 then Maj(x, y, z) else Parity(x, y, z)
  }

  function K(t: nat): U32 {
    if t < 20 then 0x5a827999 else if t < 40 then 0x6ed9eba1 else if t < 60 then 0x8f1bbcdc else 0xca62c1d6
  }

  const IV: Regs := Regs(0x67452301, 0xefcdab89, 0x98badcfe, 0x10325476, 0xc3d2e1f0)

  // ---- Computation of a block, section 6.1.2 ----

  /** The message schedule of 80 words. */
  function W(m: seq<U32>, t: nat): U32
    requires |m| == 16
  {
    if t < 16 then m[t] else RotL(W(m, t - 3) ^ W(m, t - 8) ^ W(m, t - 14) ^ W(m, t - 16), 1)
  }

  function Step(r: Regs, t: nat, w: U32): Regs {
    Regs(Sum(RotL(r.a, 5), Mix(t, r.b, r.c, r.d), r.e, K(t), w), r.a, RotL(r.b, 30), r.c, r.d)
  }

  /** The working variables after the first t steps. */
  function Steps(h: Regs, m: seq<U32>, t: nat): Regs
    requires |m| == 16
  {
    if t == 0 then h else Step(Steps(h, m, t - 1), t - 1, W(m, t - 1))
  }

  function AddRegs(h: Regs, r: Regs): Regs {
    Regs(Plus(h.a, r.a), Plus(h.b, r.b), Plus(h.c, r.c), Plus(h.d, r.d), Plus(h.e, r.e))
  }

  function BigEndian(s: seq<Octet>): U32
    requires |s| == 4
  {
    ((s[0] as U32) << 24) | ((s[1] as U32) << 16) | ((s[2] as U32) << 8) | (s[3] as U32)
  }

  function WordsOf(block: seq<Octet>): (m: seq<U32>)
    requires |block| == 64
    ensures |m| == 16
  {
    seq(16, i requires 0 <= i < 16 => BigEndian(block[4 * i..4 * i + 4]))
  }

  function Compress(h: Regs, block: seq<Octet>): Regs
    requires |block| == 64
  {
    AddRegs(h, Steps(h, WordsOf(block), 80))
  }

  /** The hash value after all whole blocks of s. */
  function Blocks(h: Regs, s: seq<Octet>): Regs
    decreases |s|
  {
    if |s| < 64 then h else Blocks(Compress(h, s[..64]), s[64..])
  }

  // ---- Padding, section 5.1.1, and the digest ----

  function OctetOf(n: nat, k: nat): Octet
    requires k <= 7
  {
    (n / [1, 0x100, 0x1_0000, 0x100_0000, 0x1_0000_0000, 0x100_0000_0000, 0x1_0000_0000_0000, 0x100_0000_0000_0000][k] % 256) as Octet
  }

  /** A 64-bit number, most significant byte first. */
  function Be64(n: nat): (s: seq<Octet>)
    ensures |s| == 8
  {
    seq(8, i requires 0 <= i < 8 => OctetOf(n, 7 - i))
  }

  /** The number of zero bytes: the least with a whole number of blocks after the length. */
  function Zeros(n: nat): (z: nat)
    ensures z < 64 && (n + 1 + z + 8) % 64 == 0
  {
    (119 - n % 64) % 64
  }

  function Pad(message: seq<Octet>): (s: seq<Octet>)
    ensures |s| % 64 == 0
  {
    message + ([0x80] + seq(Zeros(|message|), _ => 0)) + Be64(8 * |message|)
  }

  function Octets(w: U32): (s: seq<Octet>)
    ensures |s| == 4
  {
    [(w >> 24) as Octet, ((w >> 16) & 0xff) as Octet, ((w >> 8) & 0xff) as Octet, (w & 0xff) as Octet]
  }

  function Digest(r: Regs): seq<Octet> {
    Octets(r.a) + Octets(r.b) + Octets(r.c) + Octets(r.d) + Octets(r.e)
  }

  function Sha1(message: seq<Octet>): seq<Octet> {
    Digest(Blocks(IV, Pad(message)))
  }

  // ---- Blocks one after the other ----

  lemma {:induction false} BlocksAppend(h: Regs, a: seq<Octet>, b: seq<Octet>)
    requires |a| % 64 == 0
    ensures Blocks(h, a + b) == Blocks(Blocks(h, a), b)
    decreases |a|
  {
    hide Compress;
    if |a| == 0 {
      assert a + b == b;
    } else {
      assert (a + b)[..64] == a[..64] && (a + b)[64..] == a[64..] + b;
      BlocksAppend(Compress(h, a[..64]), a[64..], b);
    }
  }
}

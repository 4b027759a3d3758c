/** The block transformation: sixteen words updated in place and registers that change roles. */
module Sha1Rounds {
  import opened Sha1Spec

  // ---- The basic functions as the source writes them ----

  function F(x: U32, y: U32, z: U32): U32 { z ^ (x & (y ^ z)) }

  function G(x: U32, y: U32, z: U32): U32 { x ^ y ^ z }

  function H(x: U32, y: U32, z: U32): U32 { (x & y) | (z & (x | y)) }

  lemma ChForm(x: U32, y: U32, z: U32)
    ensures z ^ (x & (y ^ z)) == (x & y) ^ (!x & z)
  {
  }

  lemma MajForm(x: U32, y: U32, z: U32)
    ensures (x & y) | (z & (x | y)) == (x & y) ^ (x & z) ^ (y & z)
  {
  }

  lemma FIsCh(x: U32, y: U32, z: U32)
    ensures F(x, y, z) == Ch(x, y, z)
  {
    ChForm(x, y, z);
  }

  lemma HIsMaj(x: U32, y: U32, z: U32)
    ensures H(x, y, z) == Maj(x, y, z)
  {
    MajForm(x, y, z);
  }

  lemma GIsParity(x: U32, y: U32, z: U32)
    ensures G(x, y, z) == Parity(x, y, z)
  {
  }

  /** The shorter forms of the source compute the functions of the standard. */
  lemma BasicFunctions(x: U32, y: U32, z: U32)
    ensures F(x, y, z) == Ch(x, y, z) && G(x, y, z) == Parity(x, y, z) && H(x, y, z) == Maj(x, y, z)
  {
    hide *;
    FIsCh(x, y, z);
    GIsParity(x, y, z);
    HIsMaj(x, y, z);
  }

  /** The order in which the source adds does not matter. */
  function Added(e: U32, f: U32, w: U32, k: U32, r: U32): (v: U32)
    ensures v == Sum(r, f, e, k, w)
  {
    e + (f + w + k) + r
  }

  lemma MixIs(t: nat, x: U32, y: U32, z: U32)
    ensures Mix(t, x, y, z) == if t < 20 then F(x, y, z) else if t < 40 then G(x, y, z) else if t < 60 then H(x, y, z) else G(x, y, z)
  {
    hide F, G, H, Ch, Parity, Maj;
    BasicFunctions(x, y, z);
  }

  /** The macros FF, GG, HH and II: e and b are updated. */
  method Round(t: nat, a: U32, b: U32, c: U32, d: U32, e: U32, w: U32) returns (e': U32, b': U32)
    ensures Regs(e', a, b', c, d) == Step(Regs(a, b, c, d, e), t, w)
  {
    hide F, G, H, Mix, Sum, RotL, Added;
    var f, k: U32;
    if t < 20 {
      f, k := F(b, c, d), 0x5A827999;
    } else if t < 40 {
      f, k := G(b, c, d), 0x6ED9EBA1;
    } else if t < 60 {
      f, k := H(b, c, d), 0x8F1BBCDC;
    } else {
      f, k := G(b, c, d), 0xCA62C1D6;
    }
    MixIs(t, b, c, d);
    e' := Added(e, f, w, k, RotL(a, 5));
    b' := RotL(b, 30);
  }

  /** The sixteen words before step t: the last sixteen of the schedule, each at its index modulo 16. */
  ghost predicate Circular(x: seq<U32>, m: seq<U32>, t: nat) {
    |x| == |m| == 16 &&
    forall i {:trigger W(m, i)} :: 0 <= i && t - 16 <= i && (i < t || i < 16) ==> x[i % 16] == W(m, i)
  }

  lemma Index16(t: nat, k: nat)
    requires t >= 16 && 1 <= k <= 16
    ensures (t - k) % 16 == t % 16 <==> k == 16
  {
  }

  lemma NextCircular(x: seq<U32>, m: seq<U32>, t: nat, w: U32)
    requires Circular(x, m, t) && t >= 16 && w == W(m, t)
    ensures Circular(x[t % 16 := w], m, t + 1)
  {
    hide W;
    var y := x[t % 16 := w];
    forall i {:trigger W(m, i)} | 0 <= i && t + 1 - 16 <= i && i < t + 1 ensures y[i % 16] == W(m, i) {
      if i < t {
        Index16(t, t - i);
      }
    }
  }

  /** The word of step t: one of the block, or from step 16 on the macro W, which also stores it. */
  method NextWord(x: array<U32>, t: nat, ghost m: seq<U32>) returns (w: U32)
    requires x.Length == 16 && Circular(x[..], m, t)
    modifies x
    ensures Circular(x[..], m, t + 1) && w == W(m, t)
  {
    if t < 16 {
      assert x[..][t % 16] == W(m, t);
      w := x[t];
    } else {
      assert x[..][(t - 3) % 16] == W(m, t - 3) && x[..][(t - 8) % 16] == W(m, t - 8);
      assert x[..][(t - 14) % 16] == W(m, t - 14) && x[..][(t - 16) % 16] == W(m, t - 16);
      Index16(t, 16);
      var tmp := x[(t - 3) % 16] ^ x[(t - 8) % 16] ^ x[(t - 14) % 16] ^ x[t % 16];
      w := RotL(tmp, 1);
      NextCircular(x[..], m, t, w);
      x[t % 16] := w;
    }
  }

  /** One macro line: the state before step t becomes the state before step t + 1. */
  method Line(x: array<U32>, t: nat, a: U32, b: U32, c: U32, d: U32, e: U32, ghost h: Regs, ghost m: seq<U32>)
    returns (e': U32, b': U32)
    requires x.Length == 16 && Circular(x[..], m, t) && Regs(a, b, c, d, e) == Steps(h, m, t)
    modifies x
    ensures Circular(x[..], m, t + 1) && Regs(e', a, b', c, d) == Steps(h, m, t + 1)
  {
    hide Circular, W, Step;
    var w := NextWord(x, t, m);
    e', b' := Round(t, a, b, c, d, e, w);
  }

  /** Five lines bring every register back to its role. */
  method FiveLines(x: array<U32>, t: nat, a0: U32, b0: U32, c0: U32, d0: U32, e0: U32, ghost h: Regs, ghost m: seq<U32>)
    returns (a: U32, b: U32, c: U32, d: U32, e: U32)
    requires x.Length == 16 && Circular(x[..], m, t) && Regs(a0, b0, c0, d0, e0) == Steps(h, m, t)
    modifies x
    ensures Circular(x[..], m, t + 5) && Regs(a, b, c, d, e) == Steps(h, m, t + 5)
  {
    hide Circular, Steps;
    a, b, c, d, e := a0, b0, c0, d0, e0;
    e, b := Line(x, t, a, b, c, d, e, h, m);
    d, a := Line(x, t + 1, e, a, b, c, d, h, m);
    c, e := Line(x, t + 2, d, e, a, b, c, h, m);
    b, d := Line(x, t + 3, c, d, e, a, b, h, m);
    a, c := Line(x, t + 4, b, c, d, e, a, h, m);
  }

  /** One of the four rounds of twenty lines. */
  method TwentyLines(x: array<U32>, t: nat, a0: U32, b0: U32, c0: U32, d0: U32, e0: U32, ghost h: Regs,
                     ghost m: seq<U32>)
    returns (a: U32, b: U32, c: U32, d: U32, e: U32)
    requires x.Length == 16 && Circular(x[..], m, t) && Regs(a0, b0, c0, d0, e0) == Steps(h, m, t)
    modifies x
    ensures Circular(x[..], m, t + 20) && Regs(a, b, c, d, e) == Steps(h, m, t + 20)
  {
    hide Circular, Steps;
    a, b, c, d, e := FiveLines(x, t, a0, b0, c0, d0, e0, h, m);
    a, b, c, d, e := FiveLines(x, t + 5, a, b, c, d, e, h, m);
    a, b, c, d, e := FiveLines(x, t + 10, a, b, c, d, e, h, m);
    a, b, c, d, e := FiveLines(x, t + 15, a, b, c, d, e, h, m);
  }

  /** `ma_SHA1Decode`. */
  method Decode(block: seq<Octet>) returns (x: array<U32>)
    requires |block| == 64
    ensures fresh(x) && x.Length == 16 && x[..] == WordsOf(block)
  {
    hide BigEndian;
    x := new U32[16];
    var i := 0;
    while i < 16
      invariant 0 <= i <= 16 && forall k :: 0 <= k < i ==> x[k] == BigEndian(block[4 * k..4 * k + 4])
    {
      var j := 4 * i;
      DecodeWord(block[j..j + 4]);
      x[i] := (block[j + 3] as U32) | ((block[j + 2] as U32) << 8) | ((block[j + 1] as U32) << 16) | ((block[j] as U32) << 24);
      i := i + 1;
    }
  }

  lemma DecodeWord(s: seq<Octet>)
    requires |s| == 4
    ensures (s[3] as U32) | ((s[2] as U32) << 8) | ((s[1] as U32) << 16) | ((s[0] as U32) << 24) == BigEndian(s)
  {
  }

  ghost function RegsOf(state: seq<U32>): Regs
    requires |state| == 5
  {
    Regs(state[0], state[1], state[2], state[3], state[4])
  }

  /** `ma_SHA1Transform`. */
  method Transform(state: array<U32>, block: seq<Octet>)
    requires state.Length == 5 && |block| == 64
    modifies state
    ensures RegsOf(state[..]) == Compress(RegsOf(old(state[..])), block)
  {
    hide Steps, WordsOf, AddRegs, Circular;
    ghost var h, m := RegsOf(state[..]), WordsOf(block);
    var a, b, c, d, e := state[0], state[1], state[2], state[3], state[4];
    var x := Decode(block);
    Started(h, m);
    a, b, c, d, e := TwentyLines(x, 0, a, b, c, d, e, h, m);
    a, b, c, d, e := TwentyLines(x, 20, a, b, c, d, e, h, m);
    a, b, c, d, e := TwentyLines(x, 40, a, b, c, d, e, h, m);
    a, b, c, d, e := TwentyLines(x, 60, a, b, c, d, e, h, m);
    AddTo(state, a, b, c, d, e);
  }

  /** The working variables are added to the hash value. */
  method AddTo(state: array<U32>, a: U32, b: U32, c: U32, d: U32, e: U32)
    requires state.Length == 5
    modifies state
    ensures RegsOf(state[..]) == AddRegs(RegsOf(old(state[..])), Regs(a, b, c, d, e))
  {
    hide Plus;
    state[0] := Plus(state[0], a);
    state[1] := Plus(state[1], b);
    state[2] := Plus(state[2], c);
    state[3] := Plus(state[3], d);
    state[4] := Plus(state[4], e);
  }

  lemma Started(h: Regs, m: seq<U32>)
    requires |m| == 16
    ensures Circular(m, m, 0) && Steps(h, m, 0) == h
  {
  }
}

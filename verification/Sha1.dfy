/** The streaming SHA-1 of the client against the standard. */
module Sha1s {
  import opened Sha1Spec
  import opened Sha1Rounds

  const W32: nat := 0x1_0000_0000
  const PADDING: seq<Octet> := [0x80] + seq(63, _ => 0)

  // ---- The bit counter ----

  /** The two words of the counter hold 8 n, up to 64-bit wrap-around. */
  ghost predicate Counts(n: nat, count0: nat, count1: nat, wraps: nat) {
    count0 < W32 && count1 < W32 && 8 * n == wraps * 0x1_0000_0000_0000_0000 + count1 * W32 + count0
  }

  lemma CountAdds(n: nat, count0: nat, count1: nat, wraps: nat, k: nat) returns (wraps': nat)
    requires Counts(n, count0, count1, wraps) && k < W32
    ensures var bits := 8 * k % W32;
      var c0 := (count0 + bits) % W32;
      var c1 := ((if c0 < bits then (count1 + 1) % W32 else count1) + k / 0x2000_0000) % W32;
      Counts(n + k, c0, c1, wraps')
  {
    var bits := 8 * k % W32;
    assert 8 * k == (k / 0x2000_0000) * W32 + bits;
    var carry := if count0 + bits >= W32 then 1 else 0;
    assert (count0 + bits) % W32 == count0 + bits - carry * W32;
    assert (count0 + bits) % W32 < bits <==> carry == 1;
    var high := count1 + carry + k / 0x2000_0000;
    wraps' := wraps + (if high >= W32 then 1 else 0);
  }

  lemma CountIndex(n: nat, count0: nat, count1: nat, wraps: nat)
    requires Counts(n, count0, count1, wraps)
    ensures count0 / 8 % 64 == n % 64
  {
    var r := wraps * 0x80_0000_0000_0000 + count1 * 0x80_0000;
    var q := n - 64 * r;
    assert count0 == 8 * q;
    Add64s(q, r);
  }

  lemma Add64s(q: nat, r: nat)
    ensures (q + 64 * r) % 64 == q % 64
  {
  }

  /** The bytes of the counter are the length field. */
  lemma LengthField(n: nat, count0: nat, count1: nat)
    requires Counts(n, count0, count1, 0)
    ensures [OctetOf(count1, 3), OctetOf(count1, 2), OctetOf(count1, 1), OctetOf(count1, 0),
             OctetOf(count0, 3), OctetOf(count0, 2), OctetOf(count0, 1), OctetOf(count0, 0)] == Be64(8 * n)
  {
    hide OctetOf, Be64;
    var b := 8 * n;
    CounterDivides(n, count0, count1);
    LowOctets(b, count0, count1);
    HighOctets(b, count1);
    Be64Octets(b);
  }

  lemma CounterDivides(n: nat, count0: nat, count1: nat)
    requires Counts(n, count0, count1, 0)
    ensures 8 * n / W32 == count1 && 8 * n == count1 * W32 + count0 && count0 < W32
  {
  }

  lemma Be64Octets(n: nat)
    ensures Be64(n) == [OctetOf(n, 7), OctetOf(n, 6), OctetOf(n, 5), OctetOf(n, 4),
                        OctetOf(n, 3), OctetOf(n, 2), OctetOf(n, 1), OctetOf(n, 0)]
  {
    hide OctetOf;
  }

  lemma HighOctets(b: nat, count1: nat)
    requires b / W32 == count1
    ensures OctetOf(b, 4) == OctetOf(count1, 0) && OctetOf(b, 5) == OctetOf(count1, 1)
    ensures OctetOf(b, 6) == OctetOf(count1, 2) && OctetOf(b, 7) == OctetOf(count1, 3)
  {
    assert b / 0x100_0000_0000 == count1 / 0x100;
    assert b / 0x1_0000_0000_0000 == count1 / 0x1_0000;
    assert b / 0x100_0000_0000_0000 == count1 / 0x100_0000;
  }

  lemma LowOctets(b: nat, count0: nat, count1: nat)
    requires b == count1 * W32 + count0 && count0 < W32
    ensures OctetOf(b, 0) == OctetOf(count0, 0) && OctetOf(b, 1) == OctetOf(count0, 1)
    ensures OctetOf(b, 2) == OctetOf(count0, 2) && OctetOf(b, 3) == OctetOf(count0, 3)
  {
    assert b / 0x100 == count1 * 0x100_0000 + count0 / 0x100;
    assert b / 0x1_0000 == count1 * 0x1_0000 + count0 / 0x1_0000;
    assert b / 0x100_0000 == count1 * 0x100 + count0 / 0x100_0000;
    SameOctet(count1 * 0x100_0000, count0);
    SameOctet(count1 * 0x1_0000, count0 / 0x100);
    SameOctet(count1 * 0x100, count0 / 0x1_0000);
    SameOctet(count1, count0 / 0x100_0000);
  }

  lemma SameOctet(a: nat, b: nat)
    ensures (a * 0x100 + b) % 256 == b % 256
  {
  }

  // ---- Blocks of a growing message ----

  function WholeBlocks(n: nat): (k: nat)
    ensures k <= n && k % 64 == 0 && n - k == n % 64
  {
    n - n % 64
  }

  lemma BlockMore(s: seq<Octet>, n: nat)
    requires n % 64 == 0 && n + 64 <= |s|
    ensures Blocks(IV, s[..n + 64]) == Compress(Blocks(IV, s[..n]), s[n..n + 64])
  {
    hide Compress;
    var block := s[n..n + 64];
    BlocksAppend(IV, s[..n], block);
    assert s[..n + 64] == s[..n] + block;
    assert block[..64] == block && block[64..] == [];
    assert Blocks(Compress(Blocks(IV, s[..n]), block), []) == Compress(Blocks(IV, s[..n]), block);
  }

  function Add32(a: nat, b: nat): nat { (a + b) % W32 }

  /** Where the block loop has to stop: less than a block of the input is left. */
  function LastBlock(messageLength: nat, length: nat): (i: nat)
    requires length >= 64 - messageLength % 64
    ensures i <= length < i + 64 && (messageLength + i) % 64 == 0
  {
    var partLen := 64 - messageLength % 64;
    partLen + (length - partLen) / 64 * 64
  }

  /** The 32-bit index of the block loop can tell that it has come to its end. */
  predicate InRange(messageLength: nat, length: nat) {
    length >= 64 - messageLength % 64 ==> LastBlock(messageLength, length) + 63 < W32
  }

  /** What fills up the buffer. */
  lemma FirstInput(message: seq<Octet>, input: seq<Octet>, partLen: nat)
    requires partLen <= |input| && partLen == 64 - |message| % 64
    ensures var all, n := message + input, WholeBlocks(|message|);
      n % 64 == 0 && n + 64 == |message| + partLen && all[..|message|] == message && all[n..n + 64] == message[n..] + input[..partLen]
  {
  }

  lemma FirstBlock(messageLength: nat, length: nat)
    requires length >= 64 - messageLength % 64
    ensures 64 - messageLength % 64 <= LastBlock(messageLength, length)
  {
  }

  /** The index of the block loop after n turns. */
  function IndexAfter(messageLength: nat, n: nat): nat {
    (64 - messageLength % 64 + 64 * n) % W32
  }

  /** The test of the loop fails after n turns. */
  predicate StopsAfter(messageLength: nat, length: nat, n: nat) {
    Add32(IndexAfter(messageLength, n), 63) >= length
  }

  /** How many blocks there are straight from the input. */
  function Turns(messageLength: nat, length: nat): (n: nat)
    requires length >= 64 - messageLength % 64
    ensures 64 - messageLength % 64 + 64 * n == LastBlock(messageLength, length)
  {
    (length - (64 - messageLength % 64)) / 64
  }

  /** The loop stops when all blocks are done and not before, if and only if the index is in range. */
  lemma StopsInTime(messageLength: nat, length: nat)
    requires length >= 64 - messageLength % 64
    ensures InRange(messageLength, length) <==>
            forall n :: 0 <= n <= Turns(messageLength, length) ==>
              (StopsAfter(messageLength, length, n) <==> n == Turns(messageLength, length))
  {
    hide Turns, LastBlock;
    var turns := Turns(messageLength, length);
    forall n | 0 <= n <= turns
      ensures StopsAfter(messageLength, length, n) <==> n == turns && InRange(messageLength, length)
    {
      OneTest(messageLength, length, n);
    }
    assert !InRange(messageLength, length) ==> !StopsAfter(messageLength, length, turns);
  }

  lemma OneTest(messageLength: nat, length: nat, n: nat)
    requires length >= 64 - messageLength % 64 && n <= Turns(messageLength, length)
    ensures StopsAfter(messageLength, length, n) <==> n == Turns(messageLength, length) && InRange(messageLength, length)
  {
    hide Turns, LastBlock;
    var i, last := 64 - messageLength % 64 + 64 * n, LastBlock(messageLength, length);
    if n < Turns(messageLength, length) {
      assert i + 64 <= last;
    }
    if length < W32 {
      assert IndexAfter(messageLength, n) == i;
    }
  }

  /** A second piece of 2^32 - 1 bytes after one byte is not in range. */
  lemma IndexWraps()
    ensures !InRange(1, 0xFFFF_FFFF)
  {
  }

  /** In range the test of the loop is right and the index does not wrap around. */
  lemma StopsAtLast(messageLength: nat, length: nat, i: nat)
    requires InRange(messageLength, length) && length >= 64 - messageLength % 64
    requires i <= LastBlock(messageLength, length) && (messageLength + i) % 64 == 0
    ensures Add32(i, 63) < length <==> i < LastBlock(messageLength, length)
    ensures i < LastBlock(messageLength, length) ==> i + 64 <= LastBlock(messageLength, length) && Add32(i, 64) == i + 64
  {
  }

  /** The context `_MA_SHA1_CTX`. */
  class Context {
    const state: array<U32>
    const buffer: array<Octet>
    var count0: nat
    var count1: nat
    /** The message so far, and how often its bit count went round 2^64. */
    ghost var message: seq<Octet>
    ghost var wraps: nat

    /** Whole blocks are in the hash value and what is left over in the buffer. */
    ghost predicate Valid()
      reads this, state, buffer
    {
      var n := WholeBlocks(|message|);
      && state.Length == 5 && buffer.Length == 64
      && Counts(|message|, count0, count1, wraps)
      && RegsOf(state[..]) == Blocks(IV, message[..n]) && buffer[..|message| - n] == message[n..]
    }

    /** `ma_SHA1Init`. */
    constructor ()
      ensures Valid() && message == [] && fresh(state) && fresh(buffer)
    {
      state := new U32[] [0x67452301, 0xefcdab89, 0x98badcfe, 0x10325476, 0xc3d2e1f0];
      buffer := new Octet[64];
      count0, count1 := 0, 0;
      message, wraps := [], 0;
    }

    /** The counter part of `ma_SHA1Update`. */
    method Count(length: nat)
      requires Counts(|message|, count0, count1, wraps) && length < W32
      modifies this`count0, this`count1, this`wraps
      ensures Counts(|message| + length, count0, count1, wraps)
    {
      wraps := CountAdds(|message|, count0, count1, wraps, length);
      var bits := 8 * length % W32;
      count0 := (count0 + bits) % W32;
      if count0 < bits {
        count1 := (count1 + 1) % W32;
      }
      count1 := (count1 + length / 0x2000_0000) % W32;
    }

    /** Bytes copied into the buffer at `index`. */
    method Store(index: nat, data: seq<Octet>)
      requires buffer.Length == 64 && index + |data| <= 64
      modifies buffer
      ensures buffer[..index + |data|] == old(buffer[..index]) + data
    {
      forall k | 0 <= k < |data| { buffer[index + k] := data[k]; }
    }

    /** `ma_SHA1Update`: the message grows by the input, however it is split over calls. */
    method Update(input: seq<Octet>)
      requires Valid() && InRange(|message|, |input|)
      modifies this, state, buffer
      ensures Valid() && message == old(message) + input
    {
      hide Compress, Blocks, Counts, WholeBlocks;
      CountIndex(|message|, count0, count1, wraps);
      var index := count0 / 8 % 64;
      Count(|input|);
      ghost var n, all := |message|, message + input;
      var i;
      i, index := Absorb(input, index, all);
      Store(index, input[i..]);
      message := all;
      Leftover(old(message), input, i, index, buffer[..index + |input| - i]);
    }

    /** Whole blocks are transformed; i is the input used for them and index the bytes kept in the buffer. */
    method Absorb(input: seq<Octet>, index0: nat, ghost all: seq<Octet>) returns (i: nat, index: nat)
      requires state.Length == 5 && buffer.Length == 64 && all == message + input && index0 == |message| % 64
      requires RegsOf(state[..]) == Blocks(IV, message[..WholeBlocks(|message|)]) && InRange(|message|, |input|)
      requires buffer[..index0] == message[WholeBlocks(|message|)..]
      modifies state, buffer
      ensures i <= |input| && index <= |message| + i && index + |input| - i < 64
      ensures WholeBlocks(|all|) == |message| + i - index
      ensures RegsOf(state[..]) == Blocks(IV, all[..|message| + i - index])
      ensures buffer[..index] == all[|message| + i - index..|message| + i]
    {
      hide Compress, Blocks;
      i, index := 0, index0;
      var partLen := 64 - index;
      ghost var n := WholeBlocks(|message|);
      if |input| >= partLen {
        Store(index, input[..partLen]);
        assert buffer[..] == buffer[..64];
        i := Consume(input, partLen, all);
        index := 0;
      } else {
        assert all[..n] == message[..n] && all[n..|message|] == message[n..];
      }
    }

    /** The block loop of `ma_SHA1Update`: the filled buffer first, then blocks straight from the input. */
    method Consume(input: seq<Octet>, partLen: nat, ghost all: seq<Octet>) returns (i: nat)
      requires state.Length == 5 && buffer.Length == 64 && partLen <= |input| && all == message + input
      requires partLen == 64 - |message| % 64 && InRange(|message|, |input|)
      requires RegsOf(state[..]) == Blocks(IV, message[..WholeBlocks(|message|)])
      requires buffer[..] == message[WholeBlocks(|message|)..] + input[..partLen]
      modifies state
      ensures i <= |input| < i + 64 && (|message| + i) % 64 == 0
      ensures RegsOf(state[..]) == Blocks(IV, all[..|message| + i])
    {
      hide DoneTo, LastBlock, InRange, Add32;
      ghost var n := WholeBlocks(|message|);
      FirstInput(message, input, partLen);
      DoneBefore(all, n);
      OneBlock(buffer[..], all, n);
      i := partLen;
      ghost var last := LastBlock(|message|, |input|);
      FirstBlock(|message|, |input|);
      StopsAtLast(|message|, |input|, i);
      while Add32(i, 63) < |input|
        invariant partLen <= i <= last && (|message| + i) % 64 == 0 && (Add32(i, 63) < |input| <==> i < last)
        invariant DoneTo(all, |message| + i)
        decreases last - i
      {
        StopsAtLast(|message|, |input|, i);
        InputBlock(message, input, i);
        OneBlock(input[i..i + 64], all, |message| + i);
        i := Add32(i, 64);
        StopsAtLast(|message|, |input|, i);
      }
      DoneAfter(all, |message| + i);
    }

    /** The hash value after the first pos bytes. */
    ghost predicate DoneTo(all: seq<Octet>, pos: nat)
      reads state
    {
      pos <= |all| && state.Length == 5 && RegsOf(state[..]) == Blocks(IV, all[..pos])
    }

    lemma DoneBefore(all: seq<Octet>, n: nat)
      requires n <= |message| <= |all| && all[..|message|] == message && state.Length == 5
      requires RegsOf(state[..]) == Blocks(IV, message[..n])
      ensures DoneTo(all, n)
    {
      assert all[..n] == message[..n];
    }

    lemma DoneAfter(all: seq<Octet>, pos: nat)
      requires DoneTo(all, pos)
      ensures pos <= |all| && state.Length == 5 && RegsOf(state[..]) == Blocks(IV, all[..pos])
    {
    }

    method OneBlock(block: seq<Octet>, ghost all: seq<Octet>, ghost pos: nat)
      requires DoneTo(all, pos) && state.Length == 5 && pos % 64 == 0 && pos + 64 <= |all| && block == all[pos..pos + 64]
      modifies state
      ensures DoneTo(all, pos + 64)
    {
      hide Compress, Blocks;
      Transform(state, block);
      BlockMore(all, pos);
    }

    /** `ma_SHA1Final`: the digest of the message; the context is cleared. */
    method Final(digest: array<Octet>)
      requires Valid() && 8 * |message| < 0x1_0000_0000_0000_0000 && digest.Length == 20 && digest != buffer
      modifies this, state, buffer, digest
      ensures digest[..] == Sha1(old(message))
    {
      hide Compress, Blocks, Be64, OctetOf, Digest;
      ghost var m := message;
      var bits := [OctetOf(count1, 3), OctetOf(count1, 2), OctetOf(count1, 1), OctetOf(count1, 0),
                   OctetOf(count0, 3), OctetOf(count0, 2), OctetOf(count0, 1), OctetOf(count0, 0)];
      LengthField(|m|, count0, count1);
      CountIndex(|m|, count0, count1, wraps);
      var index := count0 / 8 % 64;
      var padLen := if index < 56 then 56 - index else 120 - index;
      PadLength(|m|, padLen);
      Update(PADDING[..padLen]);
      Update(bits);
      assert message == Pad(m);
      assert message[..WholeBlocks(|message|)] == message;
      Encode(digest, state);
      count0, count1 := 0, 0;
      Clear();
    }

    method Clear()
      modifies state, buffer
      ensures forall i :: 0 <= i < state.Length ==> state[i] == 0
      ensures forall i :: 0 <= i < buffer.Length ==> buffer[i] == 0
    {
      forall i | 0 <= i < state.Length { state[i] := 0; }
      forall i | 0 <= i < buffer.Length { buffer[i] := 0; }
    }
  }

  lemma InputBlock(message: seq<Octet>, input: seq<Octet>, i: nat)
    requires i + 64 <= |input|
    ensures (message + input)[|message| + i..|message| + i + 64] == input[i..i + 64]
  {
  }

  /** The buffer holds what does not fill a block. */
  lemma Leftover(message: seq<Octet>, input: seq<Octet>, i: nat, index: nat, buffer: seq<Octet>)
    requires i <= |input| && index <= |message| + i
    requires buffer == (message + input)[|message| + i - index..|message| + i] + input[i..]
    ensures buffer == (message + input)[|message| + i - index..]
  {
    assert input[i..] == (message + input)[|message| + i..];
  }

  lemma PadLength(n: nat, padLen: nat)
    requires padLen == if n % 64 < 56 then 56 - n % 64 else 120 - n % 64
    ensures 1 <= padLen <= 64 && padLen == 1 + Zeros(n)
    ensures PADDING[..padLen] == [0x80] + seq(Zeros(n), _ => 0)
  {
  }

  /** The bytes of the first n words. */
  ghost function OctetsOf(words: seq<U32>, n: nat): (s: seq<Octet>)
    requires n <= |words|
    ensures |s| == 4 * n
  {
    if n == 0 then [] else OctetsOf(words, n - 1) + Octets(words[n - 1])
  }

  lemma DigestOctets(words: seq<U32>)
    requires |words| == 5
    ensures OctetsOf(words, 5) == Digest(RegsOf(words))
  {
    hide Octets;
    assert OctetsOf(words, 2) == Octets(words[0]) + Octets(words[1]);
    assert OctetsOf(words, 4) == OctetsOf(words, 2) + Octets(words[2]) + Octets(words[3]);
  }

  /** `ma_SHA1Encode`. */
  method Encode(output: array<Octet>, input: array<U32>)
    requires input.Length == 5 && output.Length == 20
    modifies output
    ensures output[..] == Digest(RegsOf(input[..]))
  {
    hide Octets, Digest;
    var i := 0;
    while i < 5
      invariant 0 <= i <= 5 && output[..4 * i] == OctetsOf(input[..], i)
    {
      PutWord(output, 4 * i, input[i]);
      assert output[..4 * i + 4] == output[..4 * i] + output[4 * i..4 * i + 4];
      i := i + 1;
    }
    DigestOctets(input[..]);
    assert output[..] == output[..20];
  }

  method PutWord(output: array<Octet>, j: nat, w: U32)
    requires j + 4 <= output.Length
    modifies output
    ensures output[..j] == old(output[..j]) && output[j..j + 4] == Octets(w)
  {
    output[j] := ((w >> 24) & 0xff) as Octet;
    output[j + 1] := ((w >> 16) & 0xff) as Octet;
    output[j + 2] := ((w >> 8) & 0xff) as Octet;
    output[j + 3] := (w & 0xff) as Octet;
  }

  function Joined(pieces: seq<seq<Octet>>): seq<Octet> {
    if |pieces| == 0 then [] else Joined(pieces[..|pieces| - 1]) + pieces[|pieces| - 1]
  }

  /** No piece is so long that the index wraps around. */
  ghost predicate AllInRange(pieces: seq<seq<Octet>>) {
    forall i :: 0 <= i < |pieces| ==> InRange(|Joined(pieces[..i])|, |pieces[i]|)
  }

  /** The digest of a message given in any pieces is that of the standard. */
  method HashPieces(pieces: seq<seq<Octet>>) returns (digest: array<Octet>)
    requires 8 * |Joined(pieces)| < 0x1_0000_0000_0000_0000 && AllInRange(pieces)
    ensures digest[..] == Sha1(Joined(pieces))
  {
    var context := new Context();
    var i := 0;
    while i < |pieces|
      invariant 0 <= i <= |pieces| && context.Valid() && context.message == Joined(pieces[..i])
      invariant fresh(context) && fresh(context.state) && fresh(context.buffer)
    {
      hide Context.Valid;
      context.Update(pieces[i]);
      assert pieces[..i + 1][..i] == pieces[..i];
      i := i + 1;
    }
    assert pieces[..i] == pieces;
    digest := new Octet[20];
    context.Final(digest);
  }
}

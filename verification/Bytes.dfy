/** Bytes and the three-byte lengths of the protocol. */
module Bytes {
  type Byte = b: nat | b < 256

  /** `int3store`. */
  function Int3(n: nat): (s: seq<Byte>)
    requires n < 0x100_0000
    ensures |s| == 3
  {
    [n % 256, n / 256 % 256, n / 0x1_0000]
  }

  /** `uint3korr`. */
  function Uint3(s: seq<Byte>): (n: nat)
    requires |s| >= 3
    ensures n < 0x100_0000
  {
    s[0] as nat + 256 * (s[1] as nat) + 0x1_0000 * (s[2] as nat)
  }

  lemma StoredLength(n: nat, tail: seq<Byte>)
    requires n < 0x100_0000
    ensures Uint3(Int3(n) + tail) == n
  {
    assert n / 256 / 256 == n / 0x1_0000;
  }

  lemma SubSlice(s: seq<Byte>, i: nat, j: nat, p: nat, q: nat)
    requires i <= j <= |s| && p <= q <= j - i
    ensures s[i..j][p..q] == s[i + p..i + q]
  {
    var t := s[i..j];
    assert |t[p..q]| == |s[i + p..i + q]|;
    forall k | 0 <= k < q - p ensures t[p..q][k] == s[i + p..i + q][k] {
      assert t[p + k] == s[i + (p + k)];
    }
  }

  lemma SplitConcat(a: seq<Byte>, b: seq<Byte>, p: nat, q: nat)
    requires p <= |a| && q <= |b|
    ensures (a + b)[p..|a| + q] == a[p..] + b[..q] && (a + b)[|a| + q..] == b[q..]
  {
  }

  lemma SliceTwice(s: seq<Byte>, n: nat, len: nat)
    requires n + len <= |s|
    ensures s[n..][..len] == s[n..n + len] && s[n..][len..] == s[n + len..]
  {
  }

  /** Data copied to position pos of a buffer that is long enough or ends there. */
  function Put(buff: seq<Byte>, pos: nat, data: seq<Byte>): (r: seq<Byte>)
    requires pos <= |buff|
    ensures |r| >= |buff| && |r| >= pos + |data| && r[..pos] == buff[..pos] && r[pos..pos + |data|] == data
    ensures forall i {:trigger r[i]} :: pos + |data| <= i < |r| ==> i < |buff| && r[i] == buff[i]
  {
    buff[..pos] + data + (if pos + |data| < |buff| then buff[pos + |data|..] else [])
  }
}

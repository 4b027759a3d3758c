/** The frames of the compressed protocol. */
module Frames {
  import opened Bytes
  import opened Options
  import opened Packets

  const MIN_COMPRESS_LENGTH: nat := 50
  const COMP_HEADER_SIZE: nat := 7

  /** Compression as an inverse pair; bytes that are no compressed data cannot be decompressed. */
  datatype Codec = Codec(deflate: seq<Byte> -> seq<Byte>, inflate: seq<Byte> -> Option<seq<Byte>>) {
    ghost predicate Sound() {
      forall s {:trigger deflate(s)} :: deflate(s) != [] && inflate(deflate(s)) == Some(s)
    }
  }

  /** The frame for some content: compressed only if that makes it shorter. */
  function Frame(c: Codec, content: seq<Byte>, nr: nat): seq<Byte>
    requires |content| <= MAX_PACKET_LENGTH
  {
    var z := c.deflate(content);
    if |content| < MIN_COMPRESS_LENGTH || |z| >= |content| then Header(|content|, nr) + Int3(0) + content
    else Header(|z|, nr) + Int3(|content|) + z
  }

  /** A whole frame is at the front of the stream. */
  predicate Complete(s: seq<Byte>) {
    |s| >= COMP_HEADER_SIZE && |s| >= COMP_HEADER_SIZE + Uint3(s)
  }

  /** `_mariadb_uncompress`: the body as it is, or decompressed to no more than the length given for it; no compressed
      data is empty. */
  function Inflated(c: Codec, body: seq<Byte>, complen: nat): (r: Option<seq<Byte>>)
    ensures r.Some? ==> |r.value| <= (if complen == 0 then |body| else complen) && (body == [] ==> r.value == [])
  {
    if complen == 0 then Some(body)
    else if body == [] then None
    else var r := c.inflate(body); if r.Some? && |r.value| > complen then None else r
  }

  /** What decompression makes of the frame at the front. */
  function Uncompressed(c: Codec, s: seq<Byte>): Option<seq<Byte>>
    requires Complete(s)
  {
    Inflated(c, s[COMP_HEADER_SIZE..COMP_HEADER_SIZE + Uint3(s)], Uint3(s[NET_HEADER_SIZE..]))
  }

  /** A whole frame that can be decompressed is at the front. */
  predicate Good(c: Codec, s: seq<Byte>) {
    Complete(s) && Uncompressed(c, s).Some?
  }

  function Content(c: Codec, s: seq<Byte>): seq<Byte>
    requires Good(c, s)
  {
    Uncompressed(c, s).value
  }

  function After(s: seq<Byte>): seq<Byte>
    requires Complete(s)
  {
    s[COMP_HEADER_SIZE + Uint3(s)..]
  }

  /** What the frames of a stream say, up to the first one that is not complete or cannot be decompressed. */
  function Plain(c: Codec, s: seq<Byte>): seq<Byte>
    decreases |s|
  {
    if Good(c, s) then Content(c, s) + Plain(c, After(s)) else []
  }

  /** The stream ends where a frame ends. */
  predicate Whole(c: Codec, s: seq<Byte>)
    decreases |s|
  {
    s == [] || (Good(c, s) && Whole(c, After(s)))
  }

  /** The stream comes to a frame that cannot be decompressed. */
  predicate Broken(c: Codec, s: seq<Byte>)
    decreases |s|
  {
    Complete(s) && (Good(c, s) ==> Broken(c, After(s)))
  }

  lemma FrameParts(len: nat, nr: nat, complen: nat, body: seq<Byte>, rest: seq<Byte>)
    requires len == |body| <= MAX_PACKET_LENGTH && complen <= MAX_PACKET_LENGTH
    ensures var s := Header(len, nr) + Int3(complen) + body + rest;
      && Complete(s) && Uint3(s) == len && Uint3(s[NET_HEADER_SIZE..]) == complen
      && s[COMP_HEADER_SIZE..COMP_HEADER_SIZE + len] == body && After(s) == rest
  {
    hide Header, Int3;
    var s := Header(len, nr) + Int3(complen) + body + rest;
    var tail := Int3(complen) + (body + rest);
    assert s == Header(len, nr) + tail;
    HeaderReads(len, nr, tail);
    StoredLength(complen, body + rest);
    assert s[NET_HEADER_SIZE..] == tail;
    assert s == (Header(len, nr) + Int3(complen)) + (body + rest);
  }

  /** The bytes of a frame: two lengths of three bytes, the least significant one first, with a byte that counts between
      them, and the body. The second length is that before compression, or 0 for content that is sent as it is: less
      than 50 bytes, or such that compression makes nothing shorter. */
  predicate FrameOnWire(c: Codec, w: seq<Byte>, content: seq<Byte>, nr: nat) {
    var raw := |content| < 50 || |c.deflate(content)| >= |content|;
    var body := if raw then content else c.deflate(content);
    && |w| == 7 + |body|
    && w[0] as nat + 256 * (w[1] as nat) + 65536 * (w[2] as nat) == |body| && w[3] as nat == nr % 256
    && w[4] as nat + 256 * (w[5] as nat) + 65536 * (w[6] as nat) == (if raw then 0 else |content|)
    && w[7..] == body
  }

  lemma FrameBytes(c: Codec, content: seq<Byte>, nr: nat)
    requires |content| <= MAX_PACKET_LENGTH
    ensures FrameOnWire(c, Frame(c, content, nr), content, nr)
  {
    hide Header, Int3;
    var z := c.deflate(content);
    var raw := |content| < MIN_COMPRESS_LENGTH || |z| >= |content|;
    var body, length := if raw then content else z, if raw then 0 else |content|;
    var w := Header(|body|, nr) + Int3(length) + body;
    HeaderBytes(|body|, nr);
    LengthBytes(length);
    assert w == Frame(c, content, nr);
    assert w[..4] == Header(|body|, nr) && w[4..7] == Int3(length);
    assert w[4] == w[4..7][0] && w[5] == w[4..7][1] && w[6] == w[4..7][2];
  }

  lemma LengthBytes(n: nat)
    requires n <= MAX_PACKET_LENGTH
    ensures var w := Int3(n); w[0] as nat + 256 * (w[1] as nat) + 65536 * (w[2] as nat) == n
  {
    assert n / 256 / 256 == n / 65536;
  }

  /** Reading a frame gives back its content. */
  lemma FrameReads(c: Codec, content: seq<Byte>, nr: nat, rest: seq<Byte>)
    requires |content| <= MAX_PACKET_LENGTH && c.Sound()
    ensures var s := Frame(c, content, nr) + rest;
      Good(c, s) && Content(c, s) == content && After(s) == rest
  {
    hide Header, Int3, Complete, After, Uint3;
    var z := c.deflate(content);
    if |content| < MIN_COMPRESS_LENGTH || |z| >= |content| {
      FrameParts(|content|, nr, 0, content, rest);
    } else {
      FrameParts(|z|, nr, |content|, z, rest);
    }
  }

  lemma FirstFrame(c: Codec, a: seq<Byte>, b: seq<Byte>)
    requires Good(c, a)
    ensures Good(c, a + b) && After(a + b) == After(a) + b && Content(c, a + b) == Content(c, a)
    ensures |After(a)| < |a|
  {
    assert Uint3(a + b) == Uint3(a);
    assert (a + b)[NET_HEADER_SIZE..] == a[NET_HEADER_SIZE..] + b;
    var n := COMP_HEADER_SIZE + Uint3(a);
    assert (a + b)[COMP_HEADER_SIZE..n] == a[COMP_HEADER_SIZE..n];
  }

  lemma {:induction false} PlainAppend(c: Codec, a: seq<Byte>, b: seq<Byte>)
    requires Whole(c, a)
    ensures Plain(c, a + b) == Plain(c, a) + Plain(c, b) && (Whole(c, b) ==> Whole(c, a + b))
    decreases |a|
  {
    hide Complete, Uncompressed, Content, After;
    if a == [] {
      EmptyStream(c);
      assert a + b == b;
    } else {
      FirstFrame(c, a, b);
      PlainAppend(c, After(a), b);
      assert Content(c, a) + Plain(c, After(a)) + Plain(c, b) == Content(c, a) + (Plain(c, After(a)) + Plain(c, b));
    }
  }

  /** A frame more at the end of whole frames. */
  lemma PlainFrame(c: Codec, s: seq<Byte>, content: seq<Byte>, nr: nat)
    requires Whole(c, s) && |content| <= MAX_PACKET_LENGTH && c.Sound()
    ensures Whole(c, s + Frame(c, content, nr)) && Plain(c, s + Frame(c, content, nr)) == Plain(c, s) + content
  {
    hide Complete, Uncompressed, Content, After, Frame, Codec.Sound;
    var f := Frame(c, content, nr);
    FrameReads(c, content, nr, []);
    assert f + [] == f;
    assert Plain(c, f) == content + Plain(c, []) && Plain(c, []) == [] by { EmptyStream(c); }
    assert Whole(c, []);
    PlainAppend(c, s, f);
  }

  lemma EmptyStream(c: Codec)
    ensures Plain(c, []) == [] && !Good(c, []) && !Complete([])
  {
  }
}

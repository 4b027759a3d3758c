/** The packet format: payloads cut into chunks with a header of length and sequence number each. */
module Packets {
  import opened Bytes

  const MAX_PACKET_LENGTH: nat := 0xFF_FFFF
  const NET_HEADER_SIZE: nat := 4
  const IO_SIZE: nat := 4096

  function Header(length: nat, nr: nat): (s: seq<Byte>)
    requires length <= MAX_PACKET_LENGTH
    ensures |s| == NET_HEADER_SIZE
  {
    Int3(length) + [nr % 256]
  }

  /** The chunks of a payload: full ones and a last one that is shorter, possibly empty. The
      sequence numbers count on from nr, or are all zero. */
  function Chunks(payload: seq<Byte>, nr: nat, counted: bool): seq<Byte>
    decreases |payload|
  {
    var number := if counted then nr else 0;
    if |payload| < MAX_PACKET_LENGTH then Header(|payload|, number) + payload
    else Header(MAX_PACKET_LENGTH, number) + payload[..MAX_PACKET_LENGTH]
         + Chunks(payload[MAX_PACKET_LENGTH..], nr + 1, counted)
  }

  /** How many chunks that are. */
  function ChunkCount(length: nat): nat {
    length / MAX_PACKET_LENGTH + 1
  }

  /** A read comes to a packet, to the end of the stream or to a packet that is too large. */
  datatype Parsed = Packet(payload: seq<Byte>, rest: seq<Byte>, nr: Byte) | Truncated | TooLarge

  function RoundUp(n: nat): (r: nat)
    ensures r >= n
  {
    (n + IO_SIZE - 1) / IO_SIZE * IO_SIZE
  }

  /** What a byte stream says, independently of how it arrives: chunks are collected in acc until a short one.
      maxPacket is the size of the buffer, which may grow while the length asked for is below `limit`. */
  function Parse(s: seq<Byte>, acc: seq<Byte>, maxPacket: nat, limit: nat): Parsed
    decreases |s|
  {
    if |s| < NET_HEADER_SIZE then Truncated
    else
      var length := Uint3(s);
      var need := |acc| + length;
      if length == 0 then Packet(acc, s[NET_HEADER_SIZE..], s[3])
      else if need >= maxPacket && need >= limit then TooLarge
      else if |s| < NET_HEADER_SIZE + length then Truncated
      else
        var body, rest := s[NET_HEADER_SIZE..NET_HEADER_SIZE + length], s[NET_HEADER_SIZE + length..];
        if length < MAX_PACKET_LENGTH then Packet(acc + body, rest, s[3])
        else Parse(rest, acc + body, if need >= maxPacket then RoundUp(need) else maxPacket, limit)
  }

  /** What a byte stream says when there is no limit. */
  function Next(s: seq<Byte>): Parsed {
    Parse(s, [], 0, |s| + 1)
  }

  /** The chunk at the front, when it is all there. */
  lemma ParseStep(s: seq<Byte>, acc: seq<Byte>, maxPacket: nat, limit: nat)
    requires |s| >= NET_HEADER_SIZE && |s| >= NET_HEADER_SIZE + Uint3(s) && |acc| + |s| < limit
    ensures var length := Uint3(s);
      var body, rest := s[NET_HEADER_SIZE..NET_HEADER_SIZE + length], s[NET_HEADER_SIZE + length..];
      if length < MAX_PACKET_LENGTH then Parse(s, acc, maxPacket, limit) == Packet(acc + body, rest, s[3])
      else exists m: nat :: Parse(s, acc, maxPacket, limit) == Parse(rest, acc + body, m, limit)
  {
    hide RoundUp, Uint3;
    var length := Uint3(s);
    assert length == 0 ==> acc + s[NET_HEADER_SIZE..NET_HEADER_SIZE] == acc;
    if length == MAX_PACKET_LENGTH {
      var need := |acc| + length;
      var m := if need >= maxPacket then RoundUp(need) else maxPacket;
      assert Parse(s, acc, maxPacket, limit)
          == Parse(s[NET_HEADER_SIZE + length..], acc + s[NET_HEADER_SIZE..NET_HEADER_SIZE + length], m, limit);
    }
  }

  /** A packet can only be read when its next chunk is all there, and is no shorter than that. */
  lemma {:induction false} ParseWhole(s: seq<Byte>, acc: seq<Byte>, maxPacket: nat, limit: nat)
    requires Parse(s, acc, maxPacket, limit).Packet?
    ensures |s| >= NET_HEADER_SIZE && |s| >= NET_HEADER_SIZE + Uint3(s)
    ensures |Parse(s, acc, maxPacket, limit).payload| >= |acc| + Uint3(s)
    ensures |Parse(s, acc, maxPacket, limit).rest| + NET_HEADER_SIZE + Uint3(s) <= |s|
    decreases |s|
  {
    hide RoundUp, Uint3;
    var length := Uint3(s);
    if length == MAX_PACKET_LENGTH {
      var need := |acc| + length;
      var m := if need >= maxPacket then RoundUp(need) else maxPacket;
      ParseWhole(s[NET_HEADER_SIZE + length..], acc + s[NET_HEADER_SIZE..NET_HEADER_SIZE + length], m, limit);
    }
  }

  lemma HeaderReads(length: nat, nr: nat, tail: seq<Byte>)
    requires length <= MAX_PACKET_LENGTH
    ensures var s := Header(length, nr) + tail;
      Uint3(s) == length && s[3] == nr % 256 && s[NET_HEADER_SIZE..] == tail
  {
    assert Header(length, nr) + tail == Int3(length) + ([nr % 256] + tail);
    StoredLength(length, [nr % 256] + tail);
  }

  /** One chunk at the front of the stream. */
  lemma ParseOne(body: seq<Byte>, nr: nat, tail: seq<Byte>, acc: seq<Byte>, maxPacket: nat, limit: nat)
    requires |body| <= MAX_PACKET_LENGTH && |acc| + |body| < limit
    ensures var need := |acc| + |body|;
      Parse(Header(|body|, nr) + body + tail, acc, maxPacket, limit) ==
      if |body| < MAX_PACKET_LENGTH then Packet(acc + body, tail, nr % 256)
      else Parse(tail, acc + body, if need >= maxPacket then RoundUp(need) else maxPacket, limit)
  {
    hide Header;
    var s := Header(|body|, nr) + body + tail;
    assert s == Header(|body|, nr) + (body + tail);
    HeaderReads(|body|, nr, body + tail);
    assert s[NET_HEADER_SIZE..NET_HEADER_SIZE + |body|] == body && s[NET_HEADER_SIZE + |body|..] == tail;
    assert body == [] ==> acc + body == acc && s[NET_HEADER_SIZE..] == tail;
  }

  /** Reading inverts writing for every payload below the limit, also one whose length is a multiple of
      the chunk size, and leaves what follows. */
  lemma {:induction false} ParseChunks(payload: seq<Byte>, nr: nat, counted: bool, rest: seq<Byte>, acc: seq<Byte>,
                                       maxPacket: nat, limit: nat)
    requires |acc| + |payload| < limit
    ensures Parse(Chunks(payload, nr, counted) + rest, acc, maxPacket, limit) ==
            Packet(acc + payload, rest, if counted then (nr + |payload| / MAX_PACKET_LENGTH) % 256 else 0)
    decreases |payload|
  {
    hide Parse, Header, RoundUp;
    var number := if counted then nr else 0;
    if |payload| < MAX_PACKET_LENGTH {
      ParseOne(payload, number, rest, acc, maxPacket, limit);
    } else {
      var first, others := payload[..MAX_PACKET_LENGTH], payload[MAX_PACKET_LENGTH..];
      var tail := Chunks(others, nr + 1, counted) + rest;
      assert Chunks(payload, nr, counted) + rest == Header(MAX_PACKET_LENGTH, number) + first + tail;
      ParseOne(first, number, tail, acc, maxPacket, limit);
      var need := |acc| + MAX_PACKET_LENGTH;
      ParseChunks(others, nr + 1, counted, rest, acc + first, if need >= maxPacket then RoundUp(need) else maxPacket, limit);
      assert acc + first + others == acc + payload;
      assert |payload| / MAX_PACKET_LENGTH == |others| / MAX_PACKET_LENGTH + 1;
    }
  }

  // ---- The bytes ----

  /** The wire format, byte by byte: three bytes of length, the least significant one first, a byte that counts, and so
      many bytes of payload; a chunk of 2^24 - 1 bytes is followed by another one. */
  predicate OnWire(w: seq<Byte>, payload: seq<Byte>, nr: nat, counted: bool)
    decreases |payload|
  {
    var n := if |payload| < 0xFF_FFFF then |payload| else 0xFF_FFFF;
    && |w| >= 4 + n
    && w[0] as nat + 256 * (w[1] as nat) + 65536 * (w[2] as nat) == n
    && w[3] as nat == (if counted then nr % 256 else 0)
    && w[4..4 + n] == payload[..n]
    && if n < 0xFF_FFFF then |w| == 4 + n else OnWire(w[4 + n..], payload[n..], nr + 1, counted)
  }

  lemma HeaderBytes(length: nat, nr: nat)
    requires length <= MAX_PACKET_LENGTH
    ensures var w := Header(length, nr);
      w[0] as nat + 256 * (w[1] as nat) + 65536 * (w[2] as nat) == length && w[3] as nat == nr % 256
  {
    assert length / 256 / 256 == length / 65536;
  }

  /** No other four bytes say the same. */
  lemma HeaderOnly(w: seq<Byte>, length: nat, nr: nat)
    requires |w| == 4 && length <= MAX_PACKET_LENGTH && w[3] as nat == nr % 256
    requires w[0] as nat + 256 * (w[1] as nat) + 65536 * (w[2] as nat) == length
    ensures w == Header(length, nr)
  {
    assert length % 256 == w[0] as nat && length / 256 % 256 == w[1] as nat && length / 65536 == w[2] as nat;
  }

  lemma ChunkBytes(body: seq<Byte>, number: nat, tail: seq<Byte>)
    requires |body| <= MAX_PACKET_LENGTH
    ensures var w, n := Header(|body|, number) + body + tail, |body|;
      && w[0] as nat + 256 * (w[1] as nat) + 65536 * (w[2] as nat) == n && w[3] as nat == number % 256
      && w[4..4 + n] == body && w[4 + n..] == tail && |w| == 4 + n + |tail|
  {
    hide Header;
    HeaderBytes(|body|, number);
  }

  lemma ChunkOnly(w: seq<Byte>, body: seq<Byte>, number: nat)
    requires |body| <= MAX_PACKET_LENGTH && |w| >= 4 + |body| && w[3] as nat == number % 256 && w[4..4 + |body|] == body
    requires w[0] as nat + 256 * (w[1] as nat) + 65536 * (w[2] as nat) == |body|
    ensures w == Header(|body|, number) + body + w[4 + |body|..]
  {
    hide Header;
    HeaderOnly(w[..4], |body|, number);
    assert w == w[..4] + w[4..4 + |body|] + w[4 + |body|..];
  }

  /** The chunks are the only bytes in the wire format. */
  lemma {:induction false} ChunksOnWire(w: seq<Byte>, payload: seq<Byte>, nr: nat, counted: bool)
    ensures OnWire(w, payload, nr, counted) <==> w == Chunks(payload, nr, counted)
    decreases |payload|
  {
    hide Header;
    var n, number := if |payload| < MAX_PACKET_LENGTH then |payload| else MAX_PACKET_LENGTH, if counted then nr else 0;
    var first := payload[..n];
    if n < MAX_PACKET_LENGTH {
      assert first == payload;
      ChunkBytes(payload, number, []);
      assert Header(n, number) + payload + [] == Chunks(payload, nr, counted);
      if OnWire(w, payload, nr, counted) { ChunkOnly(w, payload, number); }
    } else {
      var others := Chunks(payload[n..], nr + 1, counted);
      ChunkBytes(first, number, others);
      if OnWire(w, payload, nr, counted) {
        ChunksOnWire(w[4 + n..], payload[n..], nr + 1, counted);
        ChunkOnly(w, first, number);
      } else {
        ChunksOnWire(others, payload[n..], nr + 1, counted);
      }
    }
  }

  /** Bytes in the wire format are read as what they stand for, whatever follows. */
  lemma WireReads(w: seq<Byte>, payload: seq<Byte>, nr: nat, counted: bool, rest: seq<Byte>)
    requires OnWire(w, payload, nr, counted)
    ensures Next(w + rest) == Packet(payload, rest, if counted then (nr + |payload| / MAX_PACKET_LENGTH) % 256 else 0)
  {
    hide Parse, OnWire, Chunks;
    ChunksOnWire(w, payload, nr, counted);
    NotShorter(payload, nr, counted);
    ParseChunks(payload, nr, counted, rest, [], 0, |w + rest| + 1);
    assert [] + payload == payload;
  }

  lemma {:induction false} NotShorter(payload: seq<Byte>, nr: nat, counted: bool)
    ensures |Chunks(payload, nr, counted)| >= |payload| + NET_HEADER_SIZE
    decreases |payload|
  {
    if |payload| >= MAX_PACKET_LENGTH { NotShorter(payload[MAX_PACKET_LENGTH..], nr + 1, counted); }
  }
}

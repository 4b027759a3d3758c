/** What one end writes the other end reads. */
module Conversations {
  import opened Bytes
  import opened Packets
  import opened Frames
  import opened Pvios
  import opened Nets

  /** The chunks of several packets, numbered through. */
  function AllChunks(payloads: seq<seq<Byte>>, nr: nat): seq<Byte>
    decreases |payloads|
  {
    if |payloads| == 0 then []
    else Chunks(payloads[0], nr, true) + AllChunks(payloads[1..], nr + ChunkCount(|payloads[0]|))
  }

  lemma AllChunksFirst(payloads: seq<seq<Byte>>, i: nat, nr: nat)
    requires i < |payloads|
    ensures AllChunks(payloads[i..], nr) == Chunks(payloads[i], nr, true) + AllChunks(payloads[i + 1..], nr + ChunkCount(|payloads[i]|))
  {
    assert payloads[i..][1..] == payloads[i + 1..];
  }

  /** The size of packet that gets through: all that fit in the reader's limit, which with compression has to leave
      room for a frame more. */
  ghost predicate Fits(r: Net, length: nat) {
    if r.compress then length + (if length < MAX_PACKET_LENGTH then 1 else 2) * NET_HEADER_SIZE + MAX_PACKET_LENGTH <= r.maxPacketSize
    else length < r.maxPacketSize
  }

  /** Packets of a size that gets through and leaves the packets behind it alone: with compression a packet that ends
      with an empty chunk must be the last. */
  ghost predicate AllFit(r: Net, payloads: seq<seq<Byte>>) {
    forall i :: 0 <= i < |payloads| ==>
      Fits(r, |payloads[i]|) && (r.compress && EndsEmpty(|payloads[i]|) ==> i == |payloads| - 1)
  }

  /** Packets are written one after the other and flushed. */
  method SendAll(w: Net, payloads: seq<seq<Byte>>) returns (failed: bool)
    requires w.Valid()
    modifies w, w.pvio
    ensures w.Valid() && (failed ==> w.error == 2) && (w.pvio.Reliable() && old(w.error) != 2 ==> !failed)
    ensures !failed ==> w.error == old(w.error) && w.handed == old(w.Written()) + AllChunks(payloads, old(w.pktNr))
  {
    hide Net.Valid, Net.Written, Chunks, AllChunks, ChunkCount, Pvio.Reliable;
    ghost var w0, nr0 := w.Written(), w.pktNr;
    var i := 0;
    assert payloads[0..] == payloads;
    while i < |payloads|
      invariant 0 <= i <= |payloads| && w.Valid() && w.error == old(w.error)
      invariant w.Written() + AllChunks(payloads[i..], w.pktNr) == w0 + AllChunks(payloads, nr0)
    {
      AllChunksFirst(payloads, i, w.pktNr);
      ghost var was, nr := w.Written(), w.pktNr;
      failed := w.Write(payloads[i]);
      if failed { return; }
      assert was + Chunks(payloads[i], nr, true) + AllChunks(payloads[i + 1..], w.pktNr)
          == was + (Chunks(payloads[i], nr, true) + AllChunks(payloads[i + 1..], w.pktNr));
      i := i + 1;
    }
    NoChunks(payloads[i..], w.pktNr);
    failed := w.Flush();
  }

  lemma NoChunks(payloads: seq<seq<Byte>>, nr: nat)
    requires |payloads| == 0
    ensures AllChunks(payloads, nr) == []
  {
  }

  /** What a reader still has to read, without its frames if there are any. */
  ghost function ToRead(r: Net): seq<Byte>
    reads r, r.pvio
  {
    if r.compress then r.PlainAhead() else r.pvio.Ahead()
  }

  ghost predicate Readable(r: Net)
    reads r, r.pvio
  {
    r.pvio.Valid() && if r.compress then r.Rested() else r.whereB == 0
  }

  /** The byte behind a packet is lost: the packet ends with an empty chunk, and the frame that brings it brings more. */
  ghost predicate Loses(r: Net, length: nat, rest: seq<Byte>)
    reads r, r.pvio
  {
    r.compress && EndsEmpty(length) && LeftBehind(|r.Pending()|, r.codec, r.pvio.Ahead(), rest) > 0
  }

  /** One packet is read, whether written as a payload or as a command. The rest of the stream is as it was, if and only
      if no byte is lost or the byte was zero. */
  method Receive(r: Net, ghost payload: seq<Byte>, ghost nr: nat, ghost counted: bool, ghost rest: seq<Byte>)
    returns (got: seq<Byte>)
    requires Readable(r) && r.pvio.Reliable() && Fits(r, |payload|) && ToRead(r) == Chunks(payload, nr, counted) + rest
    modifies r, r.pvio
    ensures Readable(r) && got == payload && ToRead(r) == Spoiled(rest, old(Loses(r, |payload|, rest)))
    ensures ToRead(r) == rest <==> (old(Loses(r, |payload|, rest)) && rest != [] ==> rest[0] == 0)
  {
    hide Pvio.Ahead, Pvio.Valid, Pvio.Reliable, Parse, Plain, Net.PlainAhead, Uint3, Chunks, EndsEmpty, LeftBehind, Net.Pending;
    var len;
    assert [] + payload == payload;
    if r.compress {
      ghost var all := Chunks(payload, nr, counted) + rest;
      NotShorter(payload, nr, counted);
      ParseChunks(payload, nr, counted, rest, [], 0, |all| + 1);
      ghost var broken;
      len, broken := r.ReadCompressed();
    } else {
      ParseChunks(payload, nr, counted, rest, [], r.maxPacket, r.maxPacketSize);
      len := r.ReadUncompressed();
    }
    got := r.buff[r.readPos..r.readPos + len];
    SpoiledIff(rest);
  }

  /** What is left of two frames when the packet ends in the second. */
  lemma TwoFrames(c: Codec, first: seq<Byte>, second: seq<Byte>, rest: seq<Byte>)
    requires c.Sound() && |first| <= MAX_PACKET_LENGTH && |second| <= MAX_PACKET_LENGTH && |rest| < |second|
    ensures var s := Frame(c, first, 0) + Frame(c, second, 1);
      Plain(c, s) == first + second && LeftBehind(0, c, s, rest) == |rest|
  {
    hide Codec.Sound, Frame, Complete, Uncompressed, Content, After;
    var f2 := Frame(c, second, 1);
    FrameReads(c, first, 0, f2);
    FrameReads(c, second, 1, []);
    EmptyStream(c);
    assert f2 + [] == f2 && second + [] == second;
    var s, n := Frame(c, first, 0) + f2, |first| + |second| - |rest|;
    assert LeftOver(|first| + |second|, c, [], n) == |rest|;
    assert LeftOver(|first|, c, f2, n) == LeftOver(|first| + |second|, c, After(f2), n);
    assert LeftOver(0, c, s, n) == LeftOver(0 + |Content(c, s)|, c, After(s), n);
  }

  /** Such a stream: a payload of the chunk size, its empty chunk and another packet, the last three in one frame. */
  lemma ByteIsLost(c: Codec, payload: seq<Byte>, nr: nat)
    requires c.Sound() && |payload| == MAX_PACKET_LENGTH
    ensures var all := Chunks(payload, nr, true) + Chunks([1], nr + 2, true);
      && |all| >= MAX_PACKET_LENGTH && |all| - MAX_PACKET_LENGTH <= MAX_PACKET_LENGTH
      && var s := Frame(c, all[..MAX_PACKET_LENGTH], 0) + Frame(c, all[MAX_PACKET_LENGTH..], 1);
        && Plain(c, s) == all && Next(all).Packet? && Next(all).payload == payload && EndsEmpty(|payload|)
        && LeftBehind(0, c, s, Next(all).rest) > 0 && Spoiled(Next(all).rest, true) != Next(all).rest
  {
    hide Codec.Sound, Frame, Plain, Parse, LeftBehind;
    var rest := Chunks([1], nr + 2, true);
    assert payload[MAX_PACKET_LENGTH..] == [];
    var all := Chunks(payload, nr, true) + rest;
    ParseChunks(payload, nr, true, rest, [], 0, |all| + 1);
    assert [] + payload == payload;
    TwoFrames(c, all[..MAX_PACKET_LENGTH], all[MAX_PACKET_LENGTH..], rest);
    assert all[..MAX_PACKET_LENGTH] + all[MAX_PACKET_LENGTH..] == all;
    assert rest[0] == 1;
    SpoiledIff(rest);
  }

  lemma SpoiledIff(s: seq<Byte>)
    ensures Spoiled(s, true) == s <==> (s != [] ==> s[0] == 0)
  {
    if s != [] {
      assert s == [s[0]] + s[1..];
    }
  }

  /** A packet whose first byte became zero: the length read is smaller by that byte, so it is cut short and what
      follows is taken for the next packet. */
  lemma CutShort(payload: seq<Byte>, nr: nat, counted: bool, rest: seq<Byte>) returns (got: seq<Byte>, nr': nat, rest': seq<Byte>)
    requires (Chunks(payload, nr, counted) + rest)[0] != 0
    ensures Spoiled(Chunks(payload, nr, counted) + rest, true) == Chunks(got, nr', true) + rest' && |got| < |payload|
  {
    hide Chunks, Uint3, Int3;
    var s := Chunks(payload, nr, counted) + rest;
    ChunkInFront(payload, nr, counted, rest);
    var s', length := Spoiled(s, true), Uint3(s) - s[0] as nat;
    ShorterLength(s);
    got, nr', rest' := s'[NET_HEADER_SIZE..NET_HEADER_SIZE + length], s[3] as nat, s'[NET_HEADER_SIZE + length..];
    HeaderAgain(s', length);
    ShortChunk(got, nr');
    assert s' == s'[..NET_HEADER_SIZE] + (got + rest');
  }

  lemma ChunkInFront(payload: seq<Byte>, nr: nat, counted: bool, rest: seq<Byte>)
    ensures var s := Chunks(payload, nr, counted) + rest;
      |s| >= NET_HEADER_SIZE + Uint3(s) && Uint3(s) <= |payload| && Uint3(s) <= MAX_PACKET_LENGTH
  {
    hide Header, Uint3;
    var s, number := Chunks(payload, nr, counted) + rest, if counted then nr else 0;
    if |payload| < MAX_PACKET_LENGTH {
      assert s == Header(|payload|, number) + (payload + rest);
      HeaderReads(|payload|, number, payload + rest);
    } else {
      var tail := payload[..MAX_PACKET_LENGTH] + Chunks(payload[MAX_PACKET_LENGTH..], nr + 1, counted) + rest;
      assert s == Header(MAX_PACKET_LENGTH, number) + tail;
      HeaderReads(MAX_PACKET_LENGTH, number, tail);
    }
  }

  lemma ShorterLength(s: seq<Byte>)
    requires |s| >= NET_HEADER_SIZE && s[0] != 0
    ensures var s' := Spoiled(s, true); |s'| == |s| && Uint3(s') == Uint3(s) - s[0] as nat && s'[3] == s[3] && s'[0] == 0
  {
    var s' := Spoiled(s, true);
    assert s'[1] == s[1] && s'[2] == s[2] && s'[3] == s[3];
  }

  lemma HeaderAgain(s: seq<Byte>, length: nat)
    requires |s| >= NET_HEADER_SIZE && length == Uint3(s) <= MAX_PACKET_LENGTH
    ensures Header(length, s[3] as nat) == s[..NET_HEADER_SIZE]
  {
    var n := s[0] as nat + 256 * (s[1] as nat) + 0x1_0000 * (s[2] as nat);
    assert n % 256 == s[0] as nat && n / 256 % 256 == s[1] as nat && n / 0x1_0000 == s[2] as nat;
  }

  lemma ShortChunk(got: seq<Byte>, nr: nat)
    requires |got| < MAX_PACKET_LENGTH
    ensures Chunks(got, nr, true) == Header(|got|, nr) + got
  {
  }

  /** Two packets: the second comes back if and only if no byte of it is lost behind the first, or that byte is zero. */
  method ReceiveTwo(r: Net, ghost first: seq<Byte>, ghost second: seq<Byte>, ghost nr: nat, ghost nr2: nat, ghost rest: seq<Byte>)
    returns (got1: seq<Byte>, got2: seq<Byte>)
    requires Readable(r) && r.pvio.Reliable() && Fits(r, |first|) && Fits(r, |second|)
    requires ToRead(r) == Chunks(first, nr, true) + (Chunks(second, nr2, true) + rest)
    modifies r, r.pvio
    ensures Readable(r) && got1 == first
    ensures got2 == second <==>
            (old(Loses(r, |first|, Chunks(second, nr2, true) + rest)) ==> (Chunks(second, nr2, true) + rest)[0] == 0)
  {
    hide Readable, ToRead, Chunks, Pvio.Reliable, Loses, Spoiled;
    ghost var s := Chunks(second, nr2, true) + rest;
    ghost var lost := Loses(r, |first|, s);
    NotShorter(second, nr2, true);
    got1 := Receive(r, first, nr, true, s);
    ghost var next, nr', rest' := second, nr2, rest;
    if lost && s[0] != 0 {
      next, nr', rest' := CutShort(second, nr2, true, rest);
    }
    got2 := Receive(r, next, nr', true, rest');
  }

  /** A frame that says it is compressed and is not, to a reader that holds nothing. */
  lemma NotCompressed(c: Codec, body: seq<Byte>, nr: nat, complen: nat)
    requires c.inflate(body).None? && |body| <= MAX_PACKET_LENGTH && 0 < complen <= MAX_PACKET_LENGTH
    ensures var s := Header(|body|, nr) + Int3(complen) + body;
      Broken(c, s) && Plain(c, s) == [] && !Next(Plain(c, s)).Packet?
  {
    hide Header, Int3, Uint3, After;
    var s := Header(|body|, nr) + Int3(complen) + body;
    FrameParts(|body|, nr, complen, body, []);
    assert s + [] == s;
  }

  /** Every packet of a run comes back, in order. */
  method ReceiveAll(r: Net, ghost payloads: seq<seq<Byte>>, count: nat, ghost nr: nat, ghost rest: seq<Byte>)
    returns (got: seq<seq<Byte>>)
    requires Readable(r) && r.pvio.Reliable() && count == |payloads| && AllFit(r, payloads)
    requires ToRead(r) == AllChunks(payloads, nr) + rest
    requires r.compress && |payloads| > 0 && EndsEmpty(|payloads[|payloads| - 1]|) ==> rest == []
    modifies r, r.pvio
    ensures Readable(r) && got == payloads && ToRead(r) == rest
  {
    hide Readable, ToRead, Chunks, AllChunks, ChunkCount, Fits, Pvio.Reliable, EndsEmpty;
    got := [];
    ghost var next: nat := nr;
    assert payloads[0..] == payloads;
    while |got| < count
      invariant Readable(r) && |got| <= count && got == payloads[..|got|]
      invariant ToRead(r) == AllChunks(payloads[|got|..], next) + rest
    {
      ghost var i := |got|;
      AllChunksFirst(payloads, i, next);
      ghost var more := AllChunks(payloads[i + 1..], next + ChunkCount(|payloads[i]|));
      assert ToRead(r) == Chunks(payloads[i], next, true) + (more + rest);
      var one := Receive(r, payloads[i], next, true, more + rest);
      if i == count - 1 { NoChunks(payloads[i + 1..], next + ChunkCount(|payloads[i]|)); }
      got := got + [one];
      next := next + ChunkCount(|payloads[i]|);
    }
    NoChunks(payloads[count..], next);
    assert [] + rest == rest;
  }

  /** Writer and idle reader of one connection. */
  ghost predicate Connected(w: Net, r: Net)
    reads w, w.pvio, r, r.pvio
  {
    && w.Valid() && w.Written() == [] && w.error == 0
    && Readable(r) && r.pvio.Ahead() == [] && ToRead(r) == []
    && w != r && w.pvio != r.pvio && w.compress == r.compress && w.codec == r.codec
    && r.pvio.Reliable()
  }

  /** What was handed over arrives at the reader. */
  method Deliver(w: Net, r: Net)
    requires Readable(r) && r.pvio.Ahead() == [] && ToRead(r) == [] && w != r && w.pvio != r.pvio
    requires w.compress == r.compress && w.codec == r.codec && w.Sent()
    modifies r.pvio`incoming
    ensures Readable(r) && ToRead(r) == w.handed
  {
    r.pvio.incoming := r.pvio.incoming + w.pvio.wire;
    Delivered(r, w.pvio.wire);
  }

  /** The round trip: whatever is written at one end of a connection is read at the other, packet by packet, for
      every fragmentation of the writes and of the reads, with and without compression. */
  method Exchange(w: Net, r: Net, payloads: seq<seq<Byte>>) returns (failed: bool, got: seq<seq<Byte>>)
    requires Connected(w, r) && AllFit(r, payloads)
    modifies w, w.pvio, r, r.pvio
    ensures w.pvio.Reliable() ==> !failed
    ensures !failed ==> got == payloads && ToRead(r) == []
  {
    hide ToRead, Pvio.Ahead, AllFit, AllChunks;
    ghost var nr := w.pktNr;
    failed := SendAll(w, payloads);
    got := [];
    if failed { return; }
    Deliver(w, r);
    assert w.handed == AllChunks(payloads, nr) + [];
    got := ReceiveAll(r, payloads, |payloads|, nr, []);
  }

  /** The round trip of a command: the other end reads the command byte followed by its data, for every length. */
  method ExchangeCommand(w: Net, r: Net, command: Byte, packet: seq<Byte>) returns (failed: bool, got: seq<Byte>)
    requires Connected(w, r) && Fits(r, 1 + |packet|)
    modifies w, w.pvio, r, r.pvio
    ensures w.pvio.Reliable() ==> !failed
    ensures !failed ==> got == [command] + packet && ToRead(r) == []
  {
    hide ToRead, Pvio.Ahead, Fits, Chunks, Net.Sent;
    ghost var nr := w.pktNr;
    failed := w.WriteCommand(command, packet, false);
    got := [];
    if failed { return; }
    assert w.handed == w.Written();
    Deliver(w, r);
    assert w.handed == Chunks([command] + packet, nr, !w.compress) + [];
    got := Receive(r, [command] + packet, nr, !w.compress, []);
  }

  /** Bytes that arrive at an idle reader are all it has to read. */
  lemma Delivered(r: Net, wire: seq<Byte>)
    requires r.pvio.Unread() == [] && r.pvio.incoming == wire && (r.compress ==> r.Pending() == [])
    ensures ToRead(r) == if r.compress then Plain(r.codec, wire) else wire
  {
    assert [] + wire == wire && [] + Plain(r.codec, wire) == Plain(r.codec, wire);
  }
}

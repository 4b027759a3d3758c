/** Packets over a transport: the buffered writer and the reassembling reader. */
module Nets {
  import opened Bytes
  import opened Packets
  import opened Frames
  import opened Pvios

  const PACKET_ERROR: int := -1

  /** `NET`, without the OceanBase 2.0 protocol. */
  class Net {
    const pvio: Pvio
    const compress: bool
    const codec: Codec
    const maxPacketSize: nat
    var buff: seq<Byte>
    var writePos: nat
    var readPos: nat
    var maxPacket: nat
    var pktNr: nat
    var compressPktNr: nat
    var error: nat
    var whereB: nat
    var remainInBuf: nat
    var bufLength: nat
    var saveChar: Byte
    /** The size of the memory behind the buffer. */
    var memSize: nat
    /** Whether everything the reader wrote was inside that memory. */
    ghost var inside: bool
    /** All bytes given to `RealWrite`, in order. */
    ghost var handed: seq<Byte>

    /** The bytes on the wire are the bytes handed over, in frames if compressed. */
    ghost predicate Sent()
      reads this`handed, pvio`wire
    {
      if compress then Whole(codec, pvio.wire) && Plain(codec, pvio.wire) == handed else pvio.wire == handed
    }

    /** The buffered amount never exceeds the capacity; unless an I/O error occurred the wire is in order. */
    ghost predicate Valid()
      reads this, pvio
    {
      && pvio.Valid() && codec.Sound()
      && writePos <= |buff| && writePos <= maxPacket && (compress ==> writePos <= MAX_PACKET_LENGTH)
      && (error != 2 ==> Sent())
    }

    /** What has been written: bytes handed over followed by bytes still buffered. */
    ghost function Written(): seq<Byte>
      reads this`handed, this`buff, this`writePos
    {
      handed + (if writePos <= |buff| then buff[..writePos] else [])
    }

    /** `ma_net_init`. */
    constructor (pvio: Pvio, compress: bool, codec: Codec, bufferLength: nat, maxPacketSize: nat)
      requires pvio.Valid() && pvio.wire == [] && codec.Sound()
      ensures Valid() && this.pvio == pvio && this.compress == compress && this.maxPacketSize == maxPacketSize
      ensures writePos == 0 && handed == [] && error == 0 && remainInBuf == 0
      ensures whereB == 0 && maxPacket == bufferLength && pktNr == 0 && memSize == bufferLength && inside
    {
      this.pvio, this.compress, this.codec, this.maxPacketSize := pvio, compress, codec, maxPacketSize;
      buff, maxPacket := seq(bufferLength, _ => 0), bufferLength;
      writePos, readPos, pktNr, compressPktNr, error, whereB, remainInBuf, bufLength, saveChar := 0, 0, 0, 0, 0, 0, 0, 0, 0;
      handed, memSize, inside := [], bufferLength, true;
    }

    // ---- Writing ----

    /** The write loop of `ma_net_real_write`: the transport takes the bytes piece by piece. */
    method SendBytes(out: seq<Byte>) returns (failed: bool)
      modifies this`error, pvio`wire, pvio`writeCalls
      ensures if failed then error == 2 else error == old(error) && pvio.wire == old(pvio.wire) + out
      ensures pvio.Reliable() ==> !failed
    {
      hide Pvio.Reliable;
      var pos := 0;
      while pos < |out|
        invariant 0 <= pos <= |out| && error == old(error)
        invariant pvio.wire == old(pvio.wire) + out[..pos]
      {
        var n := pvio.Write(out[pos..]);
        if n == 0 {
          error := 2;
          return true;
        }
        assert out[..pos] + out[pos..][..n] == out[..pos + n];
        pos := pos + n;
      }
      assert out[..pos] == out;
      return false;
    }

    /** `ma_net_real_write`: everything goes to the transport, as one frame if compressed. */
    method RealWrite(packet: seq<Byte>) returns (failed: bool)
      requires pvio.Valid() && codec.Sound() && (error != 2 ==> Sent()) && (compress ==> |packet| <= MAX_PACKET_LENGTH)
      modifies this`error, this`compressPktNr, this`handed, pvio`wire, pvio`writeCalls
      ensures pvio.Valid() && (error != 2 ==> Sent())
      ensures if failed then error == 2 else error == old(error) && handed == old(handed) + packet
      ensures !failed ==> compressPktNr == old(compressPktNr) + (if compress then 1 else 0)
      ensures !failed ==> pvio.wire == old(pvio.wire) + (if compress then Frame(codec, packet, old(compressPktNr)) else packet)
      ensures !failed && compress ==>
        |pvio.wire| >= |old(pvio.wire)| && FrameOnWire(codec, pvio.wire[|old(pvio.wire)|..], packet, old(compressPktNr))
      ensures pvio.Reliable() && old(error) != 2 ==> !failed
    {
      hide Frame, Plain, Whole, Codec.Sound, Pvio.Reliable, FrameOnWire;
      if error == 2 { return true; }
      var out := packet;
      if compress {
        FrameBytes(codec, packet, compressPktNr);
        out := Frame(codec, packet, compressPktNr);
        PlainFrame(codec, pvio.wire, packet, compressPktNr);
        compressPktNr := compressPktNr + 1;
      }
      failed := SendBytes(out);
      if failed { return; }
      assert pvio.wire[|old(pvio.wire)|..] == out;
      handed := handed + packet;
      return false;
    }

    /** The part of `ma_net_write_buff` for data that does not fit: the buffer is filled up and written. */
    method WriteFull(packet: seq<Byte>, left: nat) returns (failed: bool, rest: seq<Byte>)
      requires Valid() && left < |packet| && writePos + left <= maxPacket
      requires (compress ==> writePos + left <= MAX_PACKET_LENGTH)
      modifies this`buff, this`writePos, this`error, this`compressPktNr, this`handed, pvio`wire, pvio`writeCalls
      ensures Valid() && (failed ==> error == 2) && (pvio.Reliable() && old(error) != 2 ==> !failed)
      ensures !failed ==> writePos == 0 && error == old(error) && handed + rest == old(Written()) + packet
      ensures |rest| <= |packet|
    {
      hide Frame, Sent, Plain, Whole, Codec.Sound, Pvio.Reliable, FrameOnWire;
      rest := packet;
      if writePos != 0 {
        buff := Put(buff, writePos, packet[..left]);
        var full := buff[..writePos + left];
        assert full == old(buff[..writePos]) + packet[..left];
        failed := RealWrite(full);
        if failed { return; }
        rest := packet[left..];
        writePos := 0;
        Refilled(old(handed), old(buff[..writePos]), packet, left);
      } else {
        failed := false;
        assert old(Written()) == handed;
      }
    }

    /** With compression no more than a frame can hold is written at a time. */
    method WriteFrames(packet: seq<Byte>) returns (failed: bool, rest: seq<Byte>)
      requires Valid() && compress && writePos == 0
      modifies this`error, this`compressPktNr, this`handed, pvio`wire, pvio`writeCalls
      ensures Valid() && (failed ==> error == 2) && (pvio.Reliable() && old(error) != 2 ==> !failed)
      ensures !failed ==> error == old(error) && handed + rest == old(handed) + packet && |rest| <= MAX_PACKET_LENGTH
      ensures |rest| <= |packet|
    {
      hide Frame, Sent, Plain, Whole, Codec.Sound, Pvio.Reliable, FrameOnWire;
      rest := packet;
      while |rest| > MAX_PACKET_LENGTH
        invariant Valid() && error == old(error) && handed + rest == old(handed) + packet && |rest| <= |packet|
      {
        failed := RealWrite(rest[..MAX_PACKET_LENGTH]);
        if failed { return; }
        assert rest == rest[..MAX_PACKET_LENGTH] + rest[MAX_PACKET_LENGTH..];
        rest := rest[MAX_PACKET_LENGTH..];
      }
      failed := false;
    }

    /** How much the buffer takes; with compression no more than a frame. */
    ghost function Capacity(): nat
      reads this`maxPacket
    {
      if compress && maxPacket > 0xFF_FFFF then 0xFF_FFFF else maxPacket
    }

    /** `ma_net_write_buff`: no byte is lost, repeated or reordered. Nothing is sent while the buffer has room, otherwise
        at least all that was in it. */
    method WriteBuff(packet: seq<Byte>) returns (failed: bool)
      requires Valid()
      modifies this`buff, this`writePos, this`error, this`compressPktNr, this`handed, pvio`wire, pvio`writeCalls
      ensures Valid() && (failed ==> error == 2) && (pvio.Reliable() && old(error) != 2 ==> !failed)
      ensures !failed ==> error == old(error) && Written() == old(Written()) + packet
      ensures !failed ==>
        if old(writePos) + |packet| <= Capacity() then handed == old(handed) && pvio.wire == old(pvio.wire)
        else |handed| >= |old(Written())|
    {
      hide Frame, Sent, Plain, Whole, Codec.Sound, Pvio.Reliable, FrameOnWire;
      if |packet| == 0 {
        assert old(Written()) + packet == old(Written());
        return false;
      }
      var left := if maxPacket > MAX_PACKET_LENGTH && compress then MAX_PACKET_LENGTH - writePos else maxPacket - writePos;
      var rest := packet;
      if |packet| > left {
        failed, rest := WriteFull(packet, left);
        if failed { return; }
        if compress {
          failed, rest := WriteFrames(rest);
          if failed { return; }
        }
        if |rest| > maxPacket {
          failed := RealWrite(rest);
          assert !failed ==> Written() == handed;
          return;
        }
      }
      ghost var was := buff[..writePos];
      buff := Put(buff, writePos, rest);
      writePos := writePos + |rest|;
      assert buff[..writePos] == was + rest;
      return false;
    }

    /** One chunk goes to the buffer. */
    method WriteChunk(length: nat, nr: nat, head: seq<Byte>, body: seq<Byte>) returns (failed: bool)
      requires Valid() && length == |head| + |body| <= MAX_PACKET_LENGTH
      modifies this`buff, this`writePos, this`error, this`compressPktNr, this`handed, pvio`wire, pvio`writeCalls
      ensures Valid() && (failed ==> error == 2) && (pvio.Reliable() && old(error) != 2 ==> !failed)
      ensures !failed ==> error == old(error) && Written() == old(Written()) + (Header(length, nr) + (head + body))
    {
      hide Plain, Whole, Codec.Sound, Pvio.Reliable, Written, Header;
      failed := WriteBuff(Header(length, nr) + head);
      if failed { return; }
      failed := WriteBuff(body);
      ghost var w, h := old(Written()), Header(length, nr);
      assert w + (h + head) + body == w + (h + (head + body));
    }

    /** `ma_net_write`: the chunks of the payload, numbered on from the packet number. */
    method Write(payload: seq<Byte>) returns (failed: bool)
      requires Valid()
      modifies this`buff, this`writePos, this`error, this`compressPktNr, this`handed, this`pktNr, pvio`wire, pvio`writeCalls
      ensures Valid() && (failed ==> error == 2) && (pvio.Reliable() && old(error) != 2 ==> !failed)
      ensures !failed ==> error == old(error) && Written() == old(Written()) + Chunks(payload, old(pktNr), true)
      ensures !failed ==> pktNr == old(pktNr) + ChunkCount(|payload|)
      ensures !failed ==> Added(old(Written()), Written(), payload, old(pktNr), true)
      ensures !failed && |payload| < 0xFF_FFFF ==>
        var w := Written()[|old(Written())|..];
        && |w| == 4 + |payload|
        && w[0] as nat + 256 * (w[1] as nat) + 65536 * (w[2] as nat) == |payload|
        && w[3] as nat == old(pktNr) % 256 && w[4..] == payload
    {
      hide Plain, Whole, Codec.Sound, Pvio.Reliable, Written, Header, Chunks, ChunkCount, Added;
      var rest := payload;
      while |rest| >= MAX_PACKET_LENGTH
        invariant Valid() && error == old(error)
        invariant Written() + Chunks(rest, pktNr, true) == old(Written()) + Chunks(payload, old(pktNr), true)
        invariant pktNr + ChunkCount(|rest|) == old(pktNr) + ChunkCount(|payload|)
      {
        var nr := pktNr;
        pktNr := pktNr + 1;
        ghost var w := Written();
        failed := WriteChunk(MAX_PACKET_LENGTH, nr, [], rest[..MAX_PACKET_LENGTH]);
        if failed { return; }
        NextChunk(w, rest, nr, true);
        rest := rest[MAX_PACKET_LENGTH..];
      }
      var nr := pktNr;
      pktNr := pktNr + 1;
      LastChunk(rest, nr, true);
      failed := WriteChunk(|rest|, nr, [], rest);
      if !failed { AddedBytes(old(Written()), Written(), payload, old(pktNr), true); }
    }

    /** The chunks of `ma_net_write_command`. */
    method CommandChunks(command: Byte, packet: seq<Byte>) returns (failed: bool)
      requires Valid()
      modifies this`buff, this`writePos, this`error, this`compressPktNr, this`handed, this`pktNr, pvio`wire, pvio`writeCalls
      ensures Valid() && (failed ==> error == 2) && (pvio.Reliable() && old(error) != 2 ==> !failed)
      ensures !failed ==> error == old(error) && Written() == old(Written()) + Chunks([command] + packet, old(pktNr), !compress)
      ensures !failed ==> pktNr == if compress then old(pktNr) else old(pktNr) + ChunkCount(1 + |packet|)
    {
      hide Plain, Whole, Codec.Sound, Pvio.Reliable, Written, Header, Chunks, ChunkCount;
      ghost var payload := [command] + packet;
      var length := 1 + |packet|;
      var head, rest := [command], packet;
      while length >= MAX_PACKET_LENGTH
        invariant Valid() && error == old(error) && length == |head| + |rest| && |head| <= 1
        invariant if compress then pktNr == old(pktNr) else pktNr + ChunkCount(length) == old(pktNr) + ChunkCount(1 + |packet|)
        invariant Written() + Chunks(head + rest, pktNr, !compress) == old(Written()) + Chunks(payload, old(pktNr), !compress)
      {
        var nr := if compress then 0 else pktNr;
        ghost var w, number := Written(), pktNr;
        pktNr := if compress then pktNr else pktNr + 1;
        var len := MAX_PACKET_LENGTH - |head|;
        failed := WriteChunk(MAX_PACKET_LENGTH, nr, head, rest[..len]);
        if failed { return; }
        SplitBehind(head, rest, len);
        NextChunk(w, head + rest, number, !compress);
        UncountedChunks(rest[len..], number + 1, pktNr, !compress);
        head, rest := [], rest[len..];
        length := length - MAX_PACKET_LENGTH;
      }
      var nr := if compress then 0 else pktNr;
      LastChunk(head + rest, pktNr, !compress);
      assert [] + (head + rest) == head + rest;
      pktNr := if compress then pktNr else pktNr + 1;
      failed := WriteChunk(length, nr, head, rest);
    }

    /** `ma_net_write_command`: as for the payload with the command byte in front; compressed chunks carry number 0. */
    method WriteCommand(command: Byte, packet: seq<Byte>, disableFlush: bool) returns (failed: bool)
      requires Valid()
      modifies this`buff, this`writePos, this`error, this`compressPktNr, this`handed, this`pktNr, pvio`wire, pvio`writeCalls
      ensures Valid() && (failed ==> error == 2) && (pvio.Reliable() && old(error) != 2 ==> !failed)
      ensures !failed ==> error == old(error) && Written() == old(Written()) + Chunks([command] + packet, old(pktNr), !compress)
      ensures !failed ==> Added(old(Written()), Written(), [command] + packet, old(pktNr), !compress)
      ensures !failed && !disableFlush ==> writePos == 0
      ensures !failed && !compress ==> pktNr == old(pktNr) + ChunkCount(1 + |packet|)
      ensures !failed && compress && disableFlush ==> pktNr == old(pktNr)
    {
      hide Valid, Written, Chunks, ChunkCount, Pvio.Reliable, Added;
      failed := CommandChunks(command, packet);
      if !failed { AddedBytes(old(Written()), Written(), [command] + packet, old(pktNr), !compress); }
      if !failed && !disableFlush {
        failed := Flush();
      }
    }

    /** `ma_net_flush`. */
    method Flush() returns (failed: bool)
      requires Valid()
      modifies this`writePos, this`error, this`compressPktNr, this`handed, this`pktNr, pvio`wire, pvio`writeCalls
      ensures Valid() && writePos == 0 && (failed ==> error == 2) && (pvio.Reliable() && old(error) != 2 ==> !failed)
      ensures !failed ==> error == old(error) && Written() == handed == old(Written())
      ensures pktNr == if compress then compressPktNr else old(pktNr)
    {
      hide Frame, Sent, Plain, Whole, Codec.Sound, Pvio.Reliable, FrameOnWire;
      failed := false;
      if writePos != 0 {
        failed := RealWrite(buff[..writePos]);
        writePos := 0;
      }
      assert Written() == handed;
      if compress {
        pktNr := compressPktNr;
      }
    }

    // ---- Reading ----

    /** The read loop of `ma_real_read`: the next `count` bytes of the stream go to position pos of the buffer. */
    method Fill(pos: nat, count: nat) returns (ok: bool)
      requires pvio.Valid() && pos <= |buff|
      modifies this`buff, this`inside,
        pvio`readCalls, pvio`incoming, pvio`cache, pvio`cachePos, pvio`cacheSize, pvio`consumed, pvio`returned
      ensures pvio.Valid() && |buff| >= pos && buff[..pos] == old(buff[..pos])
      ensures (inside ==> old(inside)) && (old(inside) && pos + count <= memSize ==> inside)
      ensures ok && count > 0 ==> (inside <==> old(inside) && pos + count <= memSize)
      ensures ok ==> count <= |old(pvio.Ahead())| && pvio.Ahead() == old(pvio.Ahead())[count..]
      ensures ok ==> |buff| >= pos + count && buff[pos..pos + count] == old(pvio.Ahead())[..count]
      ensures pvio.Reliable() ==> (ok <==> count <= |old(pvio.Ahead())|)
    {
      hide Put, Pvio.Ahead, Pvio.Valid, Pvio.Reliable;
      ghost var all := pvio.Ahead();
      var got := 0;
      while got < count
        invariant 0 <= got <= count && got <= |all| && pvio.Valid() && pvio.Ahead() == all[got..]
        invariant |buff| >= pos + got && buff[..pos] == old(buff[..pos]) && buff[pos..pos + got] == all[..got]
        invariant inside <==> old(inside) && (got == 0 || pos + got <= memSize)
      {
        var data := pvio.CacheRead(count - got);
        if |data| == 0 { return false; }
        ghost var before := buff;
        buff := Put(buff, pos + got, data);
        NextBytes(all, got, data, pvio.Ahead());
        assert buff[..pos] == buff[..pos + got][..pos] && before[..pos] == before[..pos + got][..pos];
        assert buff[pos..pos + got + |data|] == buff[..pos + got][pos..] + buff[pos + got..pos + got + |data|];
        assert before[..pos + got][pos..] == before[pos..pos + got];
        got := got + |data|;
        inside := inside && pos + got <= memSize;
      }
      return true;
    }

    /** `net_realloc`: the buffer grows to a multiple of the I/O size. */
    method Realloc(length: nat) returns (failed: bool)
      modifies this`error, this`maxPacket, this`writePos, this`memSize
      ensures failed == (length >= maxPacketSize)
      ensures failed ==> error == 1 && maxPacket == old(maxPacket) && writePos == old(writePos) && memSize == old(memSize)
      ensures !failed ==> error == old(error) && maxPacket == RoundUp(length) && writePos == 0
      ensures !failed ==> memSize == maxPacket + COMP_HEADER_SIZE
    {
      if length >= maxPacketSize {
        error := 1;
        return true;
      }
      maxPacket, writePos, memSize := RoundUp(length), 0, RoundUp(length) + COMP_HEADER_SIZE;
      return false;
    }

    ghost function HeaderSize(): nat {
      if compress then COMP_HEADER_SIZE else NET_HEADER_SIZE
    }

    /** The size the buffer must exceed for the chunk at the front of the stream s. */
    ghost function Need(s: seq<Byte>): nat
      requires |s| >= HeaderSize()
      reads this`whereB
    {
      var complen := if compress then Uint3(s[NET_HEADER_SIZE..]) else 0;
      whereB + if Uint3(s) > complen then Uint3(s) else complen
    }

    /** The first buffer has no room behind the packet size, one that has grown has room for a header. */
    ghost predicate Sized()
      reads this`maxPacket, this`memSize
    {
      memSize == maxPacket || memSize == maxPacket + COMP_HEADER_SIZE
    }

    ghost predicate Grown()
      reads this`maxPacket, this`memSize
    {
      memSize == maxPacket + COMP_HEADER_SIZE
    }

    /** A buffer for uncompressed packets: the first one holds a header and no more than a chunk. */
    ghost predicate Roomy()
      reads this`maxPacket, this`memSize
    {
      Sized() && memSize >= NET_HEADER_SIZE && (memSize == maxPacket ==> maxPacket <= MAX_PACKET_LENGTH)
    }

    /** `ma_real_read`: one chunk or frame at the front of the stream, its body put at `whereB`. */
    method RealRead() returns (len: int, complen: nat)
      requires pvio.Valid() && whereB <= |buff|
      modifies this`buff, this`pktNr, this`compressPktNr, this`error, this`maxPacket, this`writePos,
        this`memSize, this`inside, pvio`readCalls, pvio`incoming, pvio`cache, pvio`cachePos, pvio`cacheSize, pvio`consumed, pvio`returned
      ensures pvio.Valid() && |buff| >= whereB && buff[..whereB] == old(buff[..whereB])
      ensures writePos == old(writePos) || writePos == 0
      ensures len == PACKET_ERROR || len >= 0
      ensures len >= 0 ==> GoodRead(old(pvio.Ahead()), pvio.Ahead(), len, complen) && error == old(error)
      ensures len >= 0 ==> Lengths(old(pvio.Ahead()), len, complen)
      ensures len > 0 ==> maxPacket == GrownTo(old(maxPacket), Need(old(pvio.Ahead())))
      ensures len == 0 ==> maxPacket == old(maxPacket)
      ensures len >= 0 ==> Readable(old(pvio.Ahead()), old(maxPacket))
      ensures pvio.Reliable() && Readable(old(pvio.Ahead()), old(maxPacket)) ==> len >= 0
      ensures pvio.Reliable() && len < 0 ==> error == if Oversized(old(pvio.Ahead()), old(maxPacket)) then 1 else 2
      ensures old(Sized()) ==> Sized() && (old(inside) && whereB + HeaderSize() <= old(memSize) ==> inside)
      ensures old(Sized()) && len >= 0 ==> (inside <==> old(inside) && whereB + HeaderSize() <= old(memSize))
      ensures (memSize == old(memSize) && maxPacket == old(maxPacket)) || memSize == maxPacket + COMP_HEADER_SIZE
      ensures len > 0 ==> Need(old(pvio.Ahead())) <= maxPacket && (memSize == maxPacket ==> Need(old(pvio.Ahead())) < maxPacket)
    {
      hide Pvio.Ahead, Pvio.Valid, Pvio.Reliable, RoundUp, Uint3;
      ghost var s := pvio.Ahead();
      var ok;
      ok, len, complen := ReadHeader();
      if !ok {
        error := 2;
        return PACKET_ERROR, complen;
      }
      ghost var n := HeaderSize();
      if len == 0 {
        assert s[n + len..] == s[n..] && buff[whereB..whereB + len] == s[n..n + len];
        return;
      }
      var helping := whereB + if len > complen then len else complen;
      assert helping == Need(s);
      ok := FitAndFill(len, helping);
      if !ok {
        return PACKET_ERROR, complen;
      }
      SliceTwice(s, n, len);
    }

    /** The second half of `ma_real_read`: the buffer grows if necessary, and the body is read. */
    method FitAndFill(len: nat, helping: nat) returns (ok: bool)
      requires pvio.Valid() && whereB <= |buff| && 0 < len && whereB + len <= helping
      modifies this`buff, this`error, this`maxPacket, this`writePos, this`memSize, this`inside,
        pvio`readCalls, pvio`incoming, pvio`cache, pvio`cachePos, pvio`cacheSize, pvio`consumed, pvio`returned
      ensures pvio.Valid() && |buff| >= whereB && buff[..whereB] == old(buff[..whereB])
      ensures writePos == old(writePos) || writePos == 0
      ensures ok ==> len <= |old(pvio.Ahead())| && pvio.Ahead() == old(pvio.Ahead())[len..] && error == old(error)
      ensures ok ==> |buff| >= whereB + len && buff[whereB..whereB + len] == old(pvio.Ahead())[..len]
      ensures ok ==> maxPacket == GrownTo(old(maxPacket), helping)
      ensures var large := helping >= old(maxPacket) && helping >= maxPacketSize;
        && (ok ==> !large) && (pvio.Reliable() ==> (ok <==> !large && len <= |old(pvio.Ahead())|))
        && (pvio.Reliable() && !ok ==> error == if large then 1 else 2)
      ensures (memSize == old(memSize) && maxPacket == old(maxPacket)) || memSize == maxPacket + COMP_HEADER_SIZE
      ensures old(Sized()) ==> Sized() && (inside <==> old(inside))
      ensures ok ==> helping <= maxPacket && (memSize == maxPacket ==> helping < maxPacket)
    {
      hide Pvio.Ahead, Pvio.Valid, Pvio.Reliable, RoundUp;
      if helping >= maxPacket {
        var failed := Realloc(helping);
        if failed { return false; }
      }
      ok := Fill(whereB, len);
      if !ok {
        error := 2;
      }
    }

    /** The first half of `ma_real_read`. */
    method ReadHeader() returns (ok: bool, len: nat, complen: nat)
      requires pvio.Valid() && whereB <= |buff|
      modifies this`buff, this`pktNr, this`compressPktNr, this`inside,
        pvio`readCalls, pvio`incoming, pvio`cache, pvio`cachePos, pvio`cacheSize, pvio`consumed, pvio`returned
      ensures pvio.Valid() && |buff| >= whereB && buff[..whereB] == old(buff[..whereB])
      ensures ok ==> HeaderOf(old(pvio.Ahead()), len, complen) && pvio.Ahead() == old(pvio.Ahead())[HeaderSize()..]
      ensures ok ==> Lengths(old(pvio.Ahead()), len, complen)
      ensures pvio.Reliable() ==> (ok <==> |old(pvio.Ahead())| >= HeaderSize())
      ensures old(inside) && whereB + HeaderSize() <= memSize ==> inside
      ensures ok ==> (inside <==> old(inside) && whereB + HeaderSize() <= memSize)
    {
      hide Pvio.Ahead, Pvio.Valid, Uint3;
      ghost var s := pvio.Ahead();
      len, complen := 0, 0;
      var header := if compress then COMP_HEADER_SIZE else NET_HEADER_SIZE;
      ok := Fill(whereB, header);
      if ok {
        var read := buff[whereB..whereB + header];
        pktNr := buff[whereB + 3] as nat + 1;
        assert read[3] == s[3];
        compressPktNr := pktNr;
        if compress {
          complen := Uint3(buff[whereB + NET_HEADER_SIZE..whereB + header]);
          SubSlice(buff, whereB, whereB + header, NET_HEADER_SIZE, header);
          SubSlice(s, 0, header, NET_HEADER_SIZE, header);
          assert s[NET_HEADER_SIZE..] == s[NET_HEADER_SIZE..header] + s[header..];
          SamePrefix(s[NET_HEADER_SIZE..header], s[header..]);
        }
        len := Uint3(read);
        assert s == read + s[header..];
        SamePrefix(read, s[header..]);
        LengthsAre(s, len, complen);
      }
    }

    /** The lengths, from the first bytes of the stream: the least significant byte comes first. */
    ghost predicate Lengths(s: seq<Byte>, len: int, complen: nat) {
      && |s| >= HeaderSize() && len == s[0] as nat + 256 * (s[1] as nat) + 65536 * (s[2] as nat)
      && complen == if compress then s[4] as nat + 256 * (s[5] as nat) + 65536 * (s[6] as nat) else 0
    }

    lemma LengthsAre(s: seq<Byte>, len: nat, complen: nat)
      requires |s| >= HeaderSize() && len == Uint3(s) && complen == if compress then Uint3(s[NET_HEADER_SIZE..]) else 0
      ensures Lengths(s, len, complen)
    {
    }

    ghost predicate HeaderOf(s: seq<Byte>, len: int, complen: nat)
      reads this`pktNr, this`compressPktNr
    {
      && |s| >= HeaderSize() && len == Uint3(s) && compressPktNr == pktNr == s[3] as nat + 1
      && complen == (if compress then Uint3(s[NET_HEADER_SIZE..]) else 0)
    }

    /** The body of the chunk at the front of s is in the buffer, and the stream has moved on to `rest`. */
    ghost predicate GoodRead(s: seq<Byte>, rest: seq<Byte>, len: int, complen: nat)
      reads this`buff, this`whereB, this`pktNr, this`compressPktNr
    {
      var n := HeaderSize();
      && HeaderOf(s, len, complen) && |s| >= n + len && rest == s[n + len..]
      && |buff| >= whereB + len && buff[whereB..whereB + len] == s[n..n + len]
    }

    ghost predicate Oversized(s: seq<Byte>, maxPacket: nat)
      reads this`whereB
    {
      |s| >= HeaderSize() && Uint3(s) > 0 && Need(s) >= maxPacket && Need(s) >= maxPacketSize
    }

    ghost predicate Readable(s: seq<Byte>, maxPacket: nat)
      reads this`whereB
    {
      |s| >= HeaderSize() && |s| >= HeaderSize() + Uint3(s) && !Oversized(s, maxPacket)
    }

    /** What a chunk just read has to do with the parse of the whole stream. */
    ghost predicate Progress(parsed: Parsed, len: int)
      reads this, pvio
    {
      if len < 0 then
        len == PACKET_ERROR && (pvio.Reliable() ==> if parsed.TooLarge? then error == 1 else parsed.Truncated? && error == 2)
      else
        && whereB + len <= |buff|
        && if len == MAX_PACKET_LENGTH then parsed == Parse(pvio.Ahead(), buff[..whereB + len], maxPacket, maxPacketSize)
           else parsed.Packet? && parsed.payload == buff[..whereB + len] && parsed.rest == pvio.Ahead() && pktNr == parsed.nr as nat + 1
    }

    /** One chunk of an uncompressed packet of which the chunks before are in the buffer. */
    method ReadChunk(ghost parsed: Parsed) returns (len: int)
      requires !compress && pvio.Valid() && whereB <= |buff|
      requires parsed == Parse(pvio.Ahead(), buff[..whereB], maxPacket, maxPacketSize)
      modifies this`buff, this`pktNr, this`compressPktNr, this`error, this`maxPacket, this`writePos,
        this`memSize, this`inside, pvio`readCalls, pvio`incoming, pvio`cache, pvio`cachePos, pvio`cacheSize, pvio`consumed, pvio`returned
      ensures pvio.Valid() && Progress(parsed, len)
      ensures (len >= 0 ==> |pvio.Ahead()| < |old(pvio.Ahead())| && error == old(error))
      ensures old(Roomy()) ==> Roomy() && (old(inside) && whereB + NET_HEADER_SIZE <= old(memSize) ==> inside)
      ensures old(Roomy()) && len >= 0 && whereB + NET_HEADER_SIZE <= old(memSize) ==> whereB + len < memSize
      ensures old(Roomy()) && len == MAX_PACKET_LENGTH ==> whereB + len + NET_HEADER_SIZE <= memSize
      ensures writePos == old(writePos) || writePos == 0
    {
      hide Pvio.Ahead, Pvio.Valid, Pvio.Reliable, RoundUp, Uint3;
      ghost var s, acc := pvio.Ahead(), buff[..whereB];
      var complen;
      len, complen := RealRead();
      if len >= 0 {
        assert buff[..whereB + len] == buff[..whereB] + buff[whereB..whereB + len];
        assert len == 0 ==> acc + s[4..4] == acc;
      }
    }

    /** `ma_net_read` without compression: exactly what the byte stream says, however it is delivered. */
    method ReadUncompressed() returns (len: int)
      requires !compress && pvio.Valid() && whereB == 0
      modifies this`buff, this`pktNr, this`compressPktNr, this`error, this`maxPacket, this`writePos, this`whereB, this`readPos,
        this`memSize, this`inside, pvio`readCalls, pvio`incoming, pvio`cache, pvio`cachePos, pvio`cacheSize, pvio`consumed, pvio`returned
      ensures pvio.Valid() && whereB == 0 && readPos == 0
      ensures writePos == old(writePos) || writePos == 0
      ensures var parsed := Parse(old(pvio.Ahead()), [], old(maxPacket), maxPacketSize);
        if len >= 0 then
          && parsed.Packet? && len == |parsed.payload| < |buff| && buff[..len] == parsed.payload && buff[len] == 0
          && pvio.Ahead() == parsed.rest && pktNr == parsed.nr as nat + 1 && error == old(error)
        else len == PACKET_ERROR && (pvio.Reliable() ==> if parsed.TooLarge? then error == 1 else parsed.Truncated? && error == 2)
      ensures old(inside && Roomy()) ==> inside && Roomy()
    {
      hide Pvio.Ahead, Pvio.Valid, Pvio.Reliable, Parse;
      assert buff[..0] == [];
      ghost var parsed := Parse(pvio.Ahead(), [], maxPacket, maxPacketSize);
      len := ReadChunk(parsed);
      if len == MAX_PACKET_LENGTH {
        var length, lastPos := 0, whereB;
        while len == MAX_PACKET_LENGTH
          invariant pvio.Valid() && length == whereB && Progress(parsed, len) && (len >= 0 ==> error == old(error))
          invariant writePos == old(writePos) || writePos == 0
          invariant old(inside && Roomy()) ==> inside && Roomy() && (len >= 0 ==> whereB + len < memSize)
          invariant old(inside && Roomy()) && len == MAX_PACKET_LENGTH ==> whereB + len + NET_HEADER_SIZE <= memSize
          decreases if len == MAX_PACKET_LENGTH then 1 + |pvio.Ahead()| else 0
        {
          length := length + len;
          whereB := whereB + len;
          len := ReadChunk(parsed);
        }
        if len >= 0 {
          assert parsed.payload == buff[..whereB + len];
          len := len + length;
        }
        whereB := lastPos;
      }
      readPos := whereB;
      if len >= 0 {
        ghost var payload := buff[..len];
        buff := Put(buff, readPos + len, [0]);
        inside := inside && readPos + len < memSize;
        assert buff[len] == buff[len..len + 1][0];
      }
    }

    // ---- Reading the compressed protocol ----

    /** What earlier frames brought and no packet has used yet; its first byte was overwritten and is in `saveChar`. */
    ghost function Pending(): seq<Byte>
      reads this`buff, this`remainInBuf, this`bufLength, this`saveChar
    {
      PendingOf(buff, remainInBuf, bufLength, saveChar)
    }

    /** All uncompressed bytes still to come, as far as whole frames bring them. */
    ghost function PlainAhead(): seq<Byte>
      reads this`buff, this`remainInBuf, this`bufLength, this`saveChar, pvio
    {
      Pending() + Plain(codec, pvio.Ahead())
    }

    /** One more frame is read and decompressed to the end of what is in the buffer; `broken` tells that it cannot be
        decompressed. */
    method ReadFrame(bufferLength: nat) returns (failed: bool, broken: bool, newLength: nat)
      requires compress && pvio.Valid() && bufferLength <= |buff|
      modifies this`buff, this`pktNr, this`compressPktNr, this`error, this`maxPacket, this`writePos, this`whereB,
        this`memSize, this`inside, pvio`readCalls, pvio`incoming, pvio`cache, pvio`cachePos, pvio`cacheSize, pvio`consumed, pvio`returned
      ensures pvio.Valid() && (writePos == old(writePos) || writePos == 0)
      ensures !failed ==> bufferLength <= newLength <= |buff| && newLength <= bufferLength + MAX_PACKET_LENGTH
      ensures !failed ==> buff[..bufferLength] == old(buff[..bufferLength]) && |pvio.Ahead()| < |old(pvio.Ahead())|
      ensures !failed ==> Complete(old(pvio.Ahead())) && pvio.Ahead() == After(old(pvio.Ahead()))
      ensures !failed ==> (broken <==> !Good(codec, old(pvio.Ahead())))
      ensures !failed && broken ==> error == 2 && newLength == bufferLength
      ensures !failed && !broken ==> error == old(error) && newLength == bufferLength + |Content(codec, old(pvio.Ahead()))|
      ensures !failed && !broken ==>
        buff[..newLength] + Plain(codec, pvio.Ahead()) == old(buff[..bufferLength] + Plain(codec, pvio.Ahead()))
      ensures pvio.Reliable() && Complete(old(pvio.Ahead())) && bufferLength + MAX_PACKET_LENGTH < maxPacketSize ==> !failed
      ensures old(Sized()) ==> Sized() && (old(inside) && bufferLength + COMP_HEADER_SIZE <= old(memSize) ==> inside)
      ensures old(Sized()) && !failed ==> (inside <==> old(inside) && bufferLength + COMP_HEADER_SIZE <= old(memSize))
      ensures old(Sized()) && !failed && bufferLength <= old(maxPacket) ==> newLength <= maxPacket
      ensures old(Grown()) ==> Grown()
    {
      hide Pvio.Ahead, Pvio.Valid, Pvio.Reliable, Uint3, Put, Plain, Inflated, Uncompressed, Complete, After, Grown;
      ghost var s := pvio.Ahead();
      var body, complen;
      failed, body, complen := ReadBody(bufferLength);
      broken, newLength := false, bufferLength;
      if failed { return; }
      var content := Inflated(codec, body, complen);
      if content.None? {
        error := 2;
        broken := true;
        return;
      }
      ghost var before := buff;
      buff := Put(buff, whereB, content.value);
      newLength := bufferLength + |content.value|;
      inside := inside && newLength <= memSize;
      Behind(before, buff, bufferLength, content.value, Plain(codec, pvio.Ahead()));
    }

    /** The frame is read, and its body is in the buffer. */
    method ReadBody(bufferLength: nat) returns (failed: bool, body: seq<Byte>, complen: nat)
      requires compress && pvio.Valid() && bufferLength <= |buff|
      modifies this`buff, this`pktNr, this`compressPktNr, this`error, this`maxPacket, this`writePos, this`whereB,
        this`memSize, this`inside, pvio`readCalls, pvio`incoming, pvio`cache, pvio`cachePos, pvio`cacheSize, pvio`consumed, pvio`returned
      ensures pvio.Valid() && (writePos == old(writePos) || writePos == 0) && whereB == bufferLength <= |buff|
      ensures !failed ==> error == old(error) && |body| <= MAX_PACKET_LENGTH && complen <= MAX_PACKET_LENGTH
      ensures !failed ==> buff[..bufferLength] == old(buff[..bufferLength]) && |pvio.Ahead()| < |old(pvio.Ahead())|
      ensures !failed ==> Complete(old(pvio.Ahead())) && pvio.Ahead() == After(old(pvio.Ahead()))
      ensures !failed ==> Uncompressed(codec, old(pvio.Ahead())) == Inflated(codec, body, complen)
      ensures !failed ==>
        old(Plain(codec, pvio.Ahead())) ==
        if Good(codec, old(pvio.Ahead())) then Content(codec, old(pvio.Ahead())) + Plain(codec, pvio.Ahead()) else []
      ensures pvio.Reliable() && Complete(old(pvio.Ahead())) && bufferLength + MAX_PACKET_LENGTH < maxPacketSize ==> !failed
      ensures old(Sized()) ==> Sized() && (old(inside) && bufferLength + COMP_HEADER_SIZE <= old(memSize) ==> inside)
      ensures old(Sized()) && !failed ==> (inside <==> old(inside) && bufferLength + COMP_HEADER_SIZE <= old(memSize))
      ensures !failed && body != [] ==> bufferLength + |body| <= maxPacket && bufferLength + complen <= maxPacket
      ensures !failed && body == [] ==> maxPacket == old(maxPacket)
      ensures old(Grown()) ==> Grown()
    {
      hide Pvio.Ahead, Pvio.Valid, Pvio.Reliable, RoundUp, Uint3, Plain, Inflated, Uncompressed;
      ghost var s := pvio.Ahead();
      whereB := bufferLength;
      var len;
      len, complen := RealRead();
      failed, body := len == PACKET_ERROR, [];
      if failed { return; }
      body := buff[whereB..whereB + len];
      FrameRead(codec, s, pvio.Ahead(), len, complen, body);
    }

    /** What is left in the buffer between two reads. */
    ghost predicate Rested()
      reads this`buff, this`remainInBuf, this`bufLength
    {
      remainInBuf <= bufLength <= |buff| && remainInBuf <= MAX_PACKET_LENGTH
    }

    /** `ma_net_read` with compression: the next packet of the uncompressed stream, however packets, chunks and frames
        overlap. The stream goes on behind it, but for one case: behind a packet that ends with an empty chunk, the
        first byte that is already in the buffer becomes zero. A frame that cannot be decompressed is not reported as
        an error: the result is the length of the full chunks before it less four, without any -4, which stands
        for 2^64 - 4. */
    method ReadCompressed() returns (len: int, ghost broken: bool)
      requires compress && pvio.Valid() && Rested()
      modifies this`buff, this`pktNr, this`compressPktNr, this`error, this`maxPacket, this`writePos, this`whereB, this`readPos,
        this`remainInBuf, this`bufLength, this`saveChar, this`memSize, this`inside,
        pvio`readCalls, pvio`incoming, pvio`cache, pvio`cachePos, pvio`cacheSize, pvio`consumed, pvio`returned
      ensures pvio.Valid() && (writePos == old(writePos) || writePos == 0)
      ensures !broken ==> len == PACKET_ERROR || len >= 0
      ensures var parsed := Next(old(PlainAhead()));
        !broken && len >= 0 ==>
          && parsed.Packet? && len == |parsed.payload|
          && readPos + len < |buff| && buff[readPos..readPos + len] == parsed.payload && buff[readPos + len] == 0
          && PlainAhead() == Spoiled(parsed.rest, EndsEmpty(len) && remainInBuf > 0) && Rested() && error == old(error)
          && remainInBuf == LeftBehind(|old(Pending())|, codec, old(pvio.Ahead()), parsed.rest)
      ensures var parsed := Next(old(PlainAhead()));
        pvio.Reliable() && HasRoom(parsed, maxPacketSize) ==> !broken && len >= 0
      ensures broken ==> error == 2 && len != PACKET_ERROR && FullChunks(len + 4) && len + 4 <= |old(PlainAhead())|
      ensures var never := Broken(codec, old(pvio.Ahead())) && !Next(old(PlainAhead())).Packet?;
        && (broken ==> never)
        && (pvio.Reliable() && never && |old(PlainAhead())| + 1 + MAX_PACKET_LENGTH <= maxPacketSize ==> broken)
      ensures old(inside && Grown() && bufLength <= maxPacket) ==> inside && Grown()
      ensures old(inside && Grown() && bufLength <= maxPacket) && (len >= 0 || broken) ==> bufLength <= maxPacket
    {
      hide Pvio.Ahead, Pvio.Valid, Pvio.Reliable, Uint3, Plain, Complete, PlainAhead, Parse, Broken, BetweenChunks, FullChunks;
      hide HasRoom, Collected, Spoiled, LeftBehind, Pending, EndsEmpty, Put, Ahead;
      ghost var parsed := Next(PlainAhead());
      ghost var limit := |PlainAhead()| + 1;
      var bufferLength, start := StartOfBuffer();
      AtFirst(buff[start..bufferLength], Plain(codec, pvio.Ahead()), parsed, limit);
      var found, stop, current, multi;
      found, stop, bufferLength, start, current, multi := CollectPacket(bufferLength, start, parsed, limit);
      broken := stop;
      if !found && !stop { return PACKET_ERROR, broken; }
      if found {
        len := TakePacket(bufferLength, start, current, multi, parsed);
      } else {
        ChunksBefore(current, multi);
        len := SetValues(bufferLength, start, current, multi);
      }
    }

    /** The end of a compressed read, whatever the loop was left with. */
    method SetValues(bufferLength: nat, start: nat, current: nat, multi: bool) returns (len: int)
      requires start <= current <= bufferLength <= |buff| && (multi ==> current >= NET_HEADER_SIZE)
      modifies this`buff, this`readPos, this`remainInBuf, this`bufLength, this`saveChar, this`inside
      ensures inside <==> old(inside) && readPos + len < memSize
      ensures bufLength == bufferLength && remainInBuf == bufferLength - current && readPos == start + NET_HEADER_SIZE
      ensures len == current - start - (if multi then 2 * NET_HEADER_SIZE else NET_HEADER_SIZE)
      ensures var p := readPos + len;
        buff == Put(old(buff), p, [0]) && saveChar == if p < |old(buff)| then old(buff)[p] else 0
    {
      hide Put;
      bufLength, remainInBuf := bufferLength, bufferLength - current;
      readPos := start + NET_HEADER_SIZE;
      len := current - start - NET_HEADER_SIZE;
      if multi {
        len := len - NET_HEADER_SIZE;
      }
      saveChar := if readPos + len < |buff| then buff[readPos + len] else 0;
      buff := Put(buff, readPos + len, [0]);
      inside := inside && readPos + len < memSize;
    }

    /** The packet is terminated and the byte behind it saved. */
    method TakePacket(bufferLength: nat, start: nat, current: nat, empty: bool, ghost parsed: Parsed) returns (len: nat)
      requires Collected(buff, Plain(codec, pvio.Ahead()), parsed, bufferLength, start, current, empty)
      modifies this`buff, this`readPos, this`remainInBuf, this`bufLength, this`saveChar, this`inside
      ensures (old(inside) && bufferLength < memSize ==> inside) && bufLength == bufferLength
      ensures parsed.Packet? && len == |parsed.payload| && Rested()
      ensures readPos + len < |buff| && buff[readPos..readPos + len] == parsed.payload
      ensures buff[readPos + len] == 0
      ensures PlainAhead() == Spoiled(parsed.rest, EndsEmpty(len) && remainInBuf > 0) && remainInBuf == bufferLength - current
    {
      hide Pvio.Ahead, Plain, Put, EndsEmpty, Collected, Spoiled, PendingOf;
      Terminated(buff, Plain(codec, pvio.Ahead()), parsed, bufferLength, start, current, empty);
      len := SetValues(bufferLength, start, current, empty);
    }

    /** The start of a compressed read: the byte that was overwritten is restored. */
    method StartOfBuffer() returns (bufferLength: nat, start: nat)
      requires Rested()
      modifies this`buff
      ensures start <= bufferLength <= |buff| && bufferLength - start <= MAX_PACKET_LENGTH
      ensures buff[start..bufferLength] + Plain(codec, pvio.Ahead()) == old(PlainAhead())
      ensures bufferLength - start == |old(Pending())| && bufferLength <= bufLength
    {
      hide Pvio.Ahead, Plain;
      bufferLength, start := 0, 0;
      if remainInBuf > 0 {
        bufferLength := bufLength;
        start := bufLength - remainInBuf;
        buff := buff[start := saveChar];
        assert buff[start..bufferLength] == [saveChar] + buff[start + 1..bufferLength];
        assert buff[start + 1..bufferLength] == old(buff)[start + 1..bufferLength];
      }
    }

    /** The loop of a compressed read: frames are read until the buffer holds a whole packet from `start` on. The
        headers of all chunks but the first are removed. */
    method CollectPacket(bufferLength0: nat, start0: nat, ghost parsed: Parsed, ghost limit: nat)
      returns (found: bool, broken: bool, bufferLength: nat, start: nat, current: nat, multi: bool)
      requires compress && pvio.Valid() && start0 <= bufferLength0 <= |buff| && bufferLength0 - start0 <= MAX_PACKET_LENGTH
      requires Ahead(buff[start0..bufferLength0], Plain(codec, pvio.Ahead()), parsed, limit, [], 0)
      modifies this`buff, this`pktNr, this`compressPktNr, this`error, this`maxPacket, this`writePos, this`whereB,
        this`memSize, this`inside, pvio`readCalls, pvio`incoming, pvio`cache, pvio`cachePos, pvio`cacheSize, pvio`consumed, pvio`returned
      ensures pvio.Valid() && (writePos == old(writePos) || writePos == 0)
      ensures found ==> Collected(buff, Plain(codec, pvio.Ahead()), parsed, bufferLength, start, current, multi) && error == old(error)
      ensures found ==> bufferLength - current == LeftBehind(bufferLength0 - start0, codec, old(pvio.Ahead()), parsed.rest)
      ensures pvio.Reliable() && HasRoom(parsed, maxPacketSize) ==> found
      ensures broken ==> !found && !parsed.Packet? && Broken(codec, old(pvio.Ahead())) && error == 2
      ensures broken ==> start == 0 && current <= bufferLength <= |buff| && BetweenChunks(current, multi) && current < limit
      ensures pvio.Reliable() && Broken(codec, old(pvio.Ahead())) && limit + MAX_PACKET_LENGTH <= maxPacketSize ==> found || broken
      ensures old(inside && Grown()) && bufferLength0 <= old(maxPacket) ==> inside && Grown() && (found || broken ==> bufferLength <= maxPacket)
    {
      hide LeftBehind, Content, After, Uncompressed, Broken;
      hide Pvio.Ahead, Pvio.Valid, Pvio.Reliable, Uint3, Plain, Complete, Collecting, Collected, Ahead, Put, HasRoom;
      found, broken := false, false;
      bufferLength, start, current, multi := bufferLength0, start0, start0, false;
      ghost var acc: seq<Byte>, grown: nat := [], 0;
      FirstTurn(buff, Plain(codec, pvio.Ahead()), parsed, limit, bufferLength, start);
      ghost var left := if parsed.Packet? then LeftBehind(bufferLength - start, codec, pvio.Ahead(), parsed.rest) else 0;
      while true
        invariant pvio.Valid() && error == old(error) && (writePos == old(writePos) || writePos == 0)
        invariant old(inside && Grown()) && bufferLength0 <= old(maxPacket) ==> inside && Grown() && bufferLength <= maxPacket
        invariant current <= bufferLength && !broken && (Broken(codec, pvio.Ahead()) <==> old(Broken(codec, pvio.Ahead())))
        invariant parsed.Packet? ==> LeftBehind(bufferLength - current, codec, pvio.Ahead(), parsed.rest) == left
        invariant Collecting(buff, Plain(codec, pvio.Ahead()), parsed, limit, bufferLength, start, current, multi, acc, grown)
        decreases |pvio.Ahead()|, bufferLength - current
      {
        ghost var b, more, held := buff, Plain(codec, pvio.Ahead()), bufferLength - current;
        InBuffer(b, more, parsed, limit, bufferLength, start, current, multi, acc, grown);
        if bufferLength - current >= NET_HEADER_SIZE {
          var packetLength := Uint3(buff[current..bufferLength]);
          if packetLength == 0 {
            EmptyChunk(b, more, parsed, limit, bufferLength, start, current, multi, acc, grown);
            Counted(b, more, parsed, bufferLength, start, current + NET_HEADER_SIZE, multi);
            BehindTaken(bufferLength - current, codec, pvio.Ahead(), parsed.rest, NET_HEADER_SIZE);
            BehindDone(bufferLength - current - NET_HEADER_SIZE, codec, pvio.Ahead(), parsed.rest);
            current := current + NET_HEADER_SIZE;
            return true, false, bufferLength, start, current, multi;
          }
          if packetLength + NET_HEADER_SIZE <= bufferLength - current {
            acc, grown := WholeChunk(b, more, parsed, limit, bufferLength, start, current, multi, acc, grown);
            if !multi {
              current := current + packetLength + NET_HEADER_SIZE;
            } else {
              buff := Put(buff, current, buff[current + NET_HEADER_SIZE..bufferLength]);
              bufferLength := bufferLength - NET_HEADER_SIZE;
              current := current + packetLength;
            }
            if packetLength != MAX_PACKET_LENGTH {
              Counted(buff, more, parsed, bufferLength, start, current, false);
              BehindTaken(held, codec, pvio.Ahead(), parsed.rest, packetLength + NET_HEADER_SIZE);
              BehindDone(bufferLength - current, codec, pvio.Ahead(), parsed.rest);
              multi := false;
              return true, false, bufferLength, start, current, multi;
            }
            multi := true;
            if parsed.Packet? {
              StillAhead(buff, more, parsed, limit, bufferLength, start, current, multi, acc, grown);
              BehindTaken(held, codec, pvio.Ahead(), parsed.rest, packetLength + NET_HEADER_SIZE);
            }
            if start > 0 {
              // The source moves the buffer but not `current` here; this is never reached.
              assert false;
            }
            continue;
          }
        }
        var failed;
        failed, broken, bufferLength, start, current := MoreFrame(bufferLength, start, current, multi, parsed, limit, acc, grown);
        if failed || broken { return; }
      }
    }

    /** Another frame is needed: what is in the buffer moves to its start, and the frame goes behind it. */
    method MoreFrame(bufferLength0: nat, start0: nat, current0: nat, multi: bool,
                     ghost parsed: Parsed, ghost limit: nat, ghost acc: seq<Byte>, ghost grown: nat)
      returns (failed: bool, broken: bool, bufferLength: nat, start: nat, current: nat)
      requires compress && pvio.Valid() && current0 <= bufferLength0 <= |buff| && Incomplete(buff[current0..bufferLength0])
      requires Collecting(buff, Plain(codec, pvio.Ahead()), parsed, limit, bufferLength0, start0, current0, multi, acc, grown)
      modifies this`buff, this`pktNr, this`compressPktNr, this`error, this`maxPacket, this`writePos, this`whereB,
        this`memSize, this`inside, pvio`readCalls, pvio`incoming, pvio`cache, pvio`cachePos, pvio`cacheSize, pvio`consumed, pvio`returned
      ensures pvio.Valid() && (writePos == old(writePos) || writePos == 0) && (failed ==> !broken)
      ensures !failed && !broken ==> error == old(error) && current <= bufferLength && |pvio.Ahead()| < |old(pvio.Ahead())|
      ensures !failed && !broken ==>
        Collecting(buff, Plain(codec, pvio.Ahead()), parsed, limit, bufferLength, start, current, multi, acc, grown)
      ensures !failed && !broken ==> (Broken(codec, pvio.Ahead()) <==> old(Broken(codec, pvio.Ahead())))
      ensures !failed && !broken && parsed.Packet? ==>
        LeftBehind(bufferLength - current, codec, pvio.Ahead(), parsed.rest) ==
        LeftBehind(bufferLength0 - current0, codec, old(pvio.Ahead()), parsed.rest)
      ensures broken ==> !parsed.Packet? && Broken(codec, old(pvio.Ahead())) && error == 2
      ensures broken ==> start == 0 && current <= bufferLength <= |buff| && BetweenChunks(current, multi) && current < limit
      ensures pvio.Reliable() && HasRoom(parsed, maxPacketSize) ==> !failed && !broken
      ensures pvio.Reliable() && Broken(codec, old(pvio.Ahead())) && limit + MAX_PACKET_LENGTH <= maxPacketSize ==> !failed
      ensures old(inside && Grown()) && bufferLength0 <= old(maxPacket) ==> inside && Grown() && (failed || bufferLength <= maxPacket)
    {
      hide LeftBehind, Content, After, Uncompressed, Broken;
      hide Pvio.Ahead, Pvio.Valid, Pvio.Reliable, Uint3, Plain, Complete, Collecting, Ahead, Put, HasRoom, Incomplete;
      bufferLength, start, current := bufferLength0, start0, current0;
      ghost var s, more := pvio.Ahead(), Plain(codec, pvio.Ahead());
      InBuffer(buff, more, parsed, limit, bufferLength, start, current, multi, acc, grown);
      if start > 0 {
        ShiftDown(buff, more, parsed, limit, bufferLength, start, current, multi, acc, grown);
        buff := Put(buff, 0, buff[start..bufferLength]);
        bufferLength, current, start := bufferLength - start, current - start, 0;
      }
      ghost var b, before := buff, bufferLength;
      WantsFrame(b, codec, s, parsed, limit, bufferLength, start, current, multi, acc, grown, maxPacketSize);
      BrokenFrame(codec, s);
      StopsHere(b, more, parsed, limit, bufferLength, start, current, multi, acc, grown);
      failed, broken, bufferLength := ReadFrame(bufferLength);
      if failed { broken := false; }
      if failed || broken { return; }
      if parsed.Packet? {
        FrameNeeded(b, more, parsed, limit, before, start, current, multi, acc, grown);
        BehindFrame(before - current, codec, s, parsed.rest);
      }
      FrameAdded(b, more, buff, Plain(codec, pvio.Ahead()), parsed, limit, before, bufferLength, start, current, multi, acc, grown);
    }
  }

  // ---- The loop of a compressed read, on values ----

  /** How much is left in a buffer that holds some bytes and gets frames until it has n of them, when those n are taken. */
  function LeftOver(held: nat, c: Codec, s: seq<Byte>, n: int): nat
    decreases |s|
  {
    if held >= n then if n >= 0 then held - n else held
    else if Good(c, s) then LeftOver(held + |Content(c, s)|, c, After(s), n) else 0
  }

  /** How much of the rest of the stream is in the buffer when all before it is taken. */
  function LeftBehind(held: nat, c: Codec, s: seq<Byte>, rest: seq<Byte>): nat {
    LeftOver(held, c, s, held + |Plain(c, s)| - |rest|)
  }

  lemma {:induction false} LeftOverShift(held: nat, c: Codec, s: seq<Byte>, n: nat, k: nat)
    ensures LeftOver(held + k, c, s, n + k) == LeftOver(held, c, s, n)
    decreases |s|
  {
    hide Complete, Uncompressed, Content, After;
    if held < n && Good(c, s) {
      FirstFrame(c, s, []);
      LeftOverShift(held + |Content(c, s)|, c, After(s), n, k);
    }
  }

  /** Taking k bytes does not change what is left in the end. */
  lemma BehindTaken(held: nat, c: Codec, s: seq<Byte>, rest: seq<Byte>, k: nat)
    requires k <= held && held - k + |Plain(c, s)| >= |rest|
    ensures LeftBehind(held - k, c, s, rest) == LeftBehind(held, c, s, rest)
  {
    hide Plain, LeftOver;
    LeftOverShift(held - k, c, s, held - k + |Plain(c, s)| - |rest|, k);
  }

  /** When all is taken, what is left is there. */
  lemma BehindDone(held: nat, c: Codec, s: seq<Byte>, rest: seq<Byte>)
    requires held + |Plain(c, s)| == |rest|
    ensures LeftBehind(held, c, s, rest) == held
  {
    hide Plain;
  }

  /** A frame that is still needed is counted in. */
  lemma BehindFrame(held: nat, c: Codec, s: seq<Byte>, rest: seq<Byte>)
    requires Good(c, s) && |Plain(c, s)| > |rest|
    ensures LeftBehind(held + |Content(c, s)|, c, After(s), rest) == LeftBehind(held, c, s, rest)
  {
    hide Complete, Uncompressed, Content, After;
  }

  /** The chunk at the front of a part of the buffer is not all there. */
  ghost predicate Incomplete(part: seq<Byte>) {
    |part| < NET_HEADER_SIZE || |part| < NET_HEADER_SIZE + Uint3(part)
  }

  ghost function PendingOf(b: seq<Byte>, remain: nat, length: nat, saved: Byte): seq<Byte> {
    if 0 < remain <= length <= |b| then [saved] + b[length - remain + 1..length] else []
  }

  /** The packet ends with an empty chunk. */
  predicate EndsEmpty(length: int) {
    length > 0 && length % MAX_PACKET_LENGTH == 0
  }

  /** A stream whose first byte may have become zero. */
  function Spoiled(s: seq<Byte>, first: bool): seq<Byte> {
    if first && s != [] then [0] + s[1..] else s
  }

  /** The buffer may grow as far as the packet and the frame that completes it need. */
  ghost predicate HasRoom(parsed: Parsed, maxPacketSize: nat) {
    parsed.Packet? &&
    |parsed.payload| + (if |parsed.payload| < MAX_PACKET_LENGTH then 1 else 2) * NET_HEADER_SIZE + MAX_PACKET_LENGTH <= maxPacketSize
  }

  /** With the full chunks acc taken, the rest of the stream still comes to the same packet. */
  ghost predicate Ahead(part: seq<Byte>, more: seq<Byte>, parsed: Parsed, limit: nat, acc: seq<Byte>, grown: nat) {
    && parsed == Parse(part + more, acc, grown, limit)
    && |acc| + |part + more| + (if acc == [] then 0 else NET_HEADER_SIZE) < limit
  }

  /** The state of the loop: `acc` are the full chunks so far, without their headers but the first; what is left after
      the next chunk is not more than a frame brings. */
  ghost predicate Collecting(b: seq<Byte>, more: seq<Byte>, parsed: Parsed, limit: nat, bufferLength: nat, start: nat,
                             current: nat, multi: bool, acc: seq<Byte>, grown: nat)
  {
    && start <= current <= bufferLength <= |b| && |acc| % MAX_PACKET_LENGTH == 0 && (multi <==> acc != [])
    && (if multi then start == 0 && current == NET_HEADER_SIZE + |acc| && b[NET_HEADER_SIZE..current] == acc else current == start)
    && Ahead(b[current..bufferLength], more, parsed, limit, acc, grown)
    && (bufferLength - current >= NET_HEADER_SIZE ==>
          bufferLength - current - NET_HEADER_SIZE - Uint3(b[current..bufferLength]) <= MAX_PACKET_LENGTH)
    && (start > 0 ==> bufferLength - start <= MAX_PACKET_LENGTH)
  }

  /** A whole packet is in the buffer from `start` on, and the stream goes on at `current`: behind the packet, or behind
      the header of the empty chunk that ends it. */
  ghost predicate Collected(b: seq<Byte>, more: seq<Byte>, parsed: Parsed, bufferLength: nat, start: nat, current: nat, empty: bool)
  {
    && parsed.Packet? && start + NET_HEADER_SIZE <= current <= bufferLength <= |b|
    && bufferLength - current <= MAX_PACKET_LENGTH && (empty <==> EndsEmpty(|parsed.payload|))
    && start + NET_HEADER_SIZE + |parsed.payload| + (if empty then NET_HEADER_SIZE else 0) == current
    && b[start + NET_HEADER_SIZE..start + NET_HEADER_SIZE + |parsed.payload|] == parsed.payload
    && b[current..bufferLength] + more == parsed.rest
    && (empty ==> b[current - NET_HEADER_SIZE] == 0)
  }

  lemma AtFirst(part: seq<Byte>, more: seq<Byte>, parsed: Parsed, limit: nat)
    requires parsed == Next(part + more) && limit == |part + more| + 1
    ensures Ahead(part, more, parsed, limit, [], 0)
  {
    hide Parse;
  }

  lemma FirstTurn(b: seq<Byte>, more: seq<Byte>, parsed: Parsed, limit: nat, bufferLength: nat, start: nat)
    requires start <= bufferLength <= |b| && bufferLength - start <= MAX_PACKET_LENGTH
    requires Ahead(b[start..bufferLength], more, parsed, limit, [], 0)
    ensures Collecting(b, more, parsed, limit, bufferLength, start, start, false, [], 0)
  {
    hide Ahead, Uint3;
  }

  lemma InBuffer(b: seq<Byte>, more: seq<Byte>, parsed: Parsed, limit: nat, bufferLength: nat, start: nat,
                 current: nat, multi: bool, acc: seq<Byte>, grown: nat)
    requires Collecting(b, more, parsed, limit, bufferLength, start, current, multi, acc, grown)
    ensures start <= current <= bufferLength <= |b| && (!multi ==> current == start) && (multi ==> start == 0)
  {
    hide Ahead, Uint3;
  }

  /** An empty chunk ends the packet. */
  lemma EmptyChunk(b: seq<Byte>, more: seq<Byte>, parsed: Parsed, limit: nat, bufferLength: nat, start: nat,
                   current: nat, multi: bool, acc: seq<Byte>, grown: nat)
    requires Collecting(b, more, parsed, limit, bufferLength, start, current, multi, acc, grown)
    requires bufferLength - current >= NET_HEADER_SIZE && Uint3(b[current..bufferLength]) == 0
    ensures Collected(b, more, parsed, bufferLength, start, current + NET_HEADER_SIZE, multi)
  {
    hide Parse;
    var part := b[current..bufferLength];
    SamePrefix(part, more);
    ParseStep(part + more, acc, grown, limit);
    assert (part + more)[NET_HEADER_SIZE..] == b[current + NET_HEADER_SIZE..bufferLength] + more;
    assert acc + (part + more)[NET_HEADER_SIZE..NET_HEADER_SIZE] == acc;
    assert part[0] == 0;
  }

  /** A chunk that is all there, on its way into the packet. */
  lemma ChunkTaken(b: seq<Byte>, more: seq<Byte>, current: nat, bufferLength: nat, acc: seq<Byte>, grown: nat, limit: nat)
    requires current <= bufferLength <= |b|
    requires var part := b[current..bufferLength]; !Incomplete(part) && |acc| + |part + more| < limit
    ensures var part, length := b[current..bufferLength], Uint3(b[current..bufferLength]);
      var body := b[current + NET_HEADER_SIZE..current + NET_HEADER_SIZE + length];
      var rest := b[current + NET_HEADER_SIZE + length..bufferLength] + more;
      && |body| + NET_HEADER_SIZE + |rest| == |part + more|
      && if length < MAX_PACKET_LENGTH then Parse(part + more, acc, grown, limit) == Packet(acc + body, rest, (part + more)[3])
         else exists m: nat :: Parse(part + more, acc, grown, limit) == Parse(rest, acc + body, m, limit)
  {
    hide Parse, Uint3;
    var part, length := b[current..bufferLength], Uint3(b[current..bufferLength]);
    SamePrefix(part, more);
    ParseStep(part + more, acc, grown, limit);
    var n := NET_HEADER_SIZE + length;
    SubSlice(b, current, bufferLength, NET_HEADER_SIZE, n);
    SubSlice(b, current, bufferLength, n, |part|);
    assert (part + more)[NET_HEADER_SIZE..n] == part[NET_HEADER_SIZE..n];
    assert (part + more)[n..] == part[n..|part|] + more;
  }

  /** The buffer without the header at `current`. */
  function WithoutHeader(b: seq<Byte>, current: nat, bufferLength: nat): seq<Byte>
    requires current + NET_HEADER_SIZE <= bufferLength <= |b|
  {
    Put(b, current, b[current + NET_HEADER_SIZE..bufferLength])
  }

  lemma HeaderRemoved(b: seq<Byte>, current: nat, bufferLength: nat, n: nat)
    requires NET_HEADER_SIZE <= current && current + NET_HEADER_SIZE + n <= bufferLength <= |b|
    ensures var b' := WithoutHeader(b, current, bufferLength);
      && |b'| >= bufferLength - NET_HEADER_SIZE
      && b'[NET_HEADER_SIZE..current + n] == b[NET_HEADER_SIZE..current] + b[current + NET_HEADER_SIZE..current + NET_HEADER_SIZE + n]
      && b'[current + n..bufferLength - NET_HEADER_SIZE] == b[current + NET_HEADER_SIZE + n..bufferLength]
  {
    hide Put;
    var moved := b[current + NET_HEADER_SIZE..bufferLength];
    var b' := WithoutHeader(b, current, bufferLength);
    var w, end := b[..current] + moved, current + |moved|;
    assert b'[..end] == b'[..current] + b'[current..end] == w;
    SubSlice(b', 0, end, NET_HEADER_SIZE, current + n);
    SubSlice(b', 0, end, current + n, end);
    SplitConcat(b[..current], moved, NET_HEADER_SIZE, n);
    SubSlice(b, 0, current, NET_HEADER_SIZE, current);
    SubSlice(b, current + NET_HEADER_SIZE, bufferLength, 0, n);
    SubSlice(b, current + NET_HEADER_SIZE, bufferLength, n, |moved|);
    assert w[current + n..end] == w[current + n..];
  }

  /** What a whole chunk that is not empty leads to: the end of the packet, or the next turn with one full chunk more.
      A full chunk is never all there at a start that is not zero, so the buffer is not moved then. */
  lemma WholeChunk(b: seq<Byte>, more: seq<Byte>, parsed: Parsed, limit: nat, bufferLength: nat, start: nat,
                   current: nat, multi: bool, acc: seq<Byte>, grown: nat)
    returns (acc': seq<Byte>, grown': nat)
    requires Collecting(b, more, parsed, limit, bufferLength, start, current, multi, acc, grown)
    requires !Incomplete(b[current..bufferLength]) && Uint3(b[current..bufferLength]) > 0
    ensures var length := Uint3(b[current..bufferLength]);
      var b' := if multi then WithoutHeader(b, current, bufferLength) else b;
      var end, next := if multi then bufferLength - NET_HEADER_SIZE else bufferLength, current + length + (if multi then 0 else NET_HEADER_SIZE);
      if length < MAX_PACKET_LENGTH then Collected(b', more, parsed, end, start, next, false)
      else start == 0 && next <= end && Collecting(b', more, parsed, limit, end, 0, next, true, acc', grown')
  {
    hide Parse, Uint3, Put;
    var length := Uint3(b[current..bufferLength]);
    var body := b[current + NET_HEADER_SIZE..current + NET_HEADER_SIZE + length];
    var rest := b[current + NET_HEADER_SIZE + length..bufferLength] + more;
    ChunkTaken(b, more, current, bufferLength, acc, grown, limit);
    if multi { HeaderRemoved(b, current, bufferLength, length); }
    acc', grown' := acc + body, 0;
    assert !multi ==> acc' == body;
    if length == MAX_PACKET_LENGTH {
      grown' :| Parse(b[current..bufferLength] + more, acc, grown, limit) == Parse(rest, acc + body, grown', limit);
    }
  }

  lemma ShiftDown(b: seq<Byte>, more: seq<Byte>, parsed: Parsed, limit: nat, bufferLength: nat, start: nat,
                  current: nat, multi: bool, acc: seq<Byte>, grown: nat)
    requires Collecting(b, more, parsed, limit, bufferLength, start, current, multi, acc, grown) && start > 0
    ensures current == start && !multi
    ensures var b' := Put(b, 0, b[start..bufferLength]);
      && Collecting(b', more, parsed, limit, bufferLength - start, 0, 0, multi, acc, grown)
      && b'[0..bufferLength - start] == b[start..bufferLength]
  {
    hide Parse, Uint3, Put;
    var b' := Put(b, 0, b[start..bufferLength]);
    assert b'[0..bufferLength - start] == b[start..bufferLength];
  }

  /** A packet that is not yet whole needs another frame; that frame is whole, and there is room for it. */
  lemma WantsFrame(b: seq<Byte>, c: Codec, s: seq<Byte>, parsed: Parsed, limit: nat, bufferLength: nat, start: nat,
                   current: nat, multi: bool, acc: seq<Byte>, grown: nat, maxPacketSize: nat)
    requires Collecting(b, Plain(c, s), parsed, limit, bufferLength, start, current, multi, acc, grown) && start == 0
    requires Incomplete(b[current..bufferLength])
    ensures HasRoom(parsed, maxPacketSize) ==> bufferLength + MAX_PACKET_LENGTH < maxPacketSize
    ensures limit + MAX_PACKET_LENGTH <= maxPacketSize ==> bufferLength + MAX_PACKET_LENGTH < maxPacketSize
    ensures parsed.Packet? ==> Good(c, s)
    ensures HasRoom(parsed, maxPacketSize) ==> parsed.Packet?
  {
    hide Parse, Uint3, Complete, Uncompressed;
    var part, more := b[current..bufferLength], Plain(c, s);
    if parsed.Packet? {
      ParseWhole(part + more, acc, grown, limit);
      if |part| >= NET_HEADER_SIZE { SamePrefix(part, more); }
    }
  }

  /** Where the loop stops between two chunks. */
  predicate BetweenChunks(current: nat, multi: bool) {
    if multi then current > NET_HEADER_SIZE && (current - NET_HEADER_SIZE) % MAX_PACKET_LENGTH == 0 else current == 0
  }

  /** The length of some full chunks, or of none. */
  predicate FullChunks(n: int) {
    n >= 0 && n % MAX_PACKET_LENGTH == 0
  }

  lemma ChunksBefore(current: nat, multi: bool)
    requires BetweenChunks(current, multi)
    ensures multi ==> current >= NET_HEADER_SIZE + MAX_PACKET_LENGTH && FullChunks(current - NET_HEADER_SIZE)
    ensures !multi ==> current == 0 && FullChunks(current)
  {
  }

  lemma StopsHere(b: seq<Byte>, more: seq<Byte>, parsed: Parsed, limit: nat, bufferLength: nat, start: nat,
                  current: nat, multi: bool, acc: seq<Byte>, grown: nat)
    requires Collecting(b, more, parsed, limit, bufferLength, start, current, multi, acc, grown) && start == 0
    ensures BetweenChunks(current, multi) && current < limit
  {
    hide Parse, Uint3;
  }

  lemma BrokenFrame(c: Codec, s: seq<Byte>)
    ensures Broken(c, s) ==> Complete(s)
    ensures Complete(s) ==> if Good(c, s) then Broken(c, s) == Broken(c, After(s)) else Broken(c, s)
  {
    hide Complete, Uncompressed, After;
  }

  lemma Counted(b: seq<Byte>, more: seq<Byte>, parsed: Parsed, bufferLength: nat, start: nat, current: nat, empty: bool)
    requires Collected(b, more, parsed, bufferLength, start, current, empty)
    ensures parsed.Packet? && current <= bufferLength && bufferLength - current + |more| == |parsed.rest|
  {
    hide EndsEmpty;
    assert |b[current..bufferLength] + more| == |parsed.rest|;
  }

  lemma StillAhead(b: seq<Byte>, more: seq<Byte>, parsed: Parsed, limit: nat, bufferLength: nat, start: nat,
                   current: nat, multi: bool, acc: seq<Byte>, grown: nat)
    requires Collecting(b, more, parsed, limit, bufferLength, start, current, multi, acc, grown) && parsed.Packet?
    ensures current <= bufferLength && bufferLength - current + |more| >= |parsed.rest|
  {
    hide Parse, Uint3;
    ParseWhole(b[current..bufferLength] + more, acc, grown, limit);
  }

  lemma FrameNeeded(b: seq<Byte>, more: seq<Byte>, parsed: Parsed, limit: nat, bufferLength: nat, start: nat,
                    current: nat, multi: bool, acc: seq<Byte>, grown: nat)
    requires Collecting(b, more, parsed, limit, bufferLength, start, current, multi, acc, grown) && parsed.Packet?
    requires Incomplete(b[current..bufferLength])
    ensures |more| > |parsed.rest|
  {
    hide Parse, Uint3;
    var part := b[current..bufferLength];
    ParseWhole(part + more, acc, grown, limit);
    if |part| >= NET_HEADER_SIZE { SamePrefix(part, more); }
  }

  /** With the content of another frame. */
  lemma FrameAdded(b: seq<Byte>, more: seq<Byte>, b': seq<Byte>, more': seq<Byte>, parsed: Parsed, limit: nat,
                   bufferLength: nat, newLength: nat, start: nat, current: nat, multi: bool, acc: seq<Byte>, grown: nat)
    requires Collecting(b, more, parsed, limit, bufferLength, start, current, multi, acc, grown) && start == 0
    requires Incomplete(b[current..bufferLength]) && bufferLength <= newLength <= |b'| && newLength <= bufferLength + MAX_PACKET_LENGTH
    requires b'[..bufferLength] == b[..bufferLength] && b'[..newLength] + more' == b[..bufferLength] + more
    ensures Collecting(b', more', parsed, limit, newLength, start, current, multi, acc, grown)
  {
    hide Parse, Uint3;
    var part, part' := b[current..bufferLength], b'[current..newLength];
    assert part' + more' == (b'[..newLength] + more')[current..];
    assert part + more == (b[..bufferLength] + more)[current..];
    assert part == b'[..bufferLength][current..];
    assert part' == part + b'[bufferLength..newLength];
    if |part| >= NET_HEADER_SIZE { SamePrefix(part, b'[bufferLength..newLength]); }
    if multi {
      assert b'[NET_HEADER_SIZE..current] == b'[..bufferLength][NET_HEADER_SIZE..current];
      assert b[NET_HEADER_SIZE..current] == b[..bufferLength][NET_HEADER_SIZE..current];
    }
  }

  /** What is pending after the byte at p was saved and overwritten: everything from `current` on if that byte is the
      first of it, otherwise the saved zero in place of the first. */
  lemma SavedByte(before: seq<Byte>, after: seq<Byte>, p: nat, current: nat, end: nat, saved: Byte)
    requires p <= current < end <= |before| && after == Put(before, p, [0]) && saved == before[p]
    requires p == current || (saved == 0 && p < current)
    ensures end <= |after|
    ensures [saved] + after[current + 1..end] == Spoiled(before[current..end], p < current)
  {
    hide Put;
    forall i | current < i < end ensures after[i] == before[i] {
    }
    assert before[current..end] == [before[current]] + before[current + 1..end];
    assert after[current + 1..end] == before[current + 1..end];
  }

  /** The packet is terminated, and what is pending behind it is the rest of the stream, but for a spoiled byte. */
  lemma Terminated(b: seq<Byte>, more: seq<Byte>, parsed: Parsed, bufferLength: nat, start: nat, current: nat, empty: bool)
    requires Collected(b, more, parsed, bufferLength, start, current, empty)
    ensures parsed.Packet? && start + NET_HEADER_SIZE <= current <= bufferLength <= |b| && bufferLength - current <= MAX_PACKET_LENGTH
    ensures empty <==> EndsEmpty(|parsed.payload|)
    ensures var p := start + NET_HEADER_SIZE + |parsed.payload|;
      && p == current - (if empty then NET_HEADER_SIZE else 0) && p <= |b|
      && var after, saved := Put(b, p, [0]), if p < |b| then b[p] else 0;
        && bufferLength <= |after| && p < |after| && after[start + NET_HEADER_SIZE..p] == parsed.payload && after[p] == 0
        && PendingOf(after, bufferLength - current, bufferLength, saved) + more
             == Spoiled(parsed.rest, empty && current < bufferLength)
  {
    hide Put, EndsEmpty, Spoiled;
    NotSpoiled(parsed.rest);
    var p := start + NET_HEADER_SIZE + |parsed.payload|;
    var after := Put(b, p, [0]);
    AfterPacket(b, after, start + NET_HEADER_SIZE, p, bufferLength);
    if current < bufferLength {
      SavedByte(b, after, p, current, bufferLength, b[p]);
      SpoiledFront(b[current..bufferLength], more, empty);
    }
  }

  lemma NotSpoiled(s: seq<Byte>)
    ensures Spoiled(s, false) == s
  {
  }

  lemma SpoiledFront(a: seq<Byte>, more: seq<Byte>, first: bool)
    requires a != []
    ensures Spoiled(a, first) + more == Spoiled(a + more, first)
  {
    assert [0] + a[1..] + more == [0] + (a + more)[1..];
  }

  lemma FrameRead(c: Codec, s: seq<Byte>, rest: seq<Byte>, len: nat, complen: nat, body: seq<Byte>)
    requires Complete(s) && len == Uint3(s) && complen == Uint3(s[NET_HEADER_SIZE..])
    requires body == s[COMP_HEADER_SIZE..COMP_HEADER_SIZE + len] && rest == s[COMP_HEADER_SIZE + len..]
    ensures Uncompressed(c, s) == Inflated(c, body, complen) && After(s) == rest
    ensures if Good(c, s) then Plain(c, s) == Content(c, s) + Plain(c, rest) else Plain(c, s) == []
  {
    hide Uint3, Inflated;
  }

  /** Content put behind what is in the buffer. */
  lemma Behind(b: seq<Byte>, b': seq<Byte>, n: nat, content: seq<Byte>, more: seq<Byte>)
    requires n <= |b| && b' == Put(b, n, content)
    ensures n + |content| <= |b'| && b'[..n] == b[..n] && b'[..n + |content|] + more == b[..n] + (content + more)
  {
    hide Put;
    assert b'[..n + |content|] == b'[..n] + b'[n..n + |content|];
  }

  /** A length read from the front of a part is the length at the front of the whole. */
  lemma SamePrefix(a: seq<Byte>, b: seq<Byte>)
    requires |a| >= 3
    ensures Uint3(a) == Uint3(a + b)
  {
  }

  /** Terminating the packet overwrites only the byte behind it. */
  lemma AfterPacket(before: seq<Byte>, after: seq<Byte>, readPos: nat, current: nat, end: nat)
    requires readPos <= current <= end <= |before| && after == Put(before, current, [0])
    ensures end <= |after| && current < |after|
    ensures after[readPos..current] == before[readPos..current] && after[current] == 0
    ensures current < end ==> before[current..end] == [before[current]] + after[current + 1..end]
  {
    assert after[current] == after[current..current + 1][0];
    forall i | readPos <= i < current ensures after[i] == before[i] {
      assert after[..current][i] == before[..current][i];
    }
  }

  function GrownTo(maxPacket: nat, need: nat): nat {
    if need >= maxPacket then RoundUp(need) else maxPacket
  }

  lemma Refilled(handed: seq<Byte>, buffered: seq<Byte>, packet: seq<Byte>, left: nat)
    requires left <= |packet|
    ensures handed + (buffered + packet[..left]) + packet[left..] == handed + buffered + packet
  {
    assert packet == packet[..left] + packet[left..];
  }

  lemma SplitBehind(head: seq<Byte>, rest: seq<Byte>, len: nat)
    requires len <= |rest|
    ensures (head + rest)[..|head| + len] == head + rest[..len] == [] + (head + rest[..len])
    ensures (head + rest)[|head| + len..] == rest[len..] == [] + rest[len..]
  {
  }

  lemma NextBytes(all: seq<Byte>, got: nat, data: seq<Byte>, rest: seq<Byte>)
    requires got <= |all| && data + rest == all[got..]
    ensures got + |data| <= |all| && rest == all[got + |data|..] && all[..got] + data == all[..got + |data|]
  {
    assert |data + rest| == |all| - got;
    forall i | 0 <= i < |data| ensures all[got + i] == data[i] {
      assert (data + rest)[i] == all[got..][i];
    }
    assert rest == (data + rest)[|data|..];
  }

  /** The first chunk of a long payload and the rest of them. */
  lemma NextChunk(w: seq<Byte>, payload: seq<Byte>, nr: nat, counted: bool)
    requires |payload| >= MAX_PACKET_LENGTH
    ensures var first, others := payload[..MAX_PACKET_LENGTH], payload[MAX_PACKET_LENGTH..];
      w + (Header(MAX_PACKET_LENGTH, if counted then nr else 0) + ([] + first)) + Chunks(others, nr + 1, counted)
        == w + Chunks(payload, nr, counted)
    ensures ChunkCount(|payload|) == ChunkCount(|payload| - MAX_PACKET_LENGTH) + 1
  {
    hide Header;
    var first, others := payload[..MAX_PACKET_LENGTH], payload[MAX_PACKET_LENGTH..];
    assert [] + first == first;
  }

  /** What was written before, followed by a payload in the wire format. */
  predicate Added(before: seq<Byte>, after: seq<Byte>, payload: seq<Byte>, nr: nat, counted: bool) {
    before <= after && OnWire(after[|before|..], payload, nr, counted)
  }

  lemma AddedBytes(before: seq<Byte>, after: seq<Byte>, payload: seq<Byte>, nr: nat, counted: bool)
    requires after == before + Chunks(payload, nr, counted)
    ensures Added(before, after, payload, nr, counted)
    ensures |payload| < 0xFF_FFFF && counted ==>
      var w := after[|before|..];
      && |w| == 4 + |payload|
      && w[0] as nat + 256 * (w[1] as nat) + 65536 * (w[2] as nat) == |payload| && w[3] as nat == nr % 256 && w[4..] == payload
  {
    hide Chunks;
    var w := after[|before|..];
    assert w == Chunks(payload, nr, counted);
    ChunksOnWire(w, payload, nr, counted);
    if |payload| < 0xFF_FFFF { assert w[4..] == w[4..4 + |payload|] && payload[..|payload|] == payload; }
  }

  lemma LastChunk(payload: seq<Byte>, nr: nat, counted: bool)
    requires |payload| < MAX_PACKET_LENGTH
    ensures Chunks(payload, nr, counted) == Header(|payload|, if counted then nr else 0) + ([] + payload)
    ensures ChunkCount(|payload|) == 1
  {
    hide Header;
    assert [] + payload == payload;
  }

  lemma {:induction false} UncountedChunks(payload: seq<Byte>, nr: nat, nr': nat, counted: bool)
    requires counted ==> nr == nr'
    ensures Chunks(payload, nr, counted) == Chunks(payload, nr', counted)
    decreases |payload|
  {
    if |payload| >= MAX_PACKET_LENGTH { UncountedChunks(payload[MAX_PACKET_LENGTH..], nr + 1, nr' + 1, counted); }
  }
}

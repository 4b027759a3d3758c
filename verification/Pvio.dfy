/** The transport below the packets, with its read-ahead cache. */
module Pvios {
  import opened Bytes

  const CACHE_SIZE: nat := 16384
  const CACHE_MIN_SIZE: nat := 2048

  function Min(a: nat, b: nat): nat { if a < b then a else b }

  class Pvio {
    /** The most that the i-th read or write call of the transport moves; 0 makes the call fail. */
    const readSize: nat -> nat
    const writeSize: nat -> nat
    /** Whether the cache could be allocated. */
    const cached: bool
    var readCalls: nat
    var writeCalls: nat
    /** Bytes that arrive and have not been read, and bytes written. */
    var incoming: seq<Byte>
    var wire: seq<Byte>
    var cache: seq<Byte>
    var cachePos: nat
    var cacheSize: nat
    /** All bytes taken from the transport, and all bytes handed to the caller. */
    ghost var consumed: seq<Byte>
    ghost var returned: seq<Byte>

    /** Bytes in the cache that no caller has seen. */
    ghost function Unread(): seq<Byte>
      reads this`cache, this`cachePos, this`cacheSize
    {
      if cachePos < cacheSize <= |cache| then cache[cachePos..cacheSize] else []
    }

    /** Everything still to come, wherever it is. */
    ghost function Ahead(): seq<Byte>
      reads this
    {
      Unread() + incoming
    }

    /** The cache neither loses, repeats nor reorders bytes. */
    ghost predicate Valid()
      reads this
    {
      |cache| == CACHE_SIZE && cacheSize <= CACHE_SIZE && (!cached ==> cacheSize == 0) && consumed == returned + Unread()
    }

    /** No call of the transport fails. */
    ghost predicate Reliable() {
      (forall i :: readSize(i) > 0) && (forall i :: writeSize(i) > 0)
    }

    constructor (readSize: nat -> nat, writeSize: nat -> nat, cached: bool, incoming: seq<Byte>)
      ensures Valid() && this.readSize == readSize && this.writeSize == writeSize && this.cached == cached
      ensures Ahead() == this.incoming == incoming && wire == [] && returned == []
    {
      this.readSize, this.writeSize, this.cached, this.incoming := readSize, writeSize, cached, incoming;
      readCalls, writeCalls, wire := 0, 0, [];
      cache, cachePos, cacheSize := seq(CACHE_SIZE, _ => 0), 0, 0;
      consumed, returned := [], [];
    }

    /** `ma_pvio_read`: any number of bytes up to the length, none when the call fails or nothing is left. */
    method Read(length: nat) returns (data: seq<Byte>)
      modifies this`readCalls, this`incoming, this`consumed
      ensures data + incoming == old(incoming) && consumed == old(consumed) + data
      ensures |data| == Min(readSize(old(readCalls)), Min(length, |old(incoming)|)) && readCalls == old(readCalls) + 1
      ensures Reliable() ==> |data| == 0 ==> length == 0 || old(incoming) == []
    {
      var r := Min(readSize(readCalls), Min(length, |incoming|));
      data := incoming[..r];
      incoming, readCalls, consumed := incoming[r..], readCalls + 1, consumed + data;
    }

    /** `ma_pvio_write`: any number of bytes up to all of them. */
    method Write(data: seq<Byte>) returns (r: nat)
      modifies this`writeCalls, this`wire
      ensures r <= |data| && wire == old(wire) + data[..r]
      ensures Reliable() && data != [] ==> r > 0
    {
      r := Min(writeSize(writeCalls), |data|);
      wire, writeCalls := wire + data[..r], writeCalls + 1;
    }

    /** Bytes that are already in the cache. */
    method TakeCached(length: nat) returns (data: seq<Byte>)
      requires |cache| == CACHE_SIZE && cachePos < cacheSize <= CACHE_SIZE
      modifies this`cachePos
      ensures data + Unread() == old(Unread()) && |data| == Min(length, |old(Unread())|) && old(Unread()) != []
    {
      var r := Min(length, cacheSize - cachePos);
      data := cache[cachePos..cachePos + r];
      cachePos := cachePos + r;
    }

    /** The cache is read full; what the caller did not ask for stays in it. */
    method ReadAhead(length: nat) returns (data: seq<Byte>, ghost all: seq<Byte>)
      requires |cache| == CACHE_SIZE && cacheSize <= cachePos && cacheSize <= CACHE_SIZE && cached
      modifies this`readCalls, this`incoming, this`cache, this`cachePos, this`cacheSize, this`consumed
      ensures |cache| == CACHE_SIZE && cacheSize <= CACHE_SIZE
      ensures data + Unread() == all && all + incoming == old(incoming) && consumed == old(consumed) + all
      ensures |all| == Min(readSize(old(readCalls)), Min(16384, |old(incoming)|)) && readCalls == old(readCalls) + 1
      ensures |data| == Min(length, |all|) && (Reliable() && length > 0 && old(incoming) != [] ==> data != [])
    {
      data := Read(CACHE_SIZE);
      all := data;
      if |data| > 0 {
        cache := Put(cache, 0, data);
        if length < |data| {
          cacheSize, cachePos := |data|, length;
          data := cache[..length];
          assert cache[..|all|] == all;
        }
      }
    }

    lemma CacheEmpty()
      ensures cachePos >= cacheSize ==> Unread() == []
    {
    }

    /** `ma_pvio_cache_read`: the next bytes of the stream, whatever the transport delivers. What is in the cache is used
        up without a call of the transport; otherwise there is one call, which for a short length fills the cache. */
    method CacheRead(length: nat) returns (data: seq<Byte>)
      requires Valid()
      modifies this`readCalls, this`incoming, this`cache, this`cachePos, this`cacheSize, this`consumed, this`returned
      ensures Valid()
      ensures data + Ahead() == old(Ahead()) && |data| <= length && returned == old(returned) + data
      ensures Reliable() && length > 0 && old(Ahead()) != [] ==> data != []
      ensures old(Unread()) != [] ==> |data| == Min(length, |old(Unread())|) && readCalls == old(readCalls)
      ensures old(Unread()) == [] ==>
        var ask := if cached && length < 2048 then 16384 else length;
        var taken := Min(readSize(old(readCalls)), Min(ask, |old(incoming)|));
        && readCalls == old(readCalls) + 1 && incoming == old(incoming)[taken..]
        && |data| == Min(length, taken) && |Unread()| == taken - |data|
    {
      hide Unread, Reliable;
      CacheEmpty();
      if !cached {
        data := Read(length);
      } else if cacheSize > cachePos {
        data := TakeCached(length);
        assert returned + old(Unread()) == returned + data + Unread();
        assert data + Unread() + incoming == data + (Unread() + incoming);
      } else if length >= CACHE_MIN_SIZE {
        data := Read(length);
      } else {
        ghost var all;
        data, all := ReadAhead(length);
        assert returned + all == returned + data + Unread();
        assert all + incoming == data + (Unread() + incoming);
      }
      returned := returned + data;
    }
  }
}

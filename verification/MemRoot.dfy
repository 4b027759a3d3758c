/** The memory root: many small allocations out of few blocks, all released together. */
module MemRoots {
  import opened Options

  const HEADER: nat := 24
  const MIN_MALLOC: nat := 32

  /** `ALIGN_SIZE`. */
  function Align(n: nat): (r: nat)
    ensures n <= r < n + 8 && r % 8 == 0
  {
    (n + 7) / 8 * 8
  }

  /** A block; its address is the number it is stored under. */
  datatype Block = Block(size: nat, left: nat)

  datatype Address = Address(block: nat, offset: nat)

  function Sum(s: seq<nat>): nat {
    if |s| == 0 then 0 else Sum(s[..|s| - 1]) + s[|s| - 1]
  }

  /** Header, bytes handed out and bytes left make up the block; all pieces are multiples of eight. */
  ghost predicate Conserved(b: Block, given: seq<nat>) {
    HEADER + Sum(given) + b.left == b.size && forall i :: 0 <= i < |given| ==> given[i] % 8 == 0
  }

  /** Where piece k of a block starts. */
  ghost function Start(given: seq<nat>, k: nat): nat
    requires k <= |given|
  {
    HEADER + Sum(given[..k])
  }

  lemma {:induction false} SumPrefix(given: seq<nat>, k: nat)
    requires k <= |given|
    ensures Sum(given[..k]) <= Sum(given)
    decreases |given|
  {
    if k == |given| {
      assert given[..k] == given;
    } else {
      SumPrefix(given[..|given| - 1], k);
      assert given[..|given| - 1][..k] == given[..k];
    }
  }

  lemma {:induction false} SumAligned(given: seq<nat>)
    requires forall i :: 0 <= i < |given| ==> given[i] % 8 == 0
    ensures Sum(given) % 8 == 0
  {
    if |given| > 0 { SumAligned(given[..|given| - 1]); }
  }

  /** Pieces handed out of one block are aligned, inside it and do not overlap. */
  lemma PiecesDisjoint(b: Block, given: seq<nat>, j: nat, k: nat)
    requires Conserved(b, given) && j < k < |given|
    ensures HEADER <= Start(given, j) && Start(given, j) + given[j] <= Start(given, k)
    ensures Start(given, k) + given[k] <= b.size
    ensures Start(given, j) % 8 == 0 && Start(given, k) % 8 == 0
  {
    hide Sum;
    SumAligned(given[..j]);
    SumAligned(given[..k]);
    SumPrefix(given[..k], j + 1);
    assert given[..k][..j + 1] == given[..j + 1];
    SumNext(given, j);
    SumPrefix(given, k + 1);
    SumNext(given, k);
  }

  lemma SumNext(given: seq<nat>, k: nat)
    requires k < |given|
    ensures Sum(given[..k + 1]) == Sum(given[..k]) + given[k]
  {
    assert given[..k + 1][..k] == given[..k];
  }

  /** Memory in use: where it was handed out and how much of it was asked for. */
  datatype Area = Area(at: Address, size: nat)

  /** No byte is in both. */
  ghost predicate Apart(a: Area, b: Area) {
    || a.at.block != b.at.block || a.at.offset + a.size <= b.at.offset || b.at.offset + b.size <= a.at.offset
  }

  /** Area i is, or begins, piece pieces[i] of its block; no two are the same piece. */
  ghost predicate Owned(given: map<nat, seq<nat>>, live: seq<Area>, pieces: seq<nat>) {
    && |pieces| == |live|
    && (forall i :: 0 <= i < |live| ==> IsPiece(given, live[i], pieces[i]))
    && (forall i, j :: 0 <= i < j < |live| ==> live[i].at.block != live[j].at.block || pieces[i] != pieces[j])
  }

  ghost predicate IsPiece(given: map<nat, seq<nat>>, a: Area, k: nat) {
    a.at.block in given && k < |given[a.at.block]| && a.at.offset == Start(given[a.at.block], k) && a.size <= given[a.at.block][k]
  }

  lemma PiecesApart(blocks: map<nat, Block>, given: map<nat, seq<nat>>, a: Area, k: nat, b: Area, l: nat)
    requires IsPiece(given, a, k) && IsPiece(given, b, l) && (a.at.block != b.at.block || k != l)
    requires a.at.block in blocks && Conserved(blocks[a.at.block], given[a.at.block])
    ensures Apart(a, b)
  {
    if a.at.block == b.at.block {
      if k < l {
        PiecesDisjoint(blocks[a.at.block], given[a.at.block], k, l);
      } else {
        PiecesDisjoint(blocks[a.at.block], given[a.at.block], l, k);
      }
    }
  }

  /** A new piece is none of those in use. */
  lemma OneMoreOwned(given: map<nat, seq<nat>>, given': map<nat, seq<nat>>, live: seq<Area>, pieces: seq<nat>, a: Area, need: nat)
    requires Owned(given, live, pieces) && a.size <= need
    requires var before := if a.at.block in given then given[a.at.block] else [];
      given' == given[a.at.block := before + [need]] && a.at.offset == HEADER + Sum(before)
    ensures var before := if a.at.block in given then given[a.at.block] else [];
      Owned(given', live + [a], pieces + [|before|])
  {
    hide Sum;
    var before := if a.at.block in given then given[a.at.block] else [];
    assert (before + [need])[..|before|] == before;
    forall i | 0 <= i < |live| ensures IsPiece(given', live[i], pieces[i]) {
      assert IsPiece(given, live[i], pieces[i]);
      if live[i].at.block == a.at.block {
        assert (before + [need])[..pieces[i]] == before[..pieces[i]];
      }
    }
  }

  // ---- Which block is taken ----

  ghost predicate HasRoom(blocks: map<nat, Block>, id: nat, need: nat) {
    id in blocks && blocks[id].left >= need
  }

  /** The first block of a list that has room. */
  ghost predicate FirstFit(list: seq<nat>, blocks: map<nat, Block>, id: nat, need: nat) {
    exists i :: 0 <= i < |list| && list[i] == id && HasRoom(blocks, id, need) && NoneBefore(list, blocks, i, need)
  }

  ghost predicate NoneBefore(list: seq<nat>, blocks: map<nat, Block>, i: nat, need: nat)
    requires i <= |list|
  {
    forall j :: 0 <= j < i ==> !HasRoom(blocks, list[j], need)
  }

  lemma NoneBeforeFirst(list: seq<nat>, blocks: map<nat, Block>, need: nat)
    ensures NoneBefore(list, blocks, 0, need)
  {
  }

  /** The search of what is left of a list, without a first block that has no room, finds the first block with room. */
  lemma Searched(list: seq<nat>, blocks: map<nat, Block>, left: seq<nat>, i: nat, need: nat)
    requires left == list || (|list| > 0 && left == list[1..] && !HasRoom(blocks, list[0], need))
    requires i <= |left| && (i < |left| ==> HasRoom(blocks, left[i], need)) && NoneBefore(left, blocks, i, need)
    ensures if i < |left| then left[i] in list && FirstFit(list, blocks, left[i], need)
      else forall x :: x in list ==> !HasRoom(blocks, x, need)
  {
    hide HasRoom;
    var k := if left == list then i else i + 1;
    forall j | 0 <= j < k ensures !HasRoom(blocks, list[j], need) {
      if left != list && j > 0 {
        assert list[j] == left[j - 1];
      }
    }
    if i < |left| {
      assert list[k] == left[i] && NoneBefore(list, blocks, k, need);
    }
  }

  /** The size of a new block: what is asked for and its header, or the usual size, which grows every four blocks. */
  ghost predicate SizeOfNew(n: nat, need: nat, blockSize: nat, blockNum: nat) {
    var usual := (blockSize - blockSize % 2) * (blockNum / 4);
    n == if need + 24 > usual then need + 24 else usual
  }

  /** A list without some of its blocks. */
  function Without(list: seq<nat>, gone: set<nat>): seq<nat> {
    if |list| == 0 then []
    else Without(list[..|list| - 1], gone) + if list[|list| - 1] in gone then [] else [list[|list| - 1]]
  }

  lemma {:induction false} WithoutNone(list: seq<nat>, gone: set<nat>)
    requires forall x :: x in list ==> x !in gone
    ensures Without(list, gone) == list
  {
    if |list| > 0 { WithoutNone(list[..|list| - 1], gone); }
  }

  lemma {:induction false} WithoutAppend(a: seq<nat>, b: seq<nat>, gone: set<nat>)
    ensures Without(a + b, gone) == Without(a, gone) + Without(b, gone)
    decreases |b|
  {
    if |b| == 0 {
      assert a + b == a;
    } else {
      WithoutAppend(a, b[..|b| - 1], gone);
      assert (a + b)[..|a + b| - 1] == a + b[..|b| - 1];
    }
  }

  predicate Distinct(list: seq<nat>) {
    forall i, j :: 0 <= i < j < |list| ==> list[i] != list[j]
  }

  /** One element goes. */
  lemma WithoutAt(list: seq<nat>, i: nat, gone: set<nat>)
    requires Distinct(list) && i < |list| && list[i] in gone && forall x :: x in gone && x in list ==> x == list[i]
    ensures Without(list, gone) == list[..i] + list[i + 1..]
  {
    hide Without;
    WithoutAppend(list[..i] + [list[i]], list[i + 1..], gone);
    WithoutAppend(list[..i], [list[i]], gone);
    WithoutNone(list[..i], gone);
    WithoutNone(list[i + 1..], gone);
    WithoutIt(list[i], gone);
    assert list == list[..i] + [list[i]] + list[i + 1..];
  }

  lemma WithoutIt(x: nat, gone: set<nat>)
    requires x in gone
    ensures Without([x], gone) == []
  {
    assert [x][..0] == [];
  }

  lemma WithoutFirst(list: seq<nat>, gone: set<nat>)
    requires |list| > 0 && list[0] in gone
    ensures Without(list, gone) == Without(list[1..], gone)
  {
    hide Without;
    WithoutAppend([list[0]], list[1..], gone);
    WithoutIt(list[0], gone);
    assert [list[0]] + list[1..] == list && [] + Without(list[1..], gone) == Without(list[1..], gone);
  }

  /** The free list after an allocation, with or without the first block and the one that was taken. */
  lemma Taken(all: seq<nat>, left: seq<nat>, i: nat, stale: bool)
    requires Distinct(all) && |all| > 0 && left == (if stale then all[1..] else all) && i < |left|
    ensures var gone := if stale then {all[0]} else {};
      Without(all, {} + gone) == left && Without(all, {left[i]} + gone) == left[..i] + left[i + 1..]
  {
    hide Without;
    var gone := if stale then {all[0]} else {};
    if stale {
      WithoutFirst(all, {} + gone);
      WithoutFirst(all, {left[i]} + gone);
    }
    assert forall x :: x in left ==> x !in gone;
    WithoutNone(left, {} + gone);
    WithoutAt(left, i, {left[i]} + gone);
  }

  datatype Op = AllocOp(size: nat, hasMemory: bool) | FreeOp(keepPreAlloc: bool)

  /** The sizes asked for since the last release. */
  function Asked(ops: seq<Op>): seq<nat> {
    if |ops| == 0 then []
    else
      var last := ops[|ops| - 1];
      if last.FreeOp? then [] else Asked(ops[..|ops| - 1]) + [last.size]
  }

  ghost predicate SizesAre(live: seq<Area>, sizes: seq<nat>) {
    |live| == |sizes| && forall i :: 0 <= i < |live| ==> live[i].size == sizes[i]
  }

  class MemRoot {
    var free: seq<nat>
    var used: seq<nat>
    var blocks: map<nat, Block>
    var preAlloc: Option<nat>
    const blockSize: nat
    var blockNum: nat
    var firstBlockUsage: nat
    /** The next address `malloc` returns. */
    var next: nat
    /** The pieces handed out of each block, and the blocks released. */
    ghost var given: map<nat, seq<nat>>
    ghost var released: multiset<nat>

    /** Every block is in exactly one of the lists, once, and accounts for all its bytes. */
    ghost predicate Valid()
      reads this
    {
      && Listed(free, used, blocks.Keys) && given.Keys == blocks.Keys
      && (forall id {:trigger blocks[id]} :: id in blocks ==> id < next && Conserved(blocks[id], given[id]))
      && (preAlloc.Some? ==> preAlloc.value in blocks)
    }

    /** `ma_init_alloc_root`; a block to start with is allocated if a size is given and there is memory. */
    constructor (blockSize: nat, preAllocSize: nat, hasMemory: bool)
      ensures Valid() && released == multiset{}
      ensures if preAllocSize > 0 && hasMemory then preAlloc.Some? && given == map[preAlloc.value := []] else preAlloc.None? && given == map[]
    {
      this.blockSize := blockSize;
      blockNum, firstBlockUsage, next, released := 4, 0, 0, multiset{};
      free, used, blocks, given, preAlloc := [], [], map[], map[], None;
      if preAllocSize > 0 && hasMemory {
        free, preAlloc, next := [0], Some(0), 1;
        blocks, given := map[0 := Block(preAllocSize + HEADER, preAllocSize)], map[0 := []];
      }
    }

    /** Block i of the free list goes to the front of the used list. */
    method Retire(i: nat)
      requires i < |free| && Listed(free, used, blocks.Keys)
      modifies this`free, this`used, this`firstBlockUsage
      ensures Listed(free, used, blocks.Keys) && firstBlockUsage == 0
      ensures free == old(free)[..i] + old(free)[i + 1..] && used == [old(free)[i]] + old(used)
    {
      hide Listed;
      RetireListed(free, used, blocks.Keys, i);
      used := [free[i]] + used;
      free := free[..i] + free[i + 1..];
      firstBlockUsage := 0;
    }

    /** The first free block has no room. */
    ghost predicate Misses(need: nat)
      reads this`free, this`blocks
    {
      |free| > 0 && !HasRoom(blocks, free[0], need)
    }

    /** That happens for the 17th time, and little is left in it. */
    ghost predicate Stale(need: nat)
      reads this`free, this`blocks, this`firstBlockUsage
    {
      Misses(need) && firstBlockUsage >= 16 && free[0] in blocks && blocks[free[0]].left < 4096
    }

    /** The first free block may be retired, then the free list is searched. */
    method FindFit(size: nat) returns (i: nat)
      requires Valid()
      modifies this`free, this`used, this`firstBlockUsage
      ensures Valid() && i <= |free| && (i < |free| ==> HasRoom(blocks, free[i], size)) && NoneBefore(free, blocks, i, size)
      ensures if old(Stale(size)) then free == old(free)[1..] && used == [old(free)[0]] + old(used) && firstBlockUsage == 0
        else free == old(free) && used == old(used) && firstBlockUsage == old(firstBlockUsage) + if old(Misses(size)) then 1 else 0
    {
      hide Listed, Conserved, NoneBefore;
      i := 0;
      NoneBeforeFirst(free, blocks, size);
      if |free| > 0 {
        InList(free, used, blocks.Keys, 0);
        if blocks[free[0]].left < size {
          firstBlockUsage := firstBlockUsage + 1;
          if firstBlockUsage > 16 && blocks[free[0]].left < 4096 {
            Retire(0);
          }
        }
        i := Search(size);
      }
    }

    /** The search of the free list. */
    method Search(size: nat) returns (i: nat)
      requires Valid()
      ensures i <= |free| && (i < |free| ==> HasRoom(blocks, free[i], size)) && NoneBefore(free, blocks, i, size)
    {
      hide Listed, Conserved;
      i := 0;
      while i < |free|
        invariant i <= |free| && NoneBefore(free, blocks, i, size)
      {
        InList(free, used, blocks.Keys, i);
        if blocks[free[i]].left >= size { return; }
        i := i + 1;
      }
    }

    /** A new block at the end of the free list. */
    method NewBlock(size: nat)
      requires Valid()
      modifies this`free, this`blocks, this`blockNum, this`next, this`given
      ensures Valid() && free == old(free) + [old(next)] && given == old(given)[old(next) := []]
      ensures old(next) !in old(blocks) && blockNum == old(blockNum) + 1
      ensures old(next) in blocks && blocks == old(blocks)[old(next) := blocks[old(next)]]
      ensures var b := blocks[old(next)]; SizeOfNew(b.size, size, blockSize, old(blockNum)) && b.left + 24 == b.size && b.left >= size
    {
      hide Listed;
      var least, usual := size + HEADER, (blockSize - blockSize % 2) * (blockNum / 4);
      var getSize := if least > usual then least else usual;
      blockNum := blockNum + 1;
      NewListed(free, used, blocks.Keys, next);
      free := free + [next];
      blocks, given := blocks[next := Block(getSize, getSize - HEADER)], given[next := []];
      assert blocks.Keys == old(blocks.Keys) + {next};
      next := next + 1;
    }

    /** `ma_alloc_root`: the piece is aligned and inside its block, and starts where the pieces before it end. */
    method Alloc(size: nat, hasMemory: bool) returns (p: Option<Address>)
      requires Valid()
      modifies this
      ensures Valid() && preAlloc == old(preAlloc) && released == old(released)
      ensures p.None? <==> !hasMemory && forall id :: id in old(free) ==> !HasRoom(old(blocks), id, Align(size))
      ensures p.None? ==> given == old(given) && blocks == old(blocks)
      ensures p.Some? ==>
        var id, before := p.value.block, if p.value.block in old(given) then old(given)[p.value.block] else [];
        && id in blocks && given == old(given)[id := before + [Align(size)]] && blocks == old(blocks)[id := blocks[id]]
        && p.value.offset == HEADER + Sum(before) && p.value.offset % 8 == 0 && p.value.offset + size <= blocks[id].size
      ensures p.Some? ==>
        var id := p.value.block;
        if exists x :: x in old(free) && HasRoom(old(blocks), x, Align(size))
        then FirstFit(old(free), old(blocks), id, Align(size)) && blocks[id].size == old(blocks)[id].size && blockNum == old(blockNum)
        else id == old(next) && id !in old(blocks) && SizeOfNew(blocks[id].size, Align(size), blockSize, old(blockNum))
             && blockNum == old(blockNum) + 1
      ensures p.Some? ==>
        var id, full, stale := p.value.block, blocks[p.value.block].left < 32, old(Stale(Align(size)));
        && used == (if full then [id] else []) + ((if stale then [old(free)[0]] else []) + old(used))
        && free == Without(if id in old(blocks) then old(free) else old(free) + [id],
                           (if full then {id} else {}) + (if stale then {old(free)[0]} else {}))
        && firstBlockUsage == if full || stale then 0 else old(firstBlockUsage) + if old(Misses(Align(size))) then 1 else 0
    {
      hide Listed, Align, Without, HasRoom, Valid, FirstFit, Stale, Misses, SizeOfNew;
      var need := Align(size);
      ghost var stale, was := Stale(need), free;
      DistinctFree();
      var found, i := FindBlock(need, hasMemory);
      if !found { return None; }
      ghost var all := if free[i] in old(blocks) then was else was + [free[i]];
      Taken(all, free, i, stale);
      p := TakeFrom(i, need);
    }

    lemma DistinctFree()
      requires Valid()
      ensures Distinct(free) && given.Keys == blocks.Keys && forall x :: x in free ==> x in blocks
    {
      hide Listed;
      ListedDistinct(free, used, blocks.Keys);
    }

    /** The block to take a piece from: the first one with room, otherwise a new one. */
    method FindBlock(need: nat, hasMemory: bool) returns (found: bool, i: nat)
      requires Valid()
      modifies this`free, this`used, this`firstBlockUsage, this`blocks, this`blockNum, this`next, this`given
      ensures Valid() && (!found <==> !hasMemory && forall id :: id in old(free) ==> !HasRoom(old(blocks), id, need))
      ensures !found ==> given == old(given) && blocks == old(blocks)
      ensures found ==> i < |free| && HasRoom(blocks, free[i], need)
      ensures found ==>
        var id := free[i];
        if exists x :: x in old(free) && HasRoom(old(blocks), x, need)
        then id in old(blocks) && FirstFit(old(free), old(blocks), id, need) && blocks == old(blocks) && given == old(given)
             && blockNum == old(blockNum)
        else id == old(next) && id !in old(blocks) && blocks == old(blocks)[id := blocks[id]] && given == old(given)[id := []]
             && SizeOfNew(blocks[id].size, need, blockSize, old(blockNum)) && blockNum == old(blockNum) + 1
      ensures found ==>
        var all := if free[i] in old(blocks) then old(free) else old(free) + [free[i]];
        if old(Stale(need)) then free == all[1..] && used == [old(free)[0]] + old(used) && firstBlockUsage == 0
        else free == all && used == old(used) && firstBlockUsage == old(firstBlockUsage) + if old(Misses(need)) then 1 else 0
    {
      hide Listed, FirstFit, SizeOfNew;
      ghost var was := free;
      i := FindFit(need);
      Searched(was, blocks, free, i, need);
      if i == |free| {
        if !hasMemory { return false, i; }
        NewBlock(need);
      } else {
        InList(free, used, blocks.Keys, i);
      }
      return true, i;
    }

    /** A piece of the i-th free block, which goes to the used ones when little is left. */
    method TakeFrom(i: nat, need: nat) returns (p: Option<Address>)
      requires Valid() && i < |free| && HasRoom(blocks, free[i], need) && need % 8 == 0
      modifies this`free, this`used, this`firstBlockUsage, this`blocks, this`given
      ensures Valid() && p.Some? && p.value.block == old(free)[i] && p.value.block in blocks
      ensures
        var id, left, before := old(free)[i], old(blocks[free[i]].left) - need, old(given)[old(free)[i]];
        && blocks == old(blocks)[id := Block(old(blocks)[id].size, left)] && given == old(given)[id := before + [need]]
        && p.value.offset == HEADER + Sum(before) && p.value.offset % 8 == 0 && p.value.offset + need <= blocks[id].size
        && if left < 32 then free == old(free)[..i] + old(free)[i + 1..] && used == [id] + old(used) && firstBlockUsage == 0
           else free == old(free) && used == old(used) && firstBlockUsage == old(firstBlockUsage)
    {
      hide Listed, Conserved;
      var id := free[i];
      var b := blocks[id];
      ghost var before, keys := given[id], blocks.Keys;
      TakePiece(b, before, need);
      PieceFits(b, before, need);
      p := Some(Address(id, b.size - b.left));
      blocks, given := blocks[id := b.(left := b.left - need)], given[id := before + [need]];
      assert blocks.Keys == keys;
      if b.left - need < MIN_MALLOC {
        Retire(i);
      }
    }

    /** `ma_free_root`: every block is released once, except a kept first block, which is as new. */
    method Free(keepPreAlloc: bool)
      requires Valid()
      modifies this
      ensures Valid() && used == [] && preAlloc == (if keepPreAlloc then old(preAlloc) else None)
      ensures released == old(released) + multiset(old(blocks.Keys) - (if preAlloc.Some? then {preAlloc.value} else {}))
      ensures if preAlloc.Some? then given == map[preAlloc.value := []] && free == [preAlloc.value] else given == map[] && free == []
    {
      hide Listed, Released;
      if !keepPreAlloc {
        preAlloc := None;
      }
      ReleaseAll();
      Reset();
    }

    /** Every run of allocations and releases: the areas handed out since the last release, which are all that were
        asked for unless memory ran out, never overlap and are aligned and inside their blocks. */
    method Run(ops: seq<Op>) returns (live: seq<Area>)
      requires Valid()
      modifies this
      ensures Valid()
      ensures (forall op :: op in ops && op.AllocOp? ==> op.hasMemory) ==> SizesAre(live, Asked(ops))
      ensures forall i, j :: 0 <= i < j < |live| ==> Apart(live[i], live[j])
      ensures forall i :: 0 <= i < |live| ==>
        var a := live[i];
        a.at.block in blocks && HEADER <= a.at.offset && a.at.offset % 8 == 0 && a.at.offset + a.size <= blocks[a.at.block].size
    {
      hide Listed, Owned, Align;
      live := [];
      ghost var pieces := [];
      NoneOwned(given);
      var n := 0;
      while n < |ops|
        invariant 0 <= n <= |ops| && Valid() && Owned(given, live, pieces)
        invariant (forall op :: op in ops && op.AllocOp? ==> op.hasMemory) ==> SizesAre(live, Asked(ops[..n]))
      {
        assert ops[n] in ops && ops[..n + 1][..n] == ops[..n];
        live, pieces := Step(ops[n], live, pieces);
        n := n + 1;
      }
      assert ops[..n] == ops;
      AllApart(blocks, given, live, pieces);
    }

    method Step(op: Op, live: seq<Area>, ghost pieces: seq<nat>) returns (live': seq<Area>, ghost pieces': seq<nat>)
      requires Valid() && Owned(given, live, pieces)
      modifies this
      ensures Valid() && Owned(given, live', pieces')
      ensures op.FreeOp? ==> live' == []
      ensures op.AllocOp? && op.hasMemory ==> |live'| == |live| + 1 && live' == live + [live'[|live|]] && live'[|live|].size == op.size
    {
      hide Owned, Sum;
      live', pieces' := live, pieces;
      match op {
        case AllocOp(size, hasMemory) =>
          ghost var was := given;
          var p := Alloc(size, hasMemory);
          if p.Some? {
            ghost var before := if p.value.block in was then was[p.value.block] else [];
            OneMoreOwned(was, given, live, pieces, Area(p.value, size), Align(size));
            live', pieces' := live + [Area(p.value, size)], pieces + [|before|];
          }
        case FreeOp(keepPreAlloc) =>
          Free(keepPreAlloc);
          NoneOwned(given);
          live', pieces' := [], [];
      }
    }

    method ReleaseAll()
      requires Listed(free, used, blocks.Keys) && (preAlloc.Some? ==> preAlloc.value in blocks)
      modifies this`released
      ensures released == old(released) + multiset(blocks.Keys - (if preAlloc.Some? then {preAlloc.value} else {}))
    {
      hide Listed, Released;
      ReleaseList(used);
      ReleaseList(free);
      AllReleased(free, used, blocks.Keys, preAlloc);
      SumsRegroup(old(released), Released(used, preAlloc), Released(free, preAlloc));
    }

    /** The lists after everything is released. */
    method Reset()
      requires Valid()
      modifies this`used, this`free, this`blocks, this`given
      ensures Valid() && used == []
      ensures if preAlloc.Some? then given == map[preAlloc.value := []] && free == [preAlloc.value] else given == map[] && free == []
    {
      hide Listed, Conserved;
      used, free := [], [];
      if preAlloc.Some? {
        var id := preAlloc.value;
        OneListed(id);
        BlockSize(blocks[id], given[id]);
        EmptyBlock(blocks[id].size);
        free := [id];
        blocks := map[id := Block(blocks[id].size, blocks[id].size - HEADER)];
        given := map[id := []];
        assert blocks.Keys == {id};
      } else {
        OneListed(0);
        blocks, given := map[], map[];
        assert blocks.Keys == {};
      }
    }

    /** One of the two loops of `ma_free_root`. */
    method ReleaseList(list: seq<nat>)
      modifies this`released
      ensures released == old(released) + Released(list, preAlloc)
    {
      hide Released;
      var i := 0;
      NoneReleased(preAlloc);
      while i < |list|
        invariant 0 <= i <= |list| && released == old(released) + Released(list[..i], preAlloc)
      {
        OneReleased(list, i, preAlloc);
        if Some(list[i]) != preAlloc {
          released := released + multiset{list[i]};
        }
        i := i + 1;
      }
      assert list[..i] == list;
    }
  }

  lemma NoneOwned(given: map<nat, seq<nat>>)
    ensures Owned(given, [], [])
  {
  }

  lemma AllApart(blocks: map<nat, Block>, given: map<nat, seq<nat>>, live: seq<Area>, pieces: seq<nat>)
    requires Owned(given, live, pieces) && given.Keys == blocks.Keys
    requires forall id {:trigger blocks[id]} :: id in blocks ==> Conserved(blocks[id], given[id])
    ensures forall i, j :: 0 <= i < j < |live| ==> Apart(live[i], live[j])
    ensures forall i :: 0 <= i < |live| ==>
      var a := live[i];
      a.at.block in blocks && HEADER <= a.at.offset && a.at.offset % 8 == 0 && a.at.offset + a.size <= blocks[a.at.block].size
  {
    hide Conserved, IsPiece, Apart;
    forall i, j | 0 <= i < j < |live| ensures Apart(live[i], live[j]) {
      PieceInside(blocks, given, live[i], pieces[i]);
      PiecesApart(blocks, given, live[i], pieces[i], live[j], pieces[j]);
    }
    forall i | 0 <= i < |live| ensures
      var a := live[i];
      a.at.block in blocks && HEADER <= a.at.offset && a.at.offset % 8 == 0 && a.at.offset + a.size <= blocks[a.at.block].size
    {
      PieceInside(blocks, given, live[i], pieces[i]);
    }
  }

  lemma PieceInside(blocks: map<nat, Block>, given: map<nat, seq<nat>>, a: Area, k: nat)
    requires IsPiece(given, a, k) && given.Keys == blocks.Keys
    requires forall id {:trigger blocks[id]} :: id in blocks ==> Conserved(blocks[id], given[id])
    ensures a.at.block in blocks && Conserved(blocks[a.at.block], given[a.at.block])
    ensures HEADER <= a.at.offset && a.at.offset % 8 == 0 && a.at.offset + a.size <= blocks[a.at.block].size
  {
    hide Sum;
    assert a.at.block in given.Keys;
    var b, s := blocks[a.at.block], given[a.at.block];
    SumAligned(s[..k]);
    SumPrefix(s, k + 1);
    SumNext(s, k);
  }

  /** The blocks of a list that are released. */
  ghost function Released(list: seq<nat>, kept: Option<nat>): multiset<nat> {
    if |list| == 0 then multiset{}
    else Released(list[..|list| - 1], kept) + (if Some(list[|list| - 1]) != kept then multiset{list[|list| - 1]} else multiset{})
  }

  lemma NoneReleased(kept: Option<nat>)
    ensures Released([], kept) == multiset{}
  {
  }

  lemma OneReleased(list: seq<nat>, i: nat, kept: Option<nat>)
    requires i < |list|
    ensures Released(list[..i + 1], kept) ==
      Released(list[..i], kept) + (if Some(list[i]) != kept then multiset{list[i]} else multiset{})
  {
    assert list[..i + 1][..i] == list[..i];
  }

  /** The two lists hold every block once. */
  ghost predicate Listed(free: seq<nat>, used: seq<nat>, keys: set<nat>) {
    multiset(free) + multiset(used) == multiset(keys)
  }

  lemma InList(free: seq<nat>, used: seq<nat>, keys: set<nat>, i: nat)
    requires Listed(free, used, keys) && i < |free|
    ensures free[i] in keys
  {
    assert free[i] in multiset(free);
    assert free[i] in multiset(keys);
  }

  lemma Twice(list: seq<nat>, i: nat, j: nat)
    requires i < j < |list| && list[i] == list[j]
    ensures multiset(list)[list[j]] >= 2
  {
    assert list == list[..j] + [list[j]] + list[j + 1..];
    assert list[..j][i] in multiset(list[..j]);
  }

  lemma ListedDistinct(free: seq<nat>, used: seq<nat>, keys: set<nat>)
    requires Listed(free, used, keys)
    ensures Distinct(free) && forall x :: x in free ==> x in keys
  {
    forall i, j | 0 <= i < j < |free| ensures free[i] != free[j] {
      assert (multiset(free) + multiset(used))[free[j]] == multiset(keys)[free[j]] <= 1;
      if free[i] == free[j] { Twice(free, i, j); }
    }
    forall x | x in free ensures x in keys {
      assert x in multiset(free) && x in multiset(keys);
    }
  }

  lemma RetireListed(free: seq<nat>, used: seq<nat>, keys: set<nat>, i: nat)
    requires Listed(free, used, keys) && i < |free|
    ensures Listed(free[..i] + free[i + 1..], [free[i]] + used, keys)
  {
    assert free == free[..i] + [free[i]] + free[i + 1..];
  }

  lemma NewListed(free: seq<nat>, used: seq<nat>, keys: set<nat>, id: nat)
    requires Listed(free, used, keys) && id !in keys
    ensures Listed(free + [id], used, keys + {id})
  {
    assert multiset(keys + {id}) == multiset(keys) + multiset{id};
  }

  lemma TakePiece(b: Block, given: seq<nat>, need: nat)
    requires Conserved(b, given) && need <= b.left && need % 8 == 0
    ensures Conserved(b.(left := b.left - need), given + [need])
  {
    assert (given + [need])[..|given|] == given;
  }

  lemma PieceFits(b: Block, given: seq<nat>, need: nat)
    requires Conserved(b, given) && need <= b.left
    ensures b.size - b.left == HEADER + Sum(given) && (b.size - b.left) % 8 == 0 && b.size - b.left + need <= b.size
  {
    SumAligned(given);
  }

  lemma BlockSize(b: Block, given: seq<nat>)
    requires Conserved(b, given)
    ensures b.size >= HEADER
  {
  }

  lemma EmptyBlock(size: nat)
    requires size >= HEADER
    ensures Conserved(Block(size, size - HEADER), [])
  {
  }

  lemma OneListed(id: nat)
    ensures Listed([id], [], {id}) && Listed([], [], {})
  {
  }

  lemma {:induction false} ReleasedIs(list: seq<nat>, kept: Option<nat>)
    ensures kept.None? ==> Released(list, kept) == multiset(list)
    ensures kept.Some? ==> Released(list, kept) == multiset(list)[kept.value := 0]
  {
    if |list| > 0 {
      var n := |list| - 1;
      ReleasedIs(list[..n], kept);
      assert list == list[..n] + [list[n]];
    }
  }

  lemma SumsRegroup(a: multiset<nat>, b: multiset<nat>, c: multiset<nat>)
    ensures a + b + c == a + (b + c)
  {
  }

  lemma AllReleased(free: seq<nat>, used: seq<nat>, keys: set<nat>, kept: Option<nat>)
    requires Listed(free, used, keys) && (kept.Some? ==> kept.value in keys)
    ensures Released(used, kept) + Released(free, kept) == multiset(keys - (if kept.Some? then {kept.value} else {}))
  {
    ReleasedIs(used, kept);
    ReleasedIs(free, kept);
    var all, rest := Released(used, kept) + Released(free, kept), keys - (if kept.Some? then {kept.value} else {});
    forall x ensures all[x] == multiset(rest)[x] {
      assert (multiset(free) + multiset(used))[x] == multiset(keys)[x];
    }
  }
}

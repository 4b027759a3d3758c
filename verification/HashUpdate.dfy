/** `hash_update`: a stored record has changed its key and is moved to its new bucket. */
module HashUpdate {
  import opened Bits
  import opened HashMasks
  import opened HashLinks
  import opened HashWalk
  import opened HashSplit
  import opened HashTables

  /** What `hash_update` comes to: return value 0, return value 1, or a read beyond the link array. */
  datatype Outcome = Done | NotFound | OutOfBounds

  /** The keys as they were when the record still had its old key. */
  function WithKey(keys: Keys, record: Ptr, key: Key): Keys {
    Keys((p: Ptr) => if p == record then key else keys.keyOf(p), keys.calcHashnr)
  }

  /** Moving record between buckets: `was` and `now` differ in its bucket only. */
  ghost predicate Rebucketed(was: Ptr -> int, now: Ptr -> int, record: Ptr, idx: int, newIndex: int) {
    && was(record) == idx && now(record) == newIndex && idx != newIndex
    && (forall p :: p != record ==> was(p) == now(p))
  }

  /** No other copy of the record is stored, so all other slots keep their bucket. */
  lemma OthersStay(d: seq<Link>, s: Shape, e: int, was: Ptr -> int, now: Ptr -> int, record: Ptr, idx: int,
                   newIndex: int)
    requires HomesMatch(d, s, {e}, was) && Rebucketed(was, now, record, idx, newIndex)
    requires record !in Held(d, e)
    ensures HomesMatch(d, s, {e}, now)
  {
    forall i | Used(d, {e}, i) ensures s.home[i] == now(d[i].data) {
      HeldAt(d, e, i);
    }
  }

  /** The first copy of the record in a chain that holds one: it heads the chain or follows another record. */
  lemma {:induction false} FirstCopy(d: seq<Link>, s: Shape, X: set<int>, record: Ptr, j: int) returns (a: int, b: int)
    requires Linked(d, s, X) && Used(d, X, j) && d[j].data == record
    ensures Used(d, X, b) && d[b].data == record && s.home[b] == s.home[j]
    ensures b == s.home[j] || (Used(d, X, a) && d[a].next == b && d[a].data != record)
    decreases s.rank[j]
  {
    if s.home[j] == j {
      return j, j;
    }
    a := s.prev[j];
    assert d[a].next == j;
    if d[a].data != record {
      return a, j;
    }
    a, b := FirstCopy(d, s, X, record, a);
  }

  /** In a table, linked records belong to one bucket. */
  lemma LinkKeepsBucket(d: seq<Link>, s: Shape, now: Ptr -> int, a: int)
    requires Linked(d, s, {}) && HomesMatch(d, s, {}, now) && 0 <= a < |d| && d[a].next != NO_RECORD
    ensures 0 <= d[a].next < |d| && now(d[a].data) == now(d[d[a].next].data)
  {
    assert Used(d, {}, a) && Used(d, {}, d[a].next);
  }

  /** In a table, something links to every record outside its home slot. */
  lemma LinkedFrom(d: seq<Link>, s: Shape, now: Ptr -> int, b: int)
    requires Linked(d, s, {}) && HomesMatch(d, s, {}, now) && 0 <= b < |d| && now(d[b].data) != b
    ensures exists q :: 0 <= q < |d| && d[q].next == b
  {
    assert Used(d, {}, b);
    assert s.home[b] == now(d[b].data);
    assert d[s.prev[b]].next == b;
  }

  lemma HeadNotLinked(d: seq<Link>, s: Shape, X: set<int>, h: int)
    requires Linked(d, s, X) && Used(d, X, h) && s.home[h] == h
    ensures forall i :: Used(d, X, i) ==> d[i].next != h
  {
  }

  /** With a second copy of the record in the old chain, evicting at the new home breaks the table. */
  lemma CopyBreaksEvict(d: seq<Link>, s: Shape, e: int, was: Ptr -> int, now: Ptr -> int, record: Ptr, idx: int,
                        p: int, j: int, d': seq<Link>, s': Shape)
    requires Linked(d, s, {e}) && HomesMatch(d, s, {e}, was) && Rebucketed(was, now, record, idx, p)
    requires 0 <= e < |d| && Used(d, {e}, p) && now(d[p].data) != p && s.home[p] != p
    requires Used(d, {e}, j) && d[j].data == record
    requires Used(d, {e}, s.prev[p])
    requires d' == d[e := d[p]][s.prev[p] := d[s.prev[p]].(next := e)][p := Link(NO_RECORD, record)]
    ensures !(Linked(d', s', {}) && HomesMatch(d', s', {}, now))
  {
    var a, b := FirstCopy(d, s, {e}, record, j);
    assert s.home[j] == was(record);
    assert s.home[b] == was(record);
    assert d[s.prev[p]].next == p;
    if b == idx {
      HeadNotLinked(d, s, {e}, b);
      if Linked(d', s', {}) && HomesMatch(d', s', {}, now) { LinkedFrom(d', s', now, b); }
    } else {
      assert s.home[a] == was(d[a].data);
      if Linked(d', s', {}) && HomesMatch(d', s', {}, now) { LinkKeepsBucket(d', s', now, if a == p then e else a); }
    }
  }

  /** The same when the record is linked in behind the head of its new bucket. */
  lemma CopyBreaksInsert(d: seq<Link>, s: Shape, e: int, was: Ptr -> int, now: Ptr -> int, record: Ptr, idx: int,
                         p: int, j: int, d': seq<Link>, s': Shape)
    requires Linked(d, s, {e}) && HomesMatch(d, s, {e}, was) && Rebucketed(was, now, record, idx, p)
    requires 0 <= e < |d| && Used(d, {e}, p) && now(d[p].data) == p
    requires Used(d, {e}, j) && d[j].data == record
    requires d' == d[e := Link(d[p].next, record)][p := d[p].(next := e)]
    ensures !(Linked(d', s', {}) && HomesMatch(d', s', {}, now))
  {
    var a, b := FirstCopy(d, s, {e}, record, j);
    assert s.home[j] == was(record);
    assert s.home[b] == was(record);
    if b == idx {
      HeadNotLinked(d, s, {e}, b);
      if Linked(d', s', {}) && HomesMatch(d', s', {}, now) { LinkedFrom(d', s', now, b); }
    } else {
      assert s.home[a] == was(d[a].data);
      if Linked(d', s', {}) && HomesMatch(d', s', {}, now) { LinkKeepsBucket(d', s', now, a); }
    }
  }

  /** The slot that unlinking the record frees: its own, or its successor's when it heads a longer chain. */
  ghost function FreedSlot(d: seq<Link>, record: Ptr, idx: int): int
    requires record in Held(d, NO_RECORD)
  {
    var pos := SlotOf(d, record);
    if pos == idx && d[pos].next != NO_RECORD then d[pos].next else pos
  }

  ghost function SlotOf(d: seq<Link>, record: Ptr): (pos: int)
    requires record in Held(d, NO_RECORD)
    ensures 0 <= pos < |d| && d[pos].data == record
  {
    assert exists i :: 0 <= i < |d| && d[i].data == record by {
      var i := HeldSlot(d, NO_RECORD, record);
    }
    var i :| 0 <= i < |d| && d[i].data == record;
    i
  }

  /** When can a changed record be moved? Exactly when its bucket does not change, or it is stored
      once and the slot it frees is not the home slot of its new bucket. */
  ghost predicate UpdateWorks(d: seq<Link>, record: Ptr, idx: int, newIndex: int) {
    idx == newIndex ||
    (Held(d, NO_RECORD)[record] == 1 && FreedSlot(d, record, idx) != newIndex)
  }

  /** A record that is stored once is in one slot only. */
  lemma OneSlot(d: seq<Link>, record: Ptr, i: int, j: int)
    requires 0 <= i < |d| && 0 <= j < |d| && d[i].data == record && d[j].data == record
    requires Held(d, NO_RECORD)[record] == 1
    ensures i == j
  {
    if i != j {
      HoleHeld(d, i, d[i]);
      HeldAt(d, i, j);
    }
  }

  /** The table is good again under the new keys, with the same records. */
  ghost predicate Moved(d0: seq<Link>, d: seq<Link>, now: Ptr -> int) {
    && |d| == |d0| && Held(d, NO_RECORD) == Held(d0, NO_RECORD)
    && exists s :: Linked(d, s, {}) && HomesMatch(d, s, {}, now)
  }

  /** What eviction at the new home comes to. */
  lemma EvictResult(d0: seq<Link>, d1: seq<Link>, e: int, record: Ptr, idx: int, p: int, s: Shape, was: Ptr -> int,
                    now: Ptr -> int, d: seq<Link>)
    requires |d1| == |d0| && 0 <= e < |d1| && Linked(d1, s, {e}) && HomesMatch(d1, s, {e}, was)
    requires Rebucketed(was, now, record, idx, p) && Held(d0, NO_RECORD) == Held(d1, e) + multiset{record}
    requires Used(d1, {e}, p) && now(d1[p].data) != p && s.home[p] != p && Used(d1, {e}, s.prev[p])
    requires d == d1[e := d1[p]][s.prev[p] := d1[s.prev[p]].(next := e)][p := Link(NO_RECORD, record)]
    ensures Moved(d0, d, now) <==> record !in Held(d1, e)
  {
    if record in Held(d1, e) {
      var j := HeldSlot(d1, e, record);
      forall s' ensures !(Linked(d, s', {}) && HomesMatch(d, s', {}, now)) {
        CopyBreaksEvict(d1, s, e, was, now, record, idx, p, j, d, s');
      }
    } else {
      OthersStay(d1, s, e, was, now, record, idx, p);
      var s' := Evict(d1, s, e, p, record, now);
      assert d1[s.prev[p]].next == p;
      var d2 := d1[e := d1[p]][p := Link(NO_RECORD, record)];
      assert d == d2[s.prev[p] := d2[s.prev[p]].(next := e)];
    }
  }

  /** What linking in behind the head comes to; at the freed slot itself it links the slot to itself. */
  lemma InsertResult(d0: seq<Link>, d1: seq<Link>, e: int, record: Ptr, idx: int, p: int, s: Shape,
                     was: Ptr -> int, now: Ptr -> int, d: seq<Link>)
    requires |d1| == |d0| && 0 <= e < |d1| && 0 <= p < |d1| && Linked(d1, s, {e}) && HomesMatch(d1, s, {e}, was)
    requires Rebucketed(was, now, record, idx, p) && Held(d0, NO_RECORD) == Held(d1, e) + multiset{record}
    requires now(d1[p].data) == p
    requires var d2 := d1[e := Link(d1[p].next, record)]; d == d2[p := d2[p].(next := e)]
    ensures Moved(d0, d, now) <==> e != p && record !in Held(d1, e)
  {
    if e == p {
      assert d[p].next == p;
    } else if record in Held(d1, e) {
      var j := HeldSlot(d1, e, record);
      forall s' ensures !(Linked(d, s', {}) && HomesMatch(d, s', {}, now)) {
        CopyBreaksInsert(d1, s, e, was, now, record, idx, p, j, d, s');
      }
    } else {
      OthersStay(d1, s, e, was, now, record, idx, p);
      assert s.home[p] == now(d1[p].data);
      var s' := InsertBehindHead(d1, s, {e}, p, e, record);
      assert {e} - {e} == {};
      FillHeld(d1, e, Link(d1[p].next, record));
      RelinkHeld(d1[e := Link(d1[p].next, record)], NO_RECORD, p, e);
      assert HomesMatch(d, s', {}, now);
    }
  }

  /** The second half of `hash_update`: the record goes to its new bucket by way of the freed slot. */
  method Reinsert(d0: seq<Link>, d1: seq<Link>, empty: int, record: Ptr, idx: int, newIndex: int, newPos: int,
                  ghost s: Shape, ghost was: Ptr -> int, ghost now: Ptr -> int)
    returns (r: Outcome, d: seq<Link>)
    requires |d1| == |d0| && 0 <= empty < |d1| && 0 <= newIndex < |d1|
    requires Linked(d1, s, {empty}) && HomesMatch(d1, s, {empty}, was)
    requires Rebucketed(was, now, record, idx, newIndex) && Held(d0, NO_RECORD) == Held(d1, empty) + multiset{record}
    requires newPos == now(d1[newIndex].data)
    requires empty == newIndex ==> d1[empty].data == record || (newPos == idx && Used(d1, {empty}, idx))
    ensures r.Done? || r.OutOfBounds?
    ensures (r.Done? && Moved(d0, d, now)) <==> empty != newIndex && record !in Held(d1, empty)
  {
    if newIndex != newPos {
      d := d1[empty := d1[newIndex]];
      ghost var path, end;
      if empty == newIndex {
        path := WalkToEnd(d1, s, {empty}, idx);
        end := NO_RECORD;
      } else {
        assert s.home[newIndex] == was(d1[newIndex].data);
        path := WalkTo(d1, s, {empty}, newIndex);
        end := newIndex;
      }
      WalkFrame(d1, d, path, end);
      var ok;
      ok, d := MoveLink(d, newIndex, newPos, empty, path, end);
      if !ok { return OutOfBounds, d; }
      d := d[newIndex := Link(NO_RECORD, record)];
      EvictResult(d0, d1, empty, record, idx, newIndex, s, was, now, d);
    } else {
      d := d1[empty := Link(d1[newIndex].next, record)];
      d := d[newIndex := d[newIndex].(next := empty)];
      InsertResult(d0, d1, empty, record, idx, newIndex, s, was, now, d);
    }
    r := Done;
  }

  lemma BucketsDiffer(keys: Keys, record: Ptr, oldKey: Key, blength: nat, records: nat)
    requires Sized(blength, records) && records > 0
    ensures var was, now := Buckets(WithKey(keys, record, oldKey), blength, records), Buckets(keys, blength, records);
      && was(record) == HashMask(keys.calcHashnr(oldKey), blength, records)
      && now(record) == HashMask(keys.RecHashnr(record), blength, records)
      && (forall p :: p != record ==> was(p) == now(p))
      && (forall p :: 0 <= now(p) < records) && 0 <= was(record) < records
  {
    var now := Buckets(keys, blength, records);
    forall p ensures 0 <= now(p) < records { MaskIsMod(keys.RecHashnr(p), blength, records); }
    MaskIsMod(keys.calcHashnr(oldKey), blength, records);
  }

  /** With the record in the same bucket, or not stored at all, nothing has to move. */
  lemma NothingMoves(d: seq<Link>, s: Shape, was: Ptr -> int, now: Ptr -> int, record: Ptr)
    requires Linked(d, s, {}) && HomesMatch(d, s, {}, was) && forall p :: p != record ==> was(p) == now(p)
    requires was(record) == now(record) || record !in Held(d, NO_RECORD)
    ensures Moved(d, d, now)
  {
    forall i | Used(d, {}, i) ensures s.home[i] == now(d[i].data) {
      HeldAt(d, NO_RECORD, i);
    }
    assert HomesMatch(d, s, {}, now);
  }

  lemma FreedIs(d0: seq<Link>, s: Shape, was: Ptr -> int, record: Ptr, pos: int, gpos: int, empty: int, idx: int)
    requires Linked(d0, s, {}) && HomesMatch(d0, s, {}, was) && was(record) == idx
    requires 0 <= pos < |d0| && d0[pos].data == record
    requires if gpos == NO_RECORD then s.home[pos] == pos else 0 <= gpos < |d0| && d0[gpos].next == pos
    requires empty == (if gpos == NO_RECORD && d0[pos].next != NO_RECORD then d0[pos].next else pos)
    ensures record in Held(d0, NO_RECORD)
    ensures Held(d0, NO_RECORD)[record] == 1 ==> FreedSlot(d0, record, idx) == empty
    ensures empty != pos ==> pos == idx && s.home[empty] == idx
  {
    HeldAt(d0, NO_RECORD, pos);
    assert Used(d0, {}, pos);
    assert s.home[pos] == was(d0[pos].data);
    if Held(d0, NO_RECORD)[record] == 1 {
      OneSlot(d0, record, pos, SlotOf(d0, record));
    }
  }

  /** `hash_update` for a record that is found in slot pos and changes its bucket. */
  method UpdateAt(d0: seq<Link>, record: Ptr, pos: int, gpos: int, idx: int, newIndex: int, keys: Keys, blength: nat,
                  ghost s0: Shape, ghost was: Ptr -> int, ghost now: Ptr -> int)
    returns (r: Outcome, d: seq<Link>)
    requires Linked(d0, s0, {}) && HomesMatch(d0, s0, {}, was) && Rebucketed(was, now, record, idx, newIndex)
    requires 0 <= pos < |d0| && d0[pos].data == record && 0 <= newIndex < |d0| && blength > 0
    requires if gpos == NO_RECORD then s0.home[pos] == pos else 0 <= gpos < |d0| && d0[gpos].next == pos
    requires forall p {:trigger keys.RecHashnr(p)} :: now(p) == HashMask(keys.RecHashnr(p), blength, |d0|)
    ensures r.Done? || r.OutOfBounds?
    ensures (r.Done? && Moved(d0, d, now)) <==> UpdateWorks(d0, record, idx, newIndex)
  {
    var d1, empty;
    ghost var s;
    d1, empty, s := Unlink(d0, pos, gpos, s0, was);
    FreedIs(d0, s0, was, record, pos, gpos, empty, idx);
    var newPos := HashMask(keys.RecHashnr(d1[newIndex].data), blength, |d0|);
    assert newPos == now(d1[newIndex].data);
    if empty == newIndex && d1[empty].data != record {
      assert Used(d0, {}, empty);
      assert s0.home[empty] == was(d0[empty].data);
    }
    r, d := Reinsert(d0, d1, empty, record, idx, newIndex, newPos, s, was, now);
  }

  /** `hash_update`. The table was good when the record still had the key `oldKey`. */
  method UpdateLink(d0: seq<Link>, record: Ptr, oldKey: Key, keys: Keys, blength: nat, ghost s0: Shape)
    returns (r: Outcome, d: seq<Link>)
    requires Table(d0, s0, WithKey(keys, record, oldKey), blength)
    ensures (r.Done? && Moved(d0, d, Buckets(keys, blength, |d0|))) <==>
            UpdateWorks(d0, record, HashMask(keys.calcHashnr(oldKey), blength, |d0|), HashMask(keys.RecHashnr(record), blength, |d0|))
    ensures r.NotFound? <==> (
              && |d0| > 0 && record !in Held(d0, NO_RECORD)
              && HashMask(keys.calcHashnr(oldKey), blength, |d0|) != HashMask(keys.RecHashnr(record), blength, |d0|))
    ensures r.NotFound? ==> d == d0 && Moved(d0, d, Buckets(keys, blength, |d0|))
  {
    var idx := HashMask(keys.calcHashnr(oldKey), blength, |d0|);
    var newIndex := HashMask(keys.RecHashnr(record), blength, |d0|);
    d := d0;
    if |d0| == 0 {
      // no slot to start from: with different buckets the source reads beyond the array
      assert Moved(d0, d0, Buckets(keys, blength, 0)) by {
        assert Linked(d0, s0, {}) && HomesMatch(d0, s0, {}, Buckets(keys, blength, 0));
      }
      return if idx == newIndex then Done else OutOfBounds, d0;
    }
    ghost var was, now := Buckets(WithKey(keys, record, oldKey), blength, |d0|), Buckets(keys, blength, |d0|);
    BucketsDiffer(keys, record, oldKey, blength, |d0|);
    if idx == newIndex {
      NothingMoves(d0, s0, was, now, record);
      return Done, d0;
    }
    var found, pos, gpos := FindRecord(d0, idx, record, s0, was);
    if !found {
      NothingMoves(d0, s0, was, now, record);
      return NotFound, d0;
    }
    r, d := UpdateAt(d0, record, pos, gpos, idx, newIndex, keys, blength, s0, was, now);
  }

  ghost const EXAMPLE_LINKS: seq<Link> := [Link(1, 7), Link(NO_RECORD, 8)]
  ghost const EXAMPLE_SHAPE := Shape([0, 0], [0, 0], [0, 1])

  lemma ExampleTable(keys: Keys)
    requires keys.RecHashnr(7) == 0 && keys.RecHashnr(8) == 0
    ensures Table(EXAMPLE_LINKS, EXAMPLE_SHAPE, keys, 4)
  {
    assert Pow2(2) == 4;
    assert And(0, 3) == 0 && And(0, 1) == 0;
    assert Linked(EXAMPLE_LINKS, EXAMPLE_SHAPE, {});
  }

  lemma ExampleHeld()
    ensures Held(EXAMPLE_LINKS, NO_RECORD) == multiset{7, 8} && SlotOf(EXAMPLE_LINKS, 8) == 1
  {
    var d := EXAMPLE_LINKS;
    assert d[..1] == [Link(1, 7)] && d[..1][..0] == [];
    assert Held(d[..1], NO_RECORD) == multiset{7};
  }

  /** A table on which `hash_update` fails: records 7 and 8 share bucket 0, so record 8 sits in slot 1;
      when its key changes to bucket 1, the slot it frees is its new home slot. */
  lemma UpdateCanFail() returns (d: seq<Link>, s: Shape, keys: Keys)
    ensures Table(d, s, WithKey(keys, 8, [0]), 4)
    ensures HashMask(keys.calcHashnr([0]), 4, |d|) == 0 && HashMask(keys.RecHashnr(8), 4, |d|) == 1
    ensures Held(d, NO_RECORD)[8] == 1 && !UpdateWorks(d, 8, 0, 1)
  {
    hide Table, Held, SlotOf;
    d, s := EXAMPLE_LINKS, EXAMPLE_SHAPE;
    keys := Keys((p: Ptr) => if p == 8 then [1] else [0], (k: Key) => if k == [] then 0 else k[0]);
    assert And(0, 3) == 0 && And(1, 3) == 1;
    var before := WithKey(keys, 8, [0]);
    assert before.RecHashnr(7) == 0 && before.RecHashnr(8) == 0;
    ExampleTable(before);
    ExampleHeld();
  }
}

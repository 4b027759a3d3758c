/** The hash table of `OB_HASH`: linear hashing in one array. */
module HashTables {
  import opened Bits
  import opened HashMasks
  import opened HashLinks
  import opened HashWalk
  import opened HashSplit
  import opened HashMerge

  // ---- Insertion ----

  /** The record becomes the head of its chain and the old head moves to the hole behind it. */
  lemma SwapInHead(d: seq<Link>, s: Shape, e: int, h: int, r: Ptr, bucket: Ptr -> int) returns (s': Shape)
    requires Linked(d, s, {e}) && 0 <= e < |d| && Used(d, {e}, h) && s.home[h] == h
    requires HomesMatch(d, s, {e}, bucket) && bucket(r) == h
    ensures var d' := d[e := d[h]][h := Link(e, r)];
      && Linked(d', s', {}) && HomesMatch(d', s', {}, bucket)
      && Held(d', NO_RECORD) == Held(d, e) + multiset{r}
  {
    var d' := d[e := d[h]][h := Link(e, r)];
    s' := InsertBehindHead(d, s, {e}, h, e, r);
    assert {e} - {e} == {};
    SameLinks(d[e := Link(d[h].next, r)][h := d[h].(next := e)], d', s', {});
    MoveHeld(d, e, d[h], h);
    FillHeld(d[e := d[h]], h, Link(e, r));
  }

  /** The record takes its home slot from a record of another chain, which moves to the hole. */
  lemma Evict(d: seq<Link>, s: Shape, e: int, p: int, r: Ptr, bucket: Ptr -> int) returns (s': Shape)
    requires Linked(d, s, {e}) && 0 <= e < |d| && Used(d, {e}, p) && s.home[p] != p
    requires HomesMatch(d, s, {e}, bucket) && bucket(r) == p
    ensures Used(d, {e}, s.prev[p]) && s.prev[p] != p
    ensures var d1 := d[e := d[p]][p := Link(NO_RECORD, r)];
      var d' := d1[s.prev[p] := d1[s.prev[p]].(next := e)];
      && Linked(d', s', {}) && HomesMatch(d', s', {}, bucket)
      && Held(d', NO_RECORD) == Held(d, e) + multiset{r}
  {
    var q := s.prev[p];
    assert d[q].next == p;
    var d2 := d[e := d[p]][q := d[q].(next := e)];
    var s2 := MoveInner(d, s, {e}, p, e);
    assert {e} - {e} + {p} == {p};
    s' := StartChain(d2, s2, {p}, p, r);
    assert {p} - {p} == {};
    var d1 := d[e := d[p]][p := Link(NO_RECORD, r)];
    assert d1[q := d1[q].(next := e)] == d2[p := Link(NO_RECORD, r)];
    MoveHeld(d, e, d[p], p);
    FillHeld(d[e := d[p]], p, Link(NO_RECORD, r));
    RelinkHeld(d1, NO_RECORD, q, e);
  }

  /** Second half of `hash_insert`: the record goes to its home slot, and what was there moves to the hole. */
  method PlaceRecord(d0: seq<Link>, empty: int, record: Ptr, keys: Keys, blength: nat, records: nat,
                     ghost s0: Shape, ghost bucket: Ptr -> int)
    returns (d: seq<Link>, ghost s: Shape)
    requires |d0| == records && 0 <= empty < records && blength > 0
    requires Linked(d0, s0, {empty}) && HomesMatch(d0, s0, {empty}, bucket)
    requires forall p {:trigger keys.RecHashnr(p)} :: bucket(p) == HashMask(keys.RecHashnr(p), blength, records)
    requires bucket(record) < records
    ensures |d| == records && Linked(d, s, {}) && HomesMatch(d, s, {}, bucket)
    ensures Held(d, NO_RECORD) == Held(d0, empty) + multiset{record}
  {
    var pos := HashMask(keys.RecHashnr(record), blength, records);
    assert pos == bucket(record);
    if pos == empty {
      d := d0[pos := Link(NO_RECORD, record)];
      s := StartChain(d0, s0, {empty}, empty, record);
      assert {empty} - {empty} == {};
      FillHeld(d0, pos, Link(NO_RECORD, record));
    } else {
      d := d0[empty := d0[pos]];
      var gpos := HashMask(keys.RecHashnr(d[pos].data), blength, records);
      assert s0.home[pos] == bucket(d0[pos].data) == gpos;
      if pos == gpos {
        d := d[pos := Link(empty, record)];
        s := SwapInHead(d0, s0, empty, pos, record, bucket);
      } else {
        d := d[pos := Link(NO_RECORD, record)];
        ghost var path := WalkTo(d0, s0, {empty}, pos);
        WalkFrame(d0, d, path, pos);
        var ok;
        ok, d := MoveLink(d, pos, gpos, empty, path, pos);
        s := Evict(d0, s0, empty, pos, record, bucket);
      }
    }
  }

  lemma AddSlotNexts(d: seq<Link>, s: Shape, junk: Link)
    requires Linked(d, s, {})
    ensures var s' := Shape(s.home + [0], s.prev + [0], s.rank + [0]);
      Housing(d + [junk], s', {|d|}) && Nexts(d + [junk], s', {|d|})
  {
    hide Prevs;
  }

  lemma AddSlotPrevs(d: seq<Link>, s: Shape, junk: Link)
    requires Linked(d, s, {})
    ensures Prevs(d + [junk], Shape(s.home + [0], s.prev + [0], s.rank + [0]), {|d|})
  {
    hide Housing;
  }

  lemma AddSlotLinks(d: seq<Link>, s: Shape, junk: Link)
    requires Linked(d, s, {})
    ensures Linked(d + [junk], Shape(s.home + [0], s.prev + [0], s.rank + [0]), {|d|})
  {
    hide Housing, Nexts, Prevs;
    AddSlotNexts(d, s, junk);
    AddSlotPrevs(d, s, junk);
  }

  /** The new slot at the end of the array is a hole. */
  lemma AddSlot(d: seq<Link>, s: Shape, junk: Link) returns (s': Shape)
    requires Linked(d, s, {})
    ensures Linked(d + [junk], s', {|d|}) && s'.home == s.home + [0]
    ensures s'.rank[|d|] == 0 && forall i :: 0 <= i < |d| ==> s'.rank[i] > 0
  {
    var up := seq(|d|, i requires 0 <= i < |d| && |s.rank| == |d| => s.rank[i] + 1);
    var s1 := s.(rank := up);
    assert Linked(d, s1, {});
    AddSlotLinks(d, s1, junk);
    s' := Shape(s.home + [0], s.prev + [0], up + [0]);
  }

  lemma AddSlotHeld(d: seq<Link>, junk: Link)
    ensures Held(d + [junk], |d|) == Held(d, NO_RECORD)
  {
    assert (d + [junk])[..|d|] == d;
    NoHoleHeld(d, |d|);
  }

  /** The whole representation invariant, on values. */
  ghost predicate Table(d: seq<Link>, s: Shape, keys: Keys, blength: nat)
  {
    Sized(blength, |d|) && Linked(d, s, {}) && HomesMatch(d, s, {}, Buckets(keys, blength, |d|))
  }

  lemma BeforeSplit(d: seq<Link>, s: Shape, s': Shape, keys: Keys, blength: nat, junk: Link)
    requires Sized(blength, |d|) && |d| >= 1 && HomesMatch(d, s, {}, Buckets(keys, blength, |d|))
    requires Linked(d + [junk], s', {|d|}) && s'.home == s.home + [0]
    requires s'.rank[|d|] == 0 && forall i :: 0 <= i < |d| ==> s'.rank[i] > 0
    ensures var b := Before(d + [junk], s', |d|, |d| - blength / 2, Buckets(keys, blength, |d|), Buckets(keys, blength, |d| + 1));
      && b.Valid()
      && (forall p :: b.was(p) == b.first ==> b.now(p) == if And(keys.RecHashnr(p), blength / 2) == 0 then b.first else |d|)
  {
    var was, now := Buckets(keys, blength, |d|), Buckets(keys, blength, |d| + 1);
    forall p
      ensures now(p) == if was(p) == |d| - blength / 2 && And(keys.RecHashnr(p), blength / 2) != 0 then |d| else was(p)
    {
      GrowMask(keys.RecHashnr(p), blength, |d|);
    }
  }

  /** `hash_insert` on the link array, up to the doubling of `blength`. */
  method InsertLink(d0: seq<Link>, record: Ptr, keys: Keys, blength: nat, ghost s0: Shape)
    returns (d: seq<Link>, ghost s: Shape)
    requires Table(d0, s0, keys, blength)
    ensures |d| == |d0| + 1 && Linked(d, s, {}) && HomesMatch(d, s, {}, Buckets(keys, blength, |d|))
    ensures Held(d, NO_RECORD) == Held(d0, NO_RECORD) + multiset{record}
  {
    hide Linked, Held;
    var records := |d0|;
    var junk := Link(NO_RECORD, record);
    d := d0 + [junk];
    s := AddSlot(d0, s0, junk);
    AddSlotHeld(d0, junk);
    ghost var now := Buckets(keys, blength, records + 1);
    var empty := records;
    if records - blength / 2 != records {
      BeforeSplit(d0, s0, s, keys, blength, junk);
      ghost var b := Before(d, s, records, records - blength / 2, Buckets(keys, blength, records), now);
      d, empty, s := SplitBucket(b, d, keys, blength, records);
      MaskIsMod(keys.RecHashnr(record), blength, records + 1);
    } else {
      AndLowMask(keys.RecHashnr(record), 0);
    }
    d, s := PlaceRecord(d, empty, record, keys, blength, records + 1, s, now);
  }

  /** Doubling `blength` when all buckets are in use changes no bucket. */
  lemma Grown(d: seq<Link>, s: Shape, keys: Keys, blength: nat)
    requires IsPow2(blength) && blength / 2 < |d| <= blength && HomesMatch(d, s, {}, Buckets(keys, blength, |d|))
    ensures |d| == blength ==> Sized(2 * blength, |d|) && HomesMatch(d, s, {}, Buckets(keys, 2 * blength, |d|))
  {
    if |d| == blength {
      DoublePow2(blength);
      forall i | Used(d, {}, i) ensures s.home[i] == Buckets(keys, 2 * blength, |d|)(d[i].data) {
        DoubleMask(keys.RecHashnr(d[i].data), blength);
      }
    }
  }

  // ---- Deletion ----

  /** Unlinking the record in slot pos, whose predecessor (if any) is gpos, leaves one hole. */
  method Unlink(d0: seq<Link>, pos: int, gpos: int, ghost s0: Shape, ghost bucket: Ptr -> int)
    returns (d: seq<Link>, empty: int, ghost s: Shape)
    requires Linked(d0, s0, {}) && 0 <= pos < |d0| && HomesMatch(d0, s0, {}, bucket)
    requires if gpos == NO_RECORD then s0.home[pos] == pos else 0 <= gpos < |d0| && d0[gpos].next == pos
    ensures |d| == |d0| && 0 <= empty < |d| && Linked(d, s, {empty}) && HomesMatch(d, s, {empty}, bucket)
    ensures Held(d0, NO_RECORD) == Held(d, empty) + multiset{d0[pos].data}
    ensures empty == (if gpos == NO_RECORD && d0[pos].next != NO_RECORD then d0[pos].next else pos)
    ensures d[empty] == d0[empty] && s.home == s0.home
  {
    HoleHeld(d0, pos, d0[pos]);
    d, empty, s := d0, pos, s0;
    if gpos != NO_RECORD {
      s := UnlinkInner(d0, s0, {}, pos);
      assert {} + {pos} == {pos};
      d := d[gpos := d[gpos].(next := d[pos].next)];
      RelinkHeld(d0, pos, gpos, d0[pos].next);
    } else if d[pos].next != NO_RECORD {
      empty := d[pos].next;
      s := UnlinkHead(d0, s0, {}, pos);
      assert {} + {empty} == {empty};
      d := d[pos := d[empty]];
      MoveHeld(d0, pos, d0[empty], empty);
    } else {
      UnlinkLone(d0, s0, {}, pos);
      assert {} + {pos} == {pos};
    }
  }

  /** The walk to a record: `pos` is its slot and `gpos` the slot before it, or there is none. */
  method FindRecord(d: seq<Link>, start: int, record: Ptr, ghost s: Shape, ghost bucket: Ptr -> int)
    returns (found: bool, pos: int, gpos: int)
    requires Linked(d, s, {}) && HomesMatch(d, s, {}, bucket) && 0 <= start < |d| && bucket(record) == start
    ensures found <==> record in Held(d, NO_RECORD)
    ensures found ==> 0 <= pos < |d| && d[pos].data == record
    ensures found ==> if gpos == NO_RECORD then s.home[pos] == pos else 0 <= gpos < |d| && d[gpos].next == pos
  {
    pos, gpos := start, NO_RECORD;
    forall i | Used(d, {}, i) && d[i].data == record ensures s.home[pos] == s.home[i] && s.rank[i] >= s.rank[pos] {
      assert s.home[i] == bucket(record);
      HeadIsLowest(d, s, {}, i);
    }
    while d[pos].data != record
      invariant Used(d, {}, pos)
      invariant forall i :: Used(d, {}, i) && d[i].data == record ==> s.home[pos] == s.home[i] && s.rank[i] >= s.rank[pos]
      invariant if gpos == NO_RECORD then pos == start else 0 <= gpos < |d| && d[gpos].next == pos
      decreases MaxRank(s.rank) - s.rank[pos]
    {
      ghost var here := pos;
      forall i | Used(d, {}, i) && d[i].data == record
        ensures d[here].next != NO_RECORD && (d[here].next == i || s.rank[d[here].next] < s.rank[i])
      {
        if s.rank[i] == s.rank[here] { RankInjective(d, s, {}, i, here); }
        StepTowards(d, s, {}, here, i);
      }
      gpos := pos;
      if d[pos].next == NO_RECORD {
        NotStored(d, record);
        return false, pos, gpos;
      }
      pos := d[pos].next;
    }
    HeldAt(d, NO_RECORD, pos);
    assert s.home[pos] == bucket(record);
    found := true;
  }

  lemma NotStored(d: seq<Link>, record: Ptr)
    requires forall i :: Used(d, {}, i) ==> d[i].data != record
    ensures record !in Held(d, NO_RECORD)
  {
    if record in Held(d, NO_RECORD) {
      var i := HeldSlot(d, NO_RECORD, record);
      assert Used(d, {}, i);
    }
  }

  /** When the last slot is the hole, its bucket is empty and no bucket number changes. */
  lemma LastIsHole(d: seq<Link>, s: Shape, was: Ptr -> int, now: Ptr -> int)
    requires |d| > 0 && Linked(d, s, {|d| - 1}) && HomesMatch(d, s, {|d| - 1}, was)
    requires forall p :: was(p) != |d| - 1 ==> now(p) == was(p)
    ensures HomesMatch(d, s, {|d| - 1}, now)
  {
    forall i | Used(d, {|d| - 1}, i) ensures s.home[i] == now(d[i].data) {
      assert s.home[i] != |d| - 1;
    }
  }

  lemma DropSlot(d: seq<Link>, s: Shape, n: nat, bucket: Ptr -> int) returns (s': Shape)
    requires |d| == n + 1 && Linked(d, s, {n}) && HomesMatch(d, s, {n}, bucket)
    ensures Linked(d[..n], s', {}) && HomesMatch(d[..n], s', {}, bucket) && Held(d[..n], NO_RECORD) == Held(d, n)
  {
    DropLastSlot(d, s, n);
    s' := Shape(s.home[..n], s.prev[..n], s.rank[..n]);
    NoHoleHeld(d[..n], n);
    forall i | Used(d[..n], {}, i) ensures s'.home[i] == bucket(d[..n][i].data) {
      assert Used(d, {n}, i);
    }
  }

  lemma ShrinkBuckets(keys: Keys, blength: nat, n: nat)
    requires Sized(blength, n) && n >= 2
    ensures var b := Halved(blength, n - 1);
      var was, now := Buckets(keys, blength, n), Buckets(keys, b, n - 1);
      && Sized(b, n - 1) && b > 0 && 0 <= n - 1 - b / 2 < n - 1
      && (forall p :: now(p) == if was(p) == n - 1 then n - 1 - b / 2 else was(p))
      && (forall p :: 0 <= now(p) < n - 1)
  {
    var b := Halved(blength, n - 1);
    var was, now := Buckets(keys, blength, n), Buckets(keys, b, n - 1);
    ShrinkMask(0, blength, n);
    forall p
      ensures now(p) == if was(p) == n - 1 then n - 1 - b / 2 else was(p)
      ensures 0 <= now(p) < n - 1
    {
      ShrinkMask(keys.RecHashnr(p), blength, n);
      MaskIsMod(keys.RecHashnr(p), b, n - 1);
    }
  }

  /** The last slot is emptied and cut off; `was` and `now` are the buckets before and after. */
  method CutLast(d0: seq<Link>, empty: int, keys: Keys, blength0: nat, blength: nat, ghost s0: Shape,
                 ghost was: Ptr -> int, ghost now: Ptr -> int, ghost lower: int)
    returns (d: seq<Link>, ghost s: Shape)
    requires |d0| >= 2 && 0 <= empty < |d0| && blength > 0 && blength0 > 0 && 0 <= lower < |d0| - 1
    requires Linked(d0, s0, {empty}) && HomesMatch(d0, s0, {empty}, was)
    requires forall p {:trigger keys.RecHashnr(p)} :: was(p) == HashMask(keys.RecHashnr(p), blength0, |d0|)
    requires forall p {:trigger keys.RecHashnr(p)} :: now(p) == HashMask(keys.RecHashnr(p), blength, |d0| - 1)
    requires forall p :: 0 <= now(p) < |d0| - 1
    requires forall p :: now(p) == if was(p) == |d0| - 1 then lower else was(p)
    ensures |d| == |d0| - 1 && Linked(d, s, {}) && HomesMatch(d, s, {}, now)
    ensures Held(d, NO_RECORD) == Held(d0, empty)
  {
    hide Held;
    var records := |d0| - 1;
    if empty == records {
      LastIsHole(d0, s0, was, now);
      s := DropSlot(d0, s0, records, now);
      d := d0[..records];
    } else {
      ghost var h := Holed(d0, s0, empty, records + 1, was, now, lower);
      assert h.Housed();
      d, s := FillFromLast(d0, empty, keys, blength0, blength, records, h);
      s := DropSlot(d, s, records, now);
      d := d[..records];
    }
  }

  lemma OnlySlot(d: seq<Link>, s: Shape, keys: Keys, blength: nat) returns (s': Shape)
    requires |d| == 1 && Sized(blength, 1) && Linked(d, s, {0})
    ensures Table([], s', keys, blength / 2) && Held([], NO_RECORD) == Held(d, 0)
  {
    assert Pow2(0) == 1;
    s' := Shape([], [], []);
    assert d[..0] == [];
  }

  /** The end of `hash_delete`, from the slot `empty` that was freed. */
  method ShrinkTable(d0: seq<Link>, empty: int, keys: Keys, blength0: nat, ghost s0: Shape)
    returns (d: seq<Link>, blength: nat, ghost s: Shape)
    requires Sized(blength0, |d0|) && 0 <= empty < |d0|
    requires Linked(d0, s0, {empty}) && HomesMatch(d0, s0, {empty}, Buckets(keys, blength0, |d0|))
    ensures Table(d, s, keys, blength) && blength == Halved(blength0, |d0| - 1) && |d| == |d0| - 1
    ensures Held(d, NO_RECORD) == Held(d0, empty)
  {
    hide Linked, HomesMatch, Held;
    blength := if |d0| - 1 < blength0 / 2 then blength0 / 2 else blength0;
    if |d0| == 1 {
      s := OnlySlot(d0, s0, keys, blength0);
      d := [];
    } else {
      ShrinkBuckets(keys, blength0, |d0|);
      d, s := CutLast(d0, empty, keys, blength0, blength, s0, Buckets(keys, blength0, |d0|),
                      Buckets(keys, blength, |d0| - 1), |d0| - 1 - blength / 2);
    }
  }

  lemma BucketInRange(keys: Keys, blength: nat, records: nat, record: Ptr)
    requires Sized(blength, records) && records >= 1
    ensures HashMask(keys.RecHashnr(record), blength, records) < records
  {
    MaskIsMod(keys.RecHashnr(record), blength, records);
  }

  /** `hash_delete` on the link array: `missing` is its return value 1. */
  method DeleteLink(d0: seq<Link>, record: Ptr, keys: Keys, blength0: nat, ghost s0: Shape)
    returns (missing: bool, d: seq<Link>, blength: nat, ghost s: Shape)
    requires Table(d0, s0, keys, blength0)
    ensures Table(d, s, keys, blength)
    ensures missing <==> record !in Held(d0, NO_RECORD)
    ensures missing ==> d == d0 && blength == blength0
    ensures !missing ==> |d| == |d0| - 1 && Held(d0, NO_RECORD) == Held(d, NO_RECORD) + multiset{record}
  {
    hide Linked, HomesMatch;
    missing, d, blength, s := true, d0, blength0, s0;
    if |d0| == 0 { return; }
    BucketInRange(keys, blength0, |d0|, record);
    var start := HashMask(keys.RecHashnr(record), blength0, |d0|);
    var found, pos, gpos := FindRecord(d0, start, record, s0, Buckets(keys, blength0, |d0|));
    if found {
      missing := false;
      var empty;
      d, empty, s := Unlink(d0, pos, gpos, s0, Buckets(keys, blength0, |d0|));
      d, blength, s := ShrinkTable(d, empty, keys, blength0, s);
    }
  }
}

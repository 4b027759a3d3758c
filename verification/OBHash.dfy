/** The hash table as its callers see it. */
module OBHash {
  import opened Bits
  import opened HashMasks
  import opened HashLinks
  import opened HashWalk
  import opened HashSplit
  import opened HashTables
  import opened HashSearch
  import opened HashUpdate
  import opened Options

  datatype Op = InsertOp(record: Ptr, hasMemory: bool) | DeleteOp(record: Ptr)

  /** What one operation does to the records of the table. */
  function Apply(m: multiset<Ptr>, op: Op): multiset<Ptr> {
    match op
    case InsertOp(record, hasMemory) => if hasMemory then m + multiset{record} else m
    case DeleteOp(record) => m - multiset{record}
  }

  function ApplyAll(m: multiset<Ptr>, ops: seq<Op>): multiset<Ptr> {
    if |ops| == 0 then m else Apply(ApplyAll(m, ops[..|ops| - 1]), ops[|ops| - 1])
  }

  /** `OB_HASH`. */
  class HashTable {
    const keys: Keys
    var records: nat
    var blength: nat
    var currentRecord: int
    var data: seq<Link>
    ghost var shape: Shape

    ghost predicate Valid()
      reads this
    {
      && records == |data| && Table(data, shape, keys, blength)
      && (currentRecord == NO_RECORD || 0 <= currentRecord < records)
    }

    /** What the table means: the records in it, however they are arranged. */
    ghost function Contents(): multiset<Ptr>
      reads this
    {
      Held(data, NO_RECORD)
    }

    /** `_hash_init`. */
    constructor (keys: Keys)
      ensures Valid() && Contents() == multiset{} && this.keys == keys && records == 0
    {
      this.keys := keys;
      records, blength, currentRecord, data := 0, 1, NO_RECORD, [];
      shape := Shape([], [], []);
      new;
      assert Pow2(0) == 1;
    }

    /** `hash_insert`; hasMemory tells whether the array could be extended. */
    method Insert(record: Ptr, hasMemory: bool) returns (failed: bool)
      requires Valid()
      modifies this
      ensures Valid()
      ensures failed == !hasMemory
      ensures Contents() == if failed then old(Contents()) else old(Contents()) + multiset{record}
      ensures failed ==> data == old(data) && blength == old(blength) && currentRecord == old(currentRecord)
      ensures !failed ==> currentRecord == NO_RECORD && records == old(records) + 1
    {
      hide Linked, HomesMatch, Held, Buckets, Pow2, And;
      if !hasMemory { return true; }
      currentRecord := NO_RECORD;
      var d;
      ghost var s;
      d, s := InsertLink(data, record, keys, blength, shape);
      Grown(d, s, keys, blength);
      data, shape, records := d, s, records + 1;
      if records == blength {
        blength := blength + blength;
      }
      return false;
    }

    /** `hash_delete`; the result is its return value. */
    method Delete(record: Ptr) returns (missing: bool)
      requires Valid()
      modifies this
      ensures Valid()
      ensures missing <==> record !in old(Contents())
      ensures missing ==> data == old(data) && blength == old(blength) && currentRecord == old(currentRecord)
      ensures Contents() == old(Contents()) - multiset{record}
      ensures !missing ==> currentRecord == NO_RECORD && records == old(records) - 1
    {
      hide Held, Table;
      var d, b;
      ghost var s;
      missing, d, b, s := DeleteLink(data, record, keys, blength, shape);
      if !missing {
        currentRecord := NO_RECORD;
        data, blength, records, shape := d, b, records - 1, s;
      }
    }

    /** `hash_update`: the key of the record was `oldKey` and has become `keys.keyOf(record)`. The table is
        good again with the same records exactly when the record keeps its bucket, or is stored
        once and does not free the home slot of its new bucket. */
    method Update(record: Ptr, oldKey: Key) returns (r: Outcome)
      requires records == |data| && Table(data, shape, WithKey(keys, record, oldKey), blength)
      requires currentRecord == NO_RECORD || 0 <= currentRecord < records
      modifies this
      ensures (r.Done? && Valid() && Contents() == old(Contents())) <==>
              old(UpdateWorks(data, record, HashMask(keys.calcHashnr(oldKey), blength, records),
                              HashMask(keys.RecHashnr(record), blength, records)))
      ensures r.NotFound? <==> (
                && old(records) > 0 && record !in old(Contents())
                && old(HashMask(keys.calcHashnr(oldKey), blength, records) != HashMask(keys.RecHashnr(record), blength, records)))
      ensures r.NotFound? ==> Valid() && data == old(data)
      ensures records == old(records) && blength == old(blength)
      ensures currentRecord == NO_RECORD || currentRecord == old(currentRecord)
      ensures r.Done? && HashMask(keys.calcHashnr(oldKey), blength, records) != HashMask(keys.RecHashnr(record), blength, records) ==>
                currentRecord == NO_RECORD
    {
      hide Held, Linked, HomesMatch, Buckets, UpdateWorks, And;
      var d;
      r, d := UpdateLink(data, record, oldKey, keys, blength, shape);
      ghost var now := Buckets(keys, blength, records);
      if Moved(data, d, now) {
        ghost var s :| Linked(d, s, {}) && HomesMatch(d, s, {}, now);
        shape := s;
      }
      if r.Done? && HashMask(keys.calcHashnr(oldKey), blength, records) != HashMask(keys.RecHashnr(record), blength, records) {
        currentRecord := NO_RECORD;
      }
      data := d;
    }

    /** `hash_search`. */
    method Search(key: Key) returns (r: Option<Ptr>)
      requires Valid()
      modifies this`currentRecord
      ensures Valid() && NextMatch(data, shape, keys, key, -1, currentRecord)
      ensures r == if currentRecord == NO_RECORD then None else Some(data[currentRecord].data)
      ensures r.Some? <==> exists p :: p in Contents() && keys.keyOf(p) == key
      ensures r.Some? ==> r.value in Contents() && keys.keyOf(r.value) == key
    {
      hide Held, HomesMatch;
      currentRecord := NO_RECORD;
      if records > 0 {
        var idx := HashMask(keys.calcHashnr(key), blength, records);
        KeyBucket(data, keys, blength, key);
        currentRecord := SearchFrom(data, key, idx, keys, blength, shape, Buckets(keys, blength, records));
      }
      MatchIsStored(data, shape, keys, key, currentRecord);
      r := if currentRecord == NO_RECORD then None else Some(data[currentRecord].data);
    }

    /** `hash_next`, which may only follow a successful search for the same key. */
    method Next(key: Key) returns (r: Option<Ptr>)
      requires Valid()
      requires currentRecord == NO_RECORD || keys.keyOf(data[currentRecord].data) == key
      modifies this`currentRecord
      ensures Valid()
      ensures old(currentRecord) == NO_RECORD ==> currentRecord == NO_RECORD
      ensures old(currentRecord) != NO_RECORD ==> NextMatch(data, shape, keys, key, shape.rank[old(currentRecord)], currentRecord)
      ensures r == if currentRecord == NO_RECORD then None else Some(data[currentRecord].data)
    {
      if currentRecord != NO_RECORD {
        currentRecord := NextFrom(data, key, currentRecord, keys, shape, Buckets(keys, blength, records));
      }
      r := if currentRecord == NO_RECORD then None else Some(data[currentRecord].data);
    }

    /** `hash_search` followed by `hash_next` until it fails lists every record with the key exactly once. */
    method FindAll(key: Key) returns (found: seq<Ptr>, ghost slots: seq<int>)
      requires Valid()
      modifies this`currentRecord
      ensures Valid()
      ensures |found| == |slots| && forall k :: 0 <= k < |slots| ==> 0 <= slots[k] < records && found[k] == data[slots[k]].data
      ensures forall j, k :: 0 <= j < k < |slots| ==> slots[j] != slots[k]
      ensures forall i :: i in slots <==> Match(data, keys, key, i)
    {
      hide HomesMatch, Buckets, Held, Sized, Contents;
      found, slots := [], [];
      var r := Search(key);
      ghost var floor: int := -1;
      while r.Some?
        invariant Valid() && NextMatch(data, shape, keys, key, floor, currentRecord)
        invariant r == if currentRecord == NO_RECORD then None else Some(data[currentRecord].data)
        invariant Listed(data, shape, keys, key, floor, found, slots)
        decreases if r.None? then 0 else 1 + MaxRank(shape.rank) - shape.rank[currentRecord]
      {
        ListOneMore(data, shape, keys, blength, key, floor, currentRecord, found, slots);
        found := found + [r.value];
        slots := slots + [currentRecord];
        floor := shape.rank[currentRecord];
        r := Next(key);
      }
    }

    /** One operation of a run. */
    method Step(op: Op)
      requires Valid()
      modifies this
      ensures Valid() && Contents() == Apply(old(Contents()), op)
    {
      hide Valid, Contents;
      match op {
        case InsertOp(record, hasMemory) => var _ := Insert(record, hasMemory);
        case DeleteOp(record) => var _ := Delete(record);
      }
    }

    /** After any run of insertions and deletions the table is valid and holds the multiset the run describes. */
    method Run(ops: seq<Op>)
      requires Valid()
      modifies this
      ensures Valid() && Contents() == ApplyAll(old(Contents()), ops)
    {
      hide Valid, Contents, Apply;
      var i := 0;
      while i < |ops|
        invariant 0 <= i <= |ops| && Valid()
        invariant Contents() == ApplyAll(old(Contents()), ops[..i])
      {
        Step(ops[i]);
        assert ops[..i + 1][..i] == ops[..i];
        i := i + 1;
      }
      assert ops[..i] == ops;
    }
  }

  ghost predicate Distinct(c: seq<int>) {
    forall j, k :: 0 <= j < k < |c| ==> c[j] != c[k]
  }

  /** The slots of a chain from slot i on, following `next`. */
  ghost function ChainFrom(d: seq<Link>, s: Shape, i: int): (c: seq<int>)
    requires Linked(d, s, {}) && (i == NO_RECORD || 0 <= i < |d|)
    decreases if i == NO_RECORD then 0 else 1 + MaxRank(s.rank) - s.rank[i]
  {
    if i == NO_RECORD then [] else [i] + ChainFrom(d, s, d[i].next)
  }

  lemma {:induction false} ChainFromHolds(d: seq<Link>, s: Shape, i: int)
    requires Linked(d, s, {}) && 0 <= i < |d|
    ensures forall j :: j in ChainFrom(d, s, i) <==> 0 <= j < |d| && s.home[j] == s.home[i] && s.rank[j] >= s.rank[i]
    ensures Distinct(ChainFrom(d, s, i))
    decreases MaxRank(s.rank) - s.rank[i]
  {
    var n := d[i].next;
    forall j | 0 <= j < |d| && s.home[j] == s.home[i]
      ensures s.rank[j] >= s.rank[i] <==> j == i || (n != NO_RECORD && s.rank[j] >= s.rank[n])
    {
      if s.rank[j] == s.rank[i] {
        RankInjective(d, s, {}, j, i);
      } else if s.rank[j] > s.rank[i] {
        StepTowards(d, s, {}, i, j);
      }
    }
    if n != NO_RECORD {
      ChainFromHolds(d, s, n);
      assert i !in ChainFrom(d, s, n);
    }
  }

  /** Every bucket is one chain: it starts at its home slot, never meets a slot twice, and holds
      exactly the slots whose record belongs to the bucket; a bucket without records has no chain. */
  lemma BucketIsChain(d: seq<Link>, s: Shape, keys: Keys, blength: nat, b: int)
    requires Table(d, s, keys, blength) && 0 <= b < |d|
    ensures var bucket := Buckets(keys, blength, |d|);
      if bucket(d[b].data) == b then
        var c := ChainFrom(d, s, b);
        && (forall i :: i in c <==> 0 <= i < |d| && bucket(d[i].data) == b)
        && Distinct(c)
      else forall i :: 0 <= i < |d| ==> bucket(d[i].data) != b
  {
    var bucket := Buckets(keys, blength, |d|);
    ChainFromHolds(d, s, b);
    assert forall i :: Used(d, {}, i) <==> 0 <= i < |d|;
    forall i | 0 <= i < |d| ensures s.home[i] == bucket(d[i].data) && (s.home[i] == b ==> s.home[b] == b && s.rank[i] >= s.rank[b]) {
      assert s.home[s.home[i]] == s.home[i];
      HeadIsLowest(d, s, {}, i);
    }
  }

  /** found lists the records with the key up to chain position floor, slot by slot. */
  ghost predicate Listed(d: seq<Link>, s: Shape, keys: Keys, key: Key, floor: int, found: seq<Ptr>, slots: seq<int>)
  {
    && |s.rank| == |d| && |found| == |slots|
    && (forall k :: 0 <= k < |slots| ==> 0 <= slots[k] < |d| && found[k] == d[slots[k]].data)
    && (forall i :: i in slots <==> Match(d, keys, key, i) && s.rank[i] <= floor)
    && (forall j, k :: 0 <= j < k < |slots| ==> slots[j] != slots[k])
  }

  lemma ListOneMore(d: seq<Link>, s: Shape, keys: Keys, blength: nat, key: Key, floor: int, c: int,
                    found: seq<Ptr>, slots: seq<int>)
    requires Table(d, s, keys, blength) && Listed(d, s, keys, key, floor, found, slots)
    requires c != NO_RECORD && NextMatch(d, s, keys, key, floor, c)
    ensures Listed(d, s, keys, key, s.rank[c], found + [d[c].data], slots + [c])
  {
    SameRankMatch(d, s, keys, blength, key, c);
    forall k | 0 <= k < |slots| ensures slots[k] != c {
      assert slots[k] in slots;
    }
  }
}

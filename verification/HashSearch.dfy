/** Lookup by key: `hash_search` and `hash_next`. */
module HashSearch {
  import opened HashMasks
  import opened HashLinks
  import opened HashWalk
  import opened HashSplit
  import opened HashTables

  /** `hashcmp` finds the key bytes of the record in slot i equal to key. */
  ghost predicate Match(d: seq<Link>, keys: Keys, key: Key, i: int) {
    0 <= i < |d| && keys.keyOf(d[i].data) == key
  }

  /** c is the next slot with the key in chain order after position `floor`; NO_RECORD if there is none. */
  ghost predicate NextMatch(d: seq<Link>, s: Shape, keys: Keys, key: Key, floor: int, c: int)
    requires |s.rank| == |d|
  {
    if c == NO_RECORD then forall i :: Match(d, keys, key, i) ==> s.rank[i] <= floor
    else
      && Match(d, keys, key, c) && s.rank[c] > floor
      && forall i :: Match(d, keys, key, i) && s.rank[i] > floor ==> s.rank[i] >= s.rank[c]
  }

  /** Every later record with the key is still ahead of slot idx. */
  ghost predicate Ahead(d: seq<Link>, s: Shape, keys: Keys, key: Key, floor: int, idx: int)
    requires |s.rank| == |s.home| == |d|
  {
    && 0 <= idx < |d|
    && forall i :: Match(d, keys, key, i) && s.rank[i] > floor ==> s.home[i] == s.home[idx] && s.rank[i] >= s.rank[idx]
  }

  lemma AheadSteps(d: seq<Link>, s: Shape, keys: Keys, key: Key, floor: int, idx: int)
    requires Linked(d, s, {}) && Ahead(d, s, keys, key, floor, idx)
    requires (Match(d, keys, key, idx) ==> s.rank[idx] <= floor)
    ensures if d[idx].next == NO_RECORD then NextMatch(d, s, keys, key, floor, NO_RECORD)
            else Ahead(d, s, keys, key, floor, d[idx].next)
  {
    forall i | Match(d, keys, key, i) && s.rank[i] > floor
      ensures d[idx].next != NO_RECORD && (d[idx].next == i || s.rank[d[idx].next] < s.rank[i])
    {
      if s.rank[i] == s.rank[idx] { RankInjective(d, s, {}, i, idx); }
      StepTowards(d, s, {}, idx, i);
    }
  }

  lemma SearchStarts(d: seq<Link>, s: Shape, keys: Keys, key: Key, bucket: Ptr -> int, idx: int)
    requires Linked(d, s, {}) && HomesMatch(d, s, {}, bucket) && 0 <= idx < |d|
    requires forall p :: keys.keyOf(p) == key ==> bucket(p) == idx
    ensures Ahead(d, s, keys, key, -1, idx)
    ensures s.home[idx] != idx ==> NextMatch(d, s, keys, key, -1, NO_RECORD)
  {
    forall i | Match(d, keys, key, i) ensures s.home[i] == idx && s.home[idx] == idx && s.rank[i] >= s.rank[idx] {
      assert s.home[i] == bucket(d[i].data);
      assert s.home[s.home[i]] == s.home[i];
      HeadIsLowest(d, s, {}, i);
    }
  }

  /** The walk of `hash_search` from the home slot of the key. */
  method SearchFrom(d: seq<Link>, key: Key, start: int, keys: Keys, blength: nat, ghost s: Shape,
                    ghost bucket: Ptr -> int)
    returns (c: int)
    requires Linked(d, s, {}) && HomesMatch(d, s, {}, bucket) && 0 <= start < |d| && blength > 0
    requires forall p {:trigger keys.RecHashnr(p)} :: bucket(p) == HashMask(keys.RecHashnr(p), blength, |d|)
    requires forall p :: keys.keyOf(p) == key ==> bucket(p) == start
    ensures NextMatch(d, s, keys, key, -1, c)
  {
    var idx, flag := start, true;
    SearchStarts(d, s, keys, key, bucket, idx);
    while true
      invariant Ahead(d, s, keys, key, -1, idx)
      invariant flag ==> idx == start
      decreases MaxRank(s.rank) - s.rank[idx]
    {
      if keys.keyOf(d[idx].data) == key {
        return idx;
      }
      if flag {
        flag := false;
        assert s.home[idx] == bucket(d[idx].data);
        if HashMask(keys.RecHashnr(d[idx].data), blength, |d|) != idx {
          return NO_RECORD;
        }
      }
      AheadSteps(d, s, keys, key, -1, idx);
      if d[idx].next == NO_RECORD {
        return NO_RECORD;
      }
      idx := d[idx].next;
    }
  }

  /** The walk of `hash_next` from the current record. */
  method NextFrom(d: seq<Link>, key: Key, current: int, keys: Keys, ghost s: Shape, ghost bucket: Ptr -> int)
    returns (c: int)
    requires Linked(d, s, {}) && HomesMatch(d, s, {}, bucket) && Match(d, keys, key, current)
    requires forall p, q :: keys.keyOf(p) == keys.keyOf(q) ==> bucket(p) == bucket(q)
    ensures NextMatch(d, s, keys, key, s.rank[current], c)
  {
    ghost var floor := s.rank[current];
    forall i | Match(d, keys, key, i) ensures s.home[i] == s.home[current] {
      assert s.home[i] == bucket(d[i].data) && s.home[current] == bucket(d[current].data);
    }
    AheadSteps(d, s, keys, key, floor, current);
    var idx := d[current].next;
    while idx != NO_RECORD
      invariant idx != NO_RECORD ==> Ahead(d, s, keys, key, floor, idx) && s.rank[idx] > floor
      invariant idx == NO_RECORD ==> NextMatch(d, s, keys, key, floor, NO_RECORD)
      decreases if idx == NO_RECORD then 0 else 1 + MaxRank(s.rank) - s.rank[idx]
    {
      if keys.keyOf(d[idx].data) == key {
        return idx;
      }
      AheadSteps(d, s, keys, key, floor, idx);
      idx := d[idx].next;
    }
    return NO_RECORD;
  }

  lemma KeyBucket(d: seq<Link>, keys: Keys, blength: nat, key: Key)
    requires Sized(blength, |d|) && |d| > 0
    ensures HashMask(keys.calcHashnr(key), blength, |d|) < |d|
    ensures forall p :: keys.keyOf(p) == key ==> Buckets(keys, blength, |d|)(p) == HashMask(keys.calcHashnr(key), blength, |d|)
  {
    MaskIsMod(keys.calcHashnr(key), blength, |d|);
  }

  lemma MatchIsStored(d: seq<Link>, s: Shape, keys: Keys, key: Key, c: int)
    requires |s.rank| == |d| && NextMatch(d, s, keys, key, -1, c)
    ensures c != NO_RECORD <==> exists p :: p in Held(d, NO_RECORD) && keys.keyOf(p) == key
    ensures c != NO_RECORD ==> d[c].data in Held(d, NO_RECORD)
  {
    if c != NO_RECORD {
      HeldAt(d, NO_RECORD, c);
    } else if p :| p in Held(d, NO_RECORD) && keys.keyOf(p) == key {
      var i := HeldSlot(d, NO_RECORD, p);
      assert Match(d, keys, key, i);
    }
  }

  lemma SameRankMatch(d: seq<Link>, s: Shape, keys: Keys, blength: nat, key: Key, c: int)
    requires Table(d, s, keys, blength) && Match(d, keys, key, c)
    ensures forall i :: Match(d, keys, key, i) && s.rank[i] == s.rank[c] ==> i == c
  {
    forall i | Match(d, keys, key, i) && s.rank[i] == s.rank[c] ensures i == c {
      assert s.home[i] == Buckets(keys, blength, |d|)(d[i].data);
      assert s.home[c] == Buckets(keys, blength, |d|)(d[c].data);
      RankInjective(d, s, {}, i, c);
    }
  }
}

/** The bucket split that makes room for one more record. */
module HashSplit {
  import opened Bytes
  import opened Bits
  import opened HashMasks
  import opened HashLinks

  type Key = seq<Byte>

  /** What the caller supplies: the key bytes of every record and the hash function. */
  datatype Keys = Keys(keyOf: Ptr -> Key, calcHashnr: Key -> nat) {
    /** `rec_hashnr`. */
    function RecHashnr(p: Ptr): nat { calcHashnr(keyOf(p)) }
  }

  /** `hash_rec_mask`: the bucket of every record when `records` buckets of `blength` are in use. */
  function Buckets(keys: Keys, blength: nat, records: nat): Ptr -> int
  {
    (p: Ptr) => if blength == 0 then 0 else HashMask(keys.RecHashnr(p), blength, records)
  }

  /** Every used slot's home is the bucket of its record. */
  ghost predicate HomesMatch(d: seq<Link>, s: Shape, X: set<int>, bucket: Ptr -> int)
  {
    && |s.home| == |d|
    && forall i {:trigger d[i].data} :: Used(d, X, i) ==> s.home[i] == bucket(d[i].data)
  }

  /** The records of all slots but the hole `e`; NO_RECORD stands for no hole. */
  ghost function Held(d: seq<Link>, e: int): multiset<Ptr>
  {
    if |d| == 0 then multiset{}
    else Held(d[..|d| - 1], e) + (if |d| - 1 == e then multiset{} else multiset{d[|d| - 1].data})
  }

  lemma Cancel(a: multiset<Ptr>, b: multiset<Ptr>, c: multiset<Ptr>)
    requires a + c == b + c
    ensures a == b
  {
    forall p ensures a[p] == b[p] {
      assert (a + c)[p] == (b + c)[p];
    }
  }

  lemma Both(a: multiset<Ptr>, x: multiset<Ptr>, b: multiset<Ptr>, y: multiset<Ptr>, c: multiset<Ptr>)
    requires a + x == b + y
    ensures (a + c) + x == (b + c) + y
  {
    forall p ensures ((a + c) + x)[p] == ((b + c) + y)[p] {
      assert (a + x)[p] == (b + y)[p];
    }
  }

  lemma {:induction false} HeldAt(d: seq<Link>, e: int, i: int)
    requires 0 <= i < |d| && i != e
    ensures d[i].data in Held(d, e)
  {
    if i < |d| - 1 { HeldAt(d[..|d| - 1], e, i); }
  }

  lemma {:induction false} HeldSlot(d: seq<Link>, e: int, r: Ptr) returns (i: int)
    requires r in Held(d, e)
    ensures 0 <= i < |d| && i != e && d[i].data == r
  {
    var n := |d| - 1;
    if n != e && d[n].data == r { return n; }
    i := HeldSlot(d[..n], e, r);
  }

  /** The record of the last slot, unless that is the hole. */
  ghost function LastHeld(d: seq<Link>, e: int): multiset<Ptr>
    requires |d| > 0
  {
    if |d| - 1 == e then multiset{} else multiset{d[|d| - 1].data}
  }

  lemma HeldLast(d: seq<Link>, e: int)
    requires |d| > 0
    ensures Held(d, e) == Held(d[..|d| - 1], e) + LastHeld(d, e)
  {
  }

  lemma {:induction false} UpdateHeld(d: seq<Link>, e: int, i: int, l: Link)
    requires 0 <= i < |d| && i != e
    ensures Held(d[i := l], e) + multiset{d[i].data} == Held(d, e) + multiset{l.data}
  {
    hide Held;
    var n := |d| - 1;
    HeldLast(d, e);
    HeldLast(d[i := l], e);
    if i < n {
      UpdateHeld(d[..n], e, i, l);
      assert d[i := l][..n] == d[..n][i := l];
      Both(Held(d[..n][i := l], e), multiset{d[i].data}, Held(d[..n], e), multiset{l.data}, LastHeld(d, e));
    } else {
      assert d[i := l][..n] == d[..n];
      Both2(Held(d[..n], e), multiset{l.data}, multiset{d[i].data});
    }
  }

  lemma Both2(a: multiset<Ptr>, x: multiset<Ptr>, y: multiset<Ptr>)
    ensures a + x + y == a + y + x
  {
  }

  lemma {:induction false} HoleHeld(d: seq<Link>, e: int, l: Link)
    requires 0 <= e < |d|
    ensures Held(d[e := l], e) == Held(d, e)
    ensures Held(d, e) + multiset{d[e].data} == Held(d, NO_RECORD)
  {
    hide Held;
    var n := |d| - 1;
    HeldLast(d, e);
    HeldLast(d[e := l], e);
    HeldLast(d, NO_RECORD);
    if e < n {
      HoleHeld(d[..n], e, l);
      assert d[e := l][..n] == d[..n][e := l];
      Both(Held(d[..n], e), multiset{d[e].data}, Held(d[..n], NO_RECORD), multiset{}, multiset{d[n].data});
    } else {
      assert d[e := l][..n] == d[..n];
      NoHoleHeld(d[..n], e);
    }
  }

  lemma {:induction false} NoHoleHeld(d: seq<Link>, e: int)
    requires e < 0 || e >= |d|
    ensures Held(d, e) == Held(d, NO_RECORD)
  {
    if |d| > 0 { NoHoleHeld(d[..|d| - 1], e); }
  }

  /** Filling the hole adds the record. */
  lemma FillHeld(d: seq<Link>, e: int, l: Link)
    requires 0 <= e < |d|
    ensures Held(d[e := l], NO_RECORD) == Held(d, e) + multiset{l.data}
  {
    HoleHeld(d, e, l);
    HoleHeld(d[e := l], e, l);
  }

  /** Overwriting a link only does not change the records. */
  lemma RelinkHeld(d: seq<Link>, e: int, i: int, n: int)
    requires 0 <= i < |d|
    ensures Held(d[i := d[i].(next := n)], e) == Held(d, e)
  {
    var l := d[i].(next := n);
    if i == e {
      HoleHeld(d, e, l);
    } else {
      UpdateHeld(d, e, i, l);
      Cancel(Held(d[i := l], e), Held(d, e), multiset{l.data});
    }
  }

  /** Copying the record of slot p into the hole e makes p the hole. */
  lemma MoveHeld(d: seq<Link>, e: int, l: Link, p: int)
    requires 0 <= e < |d| && 0 <= p < |d| && l.data == d[p].data
    ensures Held(d[e := l], p) == Held(d, e)
  {
    FillHeld(d, e, l);
    HoleHeld(d[e := l], p, l);
    Cancel(Held(d[e := l], p), Held(d, e), multiset{l.data});
  }

  /** One half of the bucket while it is being split: the last slot found for it so far.
      `find` and `used` are the LOWFIND/LOWUSED (HIGHFIND/HIGHUSED) flag bits; a tail that is
      not `used` still has to be written to slot `pos`. */
  datatype Tail = Tail(find: bool, used: bool, pos: int, rec: Ptr)

  /** The table that is being split, as it was before: one hole at the end, bucket `first` is
      to be split, and `was` and `now` are the bucket numbers before and after. */
  datatype Before = Before(d: seq<Link>, s: Shape, records: nat, first: int, was: Ptr -> int, now: Ptr -> int) {
    ghost predicate Valid() {
      && |d| == records + 1 && 0 <= first < records
      && Linked(d, s, {records}) && HomesMatch(d, s, {records}, was)
      && s.rank[records] == 0 && (forall i :: 0 <= i < records ==> s.rank[i] > 0)
      && (forall p :: now(p) == was(p) || (was(p) == first && now(p) == records))
    }

    /** The part of the old chain from slot idx on. */
    ghost predicate IsRest(U: set<int>, idx: int) {
      && |s.home| == |s.rank| > records
      && (idx == NO_RECORD || (0 <= idx < records && s.home[idx] == first))
      && forall i :: i in U <==> 0 <= i < records && s.home[i] == first && idx != NO_RECORD && s.rank[i] >= s.rank[idx]
    }

    lemma RestEnds(U: set<int>)
      requires IsRest(U, NO_RECORD)
      ensures U == {}
    {
      assert forall i :: i in U ==> false;
    }

    lemma RestSteps(U: set<int>, idx: int)
      requires Valid() && IsRest(U, idx) && idx != NO_RECORD
      ensures idx in U && IsRest(U - {idx}, d[idx].next)
    {
      var next := d[idx].next;
      forall i | 0 <= i < records && s.home[i] == first
        ensures i in U - {idx} <==> next != NO_RECORD && s.rank[i] >= s.rank[next]
      {
        if s.rank[i] == s.rank[idx] {
          RankInjective(d, s, {records}, i, idx);
        } else if s.rank[i] > s.rank[idx] {
          StepTowards(d, s, {records}, idx, i);
        }
      }
    }
  }

  /** `v` is the array with the pending writes done and both half chains closed. */
  ghost predicate TailOk(d: seq<Link>, v: seq<Link>, s: Shape, X: set<int>, idx: int, t: Tail, bucket: int)
  {
    && |d| == |v| == |s.home| == |s.rank|
    && (t.used ==> t.find)
    && (t.find ==>
      && Used(v, X, t.pos) && s.home[t.pos] == bucket && v[t.pos] == Link(NO_RECORD, t.rec)
      && (0 <= idx < |v| ==> s.rank[t.pos] < s.rank[idx])
      && (t.used ==> d[t.pos] == Link(idx, t.rec)))
  }

  /** The closed array `v` is a good table apart from the rest of the old chain and the hole. */
  ghost predicate Closed(b: Before, v: seq<Link>, s: Shape, U: set<int>, empty: int, idx: int)
  {
    && |v| == |b.d| && s.rank == b.s.rank
    && b.IsRest(U, idx)
    && 0 <= empty <= b.records && empty !in U
    && Linked(v, s, U + {empty})
    && HomesMatch(v, s, U + {empty}, b.now)
    && Held(v, empty) == Held(b.d, b.records)
  }

  /** The real array `d` differs from `v` only in the hole and in the two open tails. */
  ghost predicate Agrees(b: Before, d: seq<Link>, v: seq<Link>, s: Shape, U: set<int>, empty: int, idx: int,
                         t: Tail, tBucket: int, o: Tail, oBucket: int)
  {
    && |d| == |v| == |b.d|
    && (forall i :: i in U && 0 <= i < |d| ==> d[i] == v[i] == b.d[i])
    && (forall i :: Used(v, U + {empty}, i) && !(t.find && i == t.pos) && !(o.find && i == o.pos) ==> d[i] == v[i])
    && TailOk(d, v, s, U + {empty}, idx, t, tBucket)
    && TailOk(d, v, s, U + {empty}, idx, o, oBucket)
    && !(t.used && o.used)
  }

  ghost predicate Splitting(b: Before, d: seq<Link>, v: seq<Link>, s: Shape, U: set<int>, empty: int, idx: int,
                            t: Tail, tBucket: int, o: Tail, oBucket: int)
  {
    Closed(b, v, s, U, empty, idx) && Agrees(b, d, v, s, U, empty, idx, t, tBucket, o, oBucket)
  }

  lemma AppendHomes(v: seq<Link>, s: Shape, X: set<int>, bucket: Ptr -> int, t: int, e: int, r: Ptr)
    requires HomesMatch(v, s, X, bucket) && Used(v, X, t) && 0 <= e < |v| && e in X && bucket(r) == s.home[t]
    ensures HomesMatch(v[t := v[t].(next := e)][e := Link(NO_RECORD, r)], s.(home := s.home[e := s.home[t]]), X - {e}, bucket)
  {
  }

  lemma AppendClosed(b: Before, v: seq<Link>, s: Shape, U: set<int>, empty: int, idx: int, t: int)
    returns (v': seq<Link>, s': Shape)
    requires Closed(b, v, s, U, empty, idx) && idx in U && b.IsRest(U - {idx}, b.d[idx].next)
    requires Used(v, U + {empty}, t) && v[t].next == NO_RECORD && s.rank[t] < s.rank[idx]
    requires b.now(v[idx].data) == s.home[t]
    ensures v' == v[t := v[t].(next := idx)][idx := Link(NO_RECORD, v[idx].data)]
    ensures s' == s.(home := s.home[idx := s.home[t]], prev := s.prev[idx := t])
    ensures Closed(b, v', s', U - {idx}, empty, b.d[idx].next)
  {
    assert U + {empty} - {idx} == (U - {idx}) + {empty};
    v' := v[t := v[t].(next := idx)][idx := Link(NO_RECORD, v[idx].data)];
    s' := AppendToChain(v, s, U + {empty}, t, idx, v[idx].data);
    RelinkHeld(v, empty, t, idx);
    RelinkHeld(v[t := v[t].(next := idx)], empty, idx, NO_RECORD);
    AppendHomes(v, s, U + {empty}, b.now, t, idx, v[idx].data);
  }

  lemma AppendAgrees(b: Before, d: seq<Link>, v: seq<Link>, s: Shape, U: set<int>, empty: int, idx: int,
                     t: Tail, tBucket: int, o: Tail, oBucket: int, d': seq<Link>, v': seq<Link>, s': Shape)
    requires Agrees(b, d, v, s, U, empty, idx, t, tBucket, o, oBucket)
    requires idx in U && 0 <= idx < |d| && empty !in U && t.find && tBucket != oBucket && |s.prev| == |d|
    requires 0 <= b.d[idx].next < |d| ==> s.rank[idx] < s.rank[b.d[idx].next]
    requires d' == if t.used then d else d[t.pos := Link(idx, t.rec)]
    requires v' == v[t.pos := v[t.pos].(next := idx)][idx := Link(NO_RECORD, v[idx].data)]
    requires s' == s.(home := s.home[idx := s.home[t.pos]], prev := s.prev[idx := t.pos])
    ensures Agrees(b, d', v', s', U - {idx}, empty, b.d[idx].next, Tail(true, true, idx, d[idx].data), tBucket, o.(used := false), oBucket)
  {
  }

  /** The record at idx belongs behind the tail t. */
  lemma AppendStep(b: Before, d: seq<Link>, v: seq<Link>, s: Shape, U: set<int>, empty: int, idx: int,
                   t: Tail, tBucket: int, o: Tail, oBucket: int) returns (v': seq<Link>, s': Shape)
    requires b.Valid() && Splitting(b, d, v, s, U, empty, idx, t, tBucket, o, oBucket)
    requires idx != NO_RECORD && t.find && tBucket != oBucket
    requires b.now(d[idx].data) == tBucket
    ensures var d' := if t.used then d else d[t.pos := Link(idx, t.rec)];
      Splitting(b, d', v', s', U - {idx}, empty, b.d[idx].next, Tail(true, true, idx, d[idx].data), tBucket, o.(used := false), oBucket)
  {
    b.RestSteps(U, idx);
    v', s' := AppendClosed(b, v, s, U, empty, idx, t.pos);
    var d' := if t.used then d else d[t.pos := Link(idx, t.rec)];
    AppendAgrees(b, d, v, s, U, empty, idx, t, tBucket, o, oBucket, d', v', s');
  }

  lemma StartClosed(b: Before, v: seq<Link>, s: Shape, U: set<int>, empty: int, idx: int)
    returns (v': seq<Link>, s': Shape)
    requires Closed(b, v, s, U, empty, idx) && idx in U && b.IsRest(U - {idx}, b.d[idx].next)
    requires b.now(v[idx].data) == empty
    ensures v' == v[empty := Link(NO_RECORD, v[idx].data)]
    ensures s' == s.(home := s.home[empty := empty])
    ensures Closed(b, v', s', U - {idx}, idx, b.d[idx].next)
  {
    assert U + {empty} - {empty} == (U - {idx}) + {idx};
    v' := v[empty := Link(NO_RECORD, v[idx].data)];
    s' := StartChain(v, s, U + {empty}, empty, v[idx].data);
    MoveHeld(v, empty, Link(NO_RECORD, v[idx].data), idx);
  }

  lemma StartAgrees(b: Before, d: seq<Link>, v: seq<Link>, s: Shape, U: set<int>, empty: int, idx: int,
                    t: Tail, tBucket: int, o: Tail, oBucket: int, v': seq<Link>, s': Shape)
    requires Agrees(b, d, v, s, U, empty, idx, t, tBucket, o, oBucket)
    requires idx in U && 0 <= idx < |d| && empty !in U && !t.find && tBucket == empty && 0 <= empty < |d|
    requires s.rank[empty] < s.rank[idx]
    requires 0 <= b.d[idx].next < |d| ==> s.rank[idx] < s.rank[b.d[idx].next]
    requires v' == v[empty := Link(NO_RECORD, v[idx].data)]
    requires s' == s.(home := s.home[empty := empty])
    ensures Agrees(b, d, v', s', U - {idx}, idx, b.d[idx].next, Tail(true, false, empty, d[idx].data), tBucket, o.(used := false), oBucket)
  {
  }

  /** The record at idx is the first of its half and goes into the hole, its home. */
  lemma StartStep(b: Before, d: seq<Link>, v: seq<Link>, s: Shape, U: set<int>, empty: int, idx: int,
                  t: Tail, tBucket: int, o: Tail, oBucket: int) returns (v': seq<Link>, s': Shape)
    requires b.Valid() && Splitting(b, d, v, s, U, empty, idx, t, tBucket, o, oBucket)
    requires idx != NO_RECORD && !t.find && tBucket == empty
    requires b.now(d[idx].data) == tBucket
    requires s.rank[empty] < s.rank[idx]
    ensures Splitting(b, d, v', s', U - {idx}, idx, b.d[idx].next, Tail(true, false, empty, d[idx].data), tBucket, o.(used := false), oBucket)
  {
    b.RestSteps(U, idx);
    v', s' := StartClosed(b, v, s, U, empty, idx);
    StartAgrees(b, d, v, s, U, empty, idx, t, tBucket, o, oBucket, v', s');
  }

  lemma StayClosed(b: Before, v: seq<Link>, s: Shape, U: set<int>, empty: int, idx: int)
    returns (v': seq<Link>, s': Shape)
    requires Closed(b, v, s, U, empty, idx) && idx in U && b.IsRest(U - {idx}, b.d[idx].next)
    requires b.now(v[idx].data) == idx
    ensures v' == v[idx := Link(NO_RECORD, v[idx].data)]
    ensures s' == s.(home := s.home[idx := idx])
    ensures Closed(b, v', s', U - {idx}, empty, b.d[idx].next)
  {
    assert U + {empty} - {idx} == (U - {idx}) + {empty};
    v' := v[idx := Link(NO_RECORD, v[idx].data)];
    s' := StartChain(v, s, U + {empty}, idx, v[idx].data);
    RelinkHeld(v, empty, idx, NO_RECORD);
  }

  /** The record at idx is the first of all and stays where it is. */
  lemma StayStep(b: Before, d: seq<Link>, v: seq<Link>, s: Shape, U: set<int>, empty: int, idx: int,
                 t: Tail, tBucket: int, o: Tail, oBucket: int) returns (v': seq<Link>, s': Shape)
    requires b.Valid() && Splitting(b, d, v, s, U, empty, idx, t, tBucket, o, oBucket)
    requires idx != NO_RECORD && !t.find && !o.find && tBucket == idx
    requires b.now(d[idx].data) == tBucket
    ensures Splitting(b, d, v', s', U - {idx}, empty, b.d[idx].next, Tail(true, true, idx, d[idx].data), tBucket, o, oBucket)
  {
    b.RestSteps(U, idx);
    v', s' := StayClosed(b, v, s, U, empty, idx);
    assert Agrees(b, d, v', s', U - {idx}, empty, b.d[idx].next, Tail(true, true, idx, d[idx].data), tBucket, o, oBucket);
  }

  lemma NothingToSplit(b: Before)
    requires b.Valid() && b.s.home[b.first] != b.first
    ensures HomesMatch(b.d, b.s, {b.records}, b.now)
  {
    forall i | Used(b.d, {b.records}, i) ensures b.s.home[i] == b.now(b.d[i].data) {
      assert b.s.home[b.s.home[i]] == b.s.home[i];
    }
  }

  /** The loop invariant of the split: the hole is the new slot until the first high key is
      found, and the low bucket's home slot until the first low key is found after that. */
  ghost predicate SplitInv(b: Before, d: seq<Link>, v: seq<Link>, s: Shape, U: set<int>, empty: int, idx: int,
                           low: Tail, high: Tail)
  {
    && Splitting(b, d, v, s, U, empty, idx, low, b.first, high, b.records)
    && (!high.find ==> empty == b.records)
    && (high.find && !low.find ==> empty == b.first)
    && (!high.find && !low.find ==> idx == b.first)
  }

  const NONE := Tail(false, false, 0, 0)

  lemma WholeChain(b: Before) returns (U: set<int>)
    requires b.Valid() && b.s.home[b.first] == b.first
    ensures b.IsRest(U, b.first)
    ensures forall i :: i in U <==> 0 <= i < b.records && b.s.home[i] == b.first
  {
    var n, f := b.records, b.first;
    U := set i | 0 <= i < n && b.s.home[i] == f;
    forall i | 0 <= i < n && b.s.home[i] == f ensures b.s.rank[i] >= b.s.rank[f] {
      HeadIsLowest(b.d, b.s, {n}, i);
    }
  }

  /** Taking whole chains out leaves a good table. */
  lemma WithoutChain(d: seq<Link>, s: Shape, X: set<int>, f: int, Y: set<int>)
    requires Linked(d, s, X) && X <= Y
    requires forall i :: Used(d, X, i) ==> (i in Y <==> s.home[i] == f)
    ensures Linked(d, s, Y)
  {
  }

  /** At the start the whole chain is still to be visited, and all other buckets keep their number. */
  lemma SplitStarts(b: Before) returns (U: set<int>)
    requires b.Valid() && b.s.home[b.first] == b.first
    ensures SplitInv(b, b.d, b.d, b.s, U, b.records, b.first, NONE, NONE)
  {
    var n, f := b.records, b.first;
    U := WholeChain(b);
    WithoutChain(b.d, b.s, {n}, f, U + {n});
  }

  /** Once the chain is used up, writing the pending tails gives the closed array. */
  lemma TailsWritten(b: Before, d: seq<Link>, v: seq<Link>, s: Shape, U: set<int>, empty: int, low: Tail,
                     high: Tail, d': seq<Link>)
    requires Agrees(b, d, v, s, U, empty, NO_RECORD, low, b.first, high, b.records)
    requires U == {} && 0 <= empty < |v| && b.first != b.records
    requires d' == var d1 := if low.find && !low.used then d[low.pos := Link(NO_RECORD, low.rec)] else d;
                   if high.find && !high.used then d1[high.pos := Link(NO_RECORD, high.rec)] else d1
    ensures d' == v[empty := d'[empty]]
  {
    forall i | 0 <= i < |d| && i != empty ensures d'[i] == v[i] {
      assert Used(v, U + {empty}, i);
    }
  }

  /** Only the used slots matter to the invariant and to the records. */
  lemma HoleIsFree(d: seq<Link>, v: seq<Link>, s: Shape, e: int, bucket: Ptr -> int)
    requires 0 <= e < |v| == |d| && d == v[e := d[e]]
    requires Linked(v, s, {e}) && HomesMatch(v, s, {e}, bucket)
    ensures Linked(d, s, {e}) && HomesMatch(d, s, {e}, bucket)
    ensures Held(d, e) == Held(v, e)
  {
    HoleHeld(v, e, d[e]);
  }

  lemma HighStart(b: Before, d: seq<Link>, v: seq<Link>, s: Shape, U: set<int>, empty: int, idx: int, low: Tail,
                  high: Tail)
    returns (v': seq<Link>, s': Shape)
    requires b.Valid() && SplitInv(b, d, v, s, U, empty, idx, low, high) && idx != NO_RECORD && !high.find
    requires b.now(d[idx].data) == b.records
    ensures Splitting(b, d, v', s', U - {idx}, idx, b.d[idx].next, low.(used := false), b.first, Tail(true, false, empty, d[idx].data), b.records)
  {
    assert Agrees(b, d, v, s, U, empty, idx, high, b.records, low, b.first);
    v', s' := StartStep(b, d, v, s, U, empty, idx, high, b.records, low, b.first);
  }

  lemma HighAppend(b: Before, d: seq<Link>, v: seq<Link>, s: Shape, U: set<int>, empty: int, idx: int, low: Tail,
                   high: Tail)
    returns (v': seq<Link>, s': Shape)
    requires b.Valid() && SplitInv(b, d, v, s, U, empty, idx, low, high) && idx != NO_RECORD && high.find
    requires b.now(d[idx].data) == b.records
    ensures var d' := if high.used then d else d[high.pos := Link(idx, high.rec)];
      Splitting(b, d', v', s', U - {idx}, empty, b.d[idx].next, low.(used := false), b.first, Tail(true, true, idx, d[idx].data), b.records)
  {
    assert Agrees(b, d, v, s, U, empty, idx, high, b.records, low, b.first);
    v', s' := AppendStep(b, d, v, s, U, empty, idx, high, b.records, low, b.first);
  }

  /** One turn of the loop for a key that stays in the low bucket. */
  method KeepLow(ghost b: Before, d0: seq<Link>, empty0: int, idx: int, low0: Tail, high0: Tail,
                 ghost v0: seq<Link>, ghost s0: Shape, ghost U: set<int>)
    returns (d: seq<Link>, empty: int, low: Tail, high: Tail, ghost v: seq<Link>, ghost s: Shape)
    requires b.Valid() && SplitInv(b, d0, v0, s0, U, empty0, idx, low0, high0) && idx != NO_RECORD
    requires b.now(d0[idx].data) == b.first
    ensures SplitInv(b, d, v, s, U - {idx}, empty, b.d[idx].next, low, high)
    ensures d[idx] == b.d[idx]
  {
    d, empty, low, high, v, s := d0, empty0, low0, high0, v0, s0;
    b.RestSteps(U, idx);
    if !low.find {
      if high.find {
        HeadIsLowest(b.d, b.s, {b.records}, idx);
        v, s := StartStep(b, d, v, s, U, empty, idx, low, b.first, high, b.records);
        low, high := Tail(true, false, empty, d[idx].data), high.(used := false);
        empty := idx;
      } else {
        v, s := StayStep(b, d, v, s, U, empty, idx, low, b.first, high, b.records);
        low := Tail(true, true, idx, d[idx].data);
      }
    } else {
      v, s := AppendStep(b, d, v, s, U, empty, idx, low, b.first, high, b.records);
      high := high.(used := false);
      if !low.used {
        d := d[low.pos := Link(idx, low.rec)];
      }
      low := Tail(true, true, idx, d[idx].data);
    }
  }

  /** One turn of the loop for a key that moves to the new bucket. */
  method MoveHigh(ghost b: Before, d0: seq<Link>, empty0: int, idx: int, low0: Tail, high0: Tail,
                  ghost v0: seq<Link>, ghost s0: Shape, ghost U: set<int>)
    returns (d: seq<Link>, empty: int, low: Tail, high: Tail, ghost v: seq<Link>, ghost s: Shape)
    requires b.Valid() && SplitInv(b, d0, v0, s0, U, empty0, idx, low0, high0) && idx != NO_RECORD
    requires b.now(d0[idx].data) == b.records
    ensures SplitInv(b, d, v, s, U - {idx}, empty, b.d[idx].next, low, high)
    ensures d[idx] == b.d[idx]
  {
    d, empty, low, high, v, s := d0, empty0, low0, high0, v0, s0;
    assert idx in U && d[idx] == b.d[idx] by { b.RestSteps(U, idx); }
    assert high.find ==> high.pos != idx;
    if !high.find {
      v, s := HighStart(b, d, v, s, U, empty, idx, low, high);
      high, low := Tail(true, false, empty, d[idx].data), low.(used := false);
      empty := idx;
    } else {
      v, s := HighAppend(b, d, v, s, U, empty, idx, low, high);
      low := low.(used := false);
      if !high.used {
        d := d[high.pos := Link(idx, high.rec)];
      }
      high := Tail(true, true, idx, d[idx].data);
    }
  }

  lemma InRest(b: Before, d: seq<Link>, v: seq<Link>, s: Shape, U: set<int>, empty: int, idx: int, low: Tail,
               high: Tail)
    requires b.Valid() && SplitInv(b, d, v, s, U, empty, idx, low, high) && idx != NO_RECORD
    ensures 0 <= idx < |d| && idx in U && b.was(d[idx].data) == b.first
  {
    b.RestSteps(U, idx);
    assert b.s.home[idx] == b.first;
  }

  lemma ClosedEnds(b: Before, v: seq<Link>, s: Shape, U: set<int>, empty: int)
    requires Closed(b, v, s, U, empty, NO_RECORD)
    ensures U == {} && Linked(v, s, {empty}) && HomesMatch(v, s, {empty}, b.now)
  {
    b.RestEnds(U);
    assert U + {empty} == {empty};
  }

  lemma SplitEnds(b: Before, d: seq<Link>, v: seq<Link>, s: Shape, U: set<int>, empty: int, low: Tail, high: Tail,
                  d': seq<Link>)
    requires b.Valid() && SplitInv(b, d, v, s, U, empty, NO_RECORD, low, high)
    requires d' == var d1 := if low.find && !low.used then d[low.pos := Link(NO_RECORD, low.rec)] else d;
                   if high.find && !high.used then d1[high.pos := Link(NO_RECORD, high.rec)] else d1
    ensures |d'| == |b.d| && 0 <= empty <= b.records
    ensures Linked(d', s, {empty}) && HomesMatch(d', s, {empty}, b.now)
    ensures Held(d', empty) == Held(b.d, b.records)
  {
    ClosedEnds(b, v, s, U, empty);
    TailsWritten(b, d, v, s, U, empty, low, high, d');
    HoleIsFree(d', v, s, empty, b.now);
  }

  /** The two writes after the loop. */
  method WriteTails(ghost b: Before, d0: seq<Link>, empty: int, low: Tail, high: Tail, ghost v: seq<Link>,
                    ghost s: Shape, ghost U: set<int>)
    returns (d: seq<Link>)
    requires b.Valid() && SplitInv(b, d0, v, s, U, empty, NO_RECORD, low, high)
    ensures |d| == |b.d| && 0 <= empty <= b.records
    ensures Linked(d, s, {empty}) && HomesMatch(d, s, {empty}, b.now)
    ensures Held(d, empty) == Held(b.d, b.records)
  {
    d := d0;
    if low.find && !low.used {
      d := d[low.pos := Link(NO_RECORD, low.rec)];
    }
    if high.find && !high.used {
      d := d[high.pos := Link(NO_RECORD, high.rec)];
    }
    SplitEnds(b, d0, v, s, U, empty, low, high, d);
  }

  /** First half of `hash_insert`: bucket `records - blength/2` is split between itself and the
      new bucket `records`, and one slot is left free. */
  method SplitBucket(ghost b: Before, d0: seq<Link>, keys: Keys, blength: nat, records: nat)
    returns (d: seq<Link>, empty: int, ghost s: Shape)
    requires b.Valid() && b.d == d0 && b.records == records && b.first == records - blength / 2 && blength > 0
    requires forall p {:trigger keys.RecHashnr(p)} :: b.was(p) == HashMask(keys.RecHashnr(p), blength, records)
    requires forall p {:trigger keys.RecHashnr(p)} :: b.was(p) == b.first ==>
      b.now(p) == if And(keys.RecHashnr(p), blength / 2) == 0 then b.first else records
    ensures |d| == |d0| && 0 <= empty <= records && Linked(d, s, {empty}) && HomesMatch(d, s, {empty}, b.now)
    ensures Held(d, empty) == Held(d0, records)
  {
    var halfbuff := blength / 2;
    var firstIndex := records - halfbuff;
    d, empty, s := d0, records, b.s;
    var idx := firstIndex;
    if HashMask(keys.RecHashnr(d[idx].data), blength, records) != firstIndex {
      NothingToSplit(b);
      return;
    }
    var low, high := NONE, NONE;
    ghost var U := SplitStarts(b);
    ghost var v := d0;
    while idx != NO_RECORD
      invariant SplitInv(b, d, v, s, U, empty, idx, low, high)
      decreases U
    {
      InRest(b, d, v, s, U, empty, idx, low, high);
      if And(keys.RecHashnr(d[idx].data), halfbuff) == 0 {
        d, empty, low, high, v, s := KeepLow(b, d, empty, idx, low, high, v, s, U);
      } else {
        d, empty, low, high, v, s := MoveHigh(b, d, empty, idx, low, high, v, s, U);
      }
      U := U - {idx};
      idx := d[idx].next;
    }
    d := WriteTails(b, d, empty, low, high, v, s, U);
  }
}

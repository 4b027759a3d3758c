/**
 The link array of the hash table: every slot holds a record and the index of the
 next slot of its chain, and all chains share the one array.

 `Linked` is the representation invariant stated slot by slot. `home[i]` is the home slot
 (bucket) of the record in slot i, `prev[i]` the slot that links to i, and `rank` grows
 along every chain, so no chain can come back to a slot. The slots in `X` are holes:
 free slots that no chain uses.
 */
module HashLinks {

  type Ptr = nat

  const NO_RECORD: int := -1

  datatype Link = Link(next: int, data: Ptr)

  /** What every slot's place in its chain is; proof state beside the link array. */
  datatype Shape = Shape(home: seq<int>, prev: seq<int>, rank: seq<nat>)

  ghost predicate Linked(d: seq<Link>, s: Shape, X: set<int>)
  {
    |s.home| == |s.prev| == |s.rank| == |d| && Housing(d, s, X) && Nexts(d, s, X) && Prevs(d, s, X)
  }

  /** Homes are slots in use, and a home slot is its own home. */
  ghost predicate Housing(d: seq<Link>, s: Shape, X: set<int>)
    requires |s.home| == |d|
  {
    && (forall i {:trigger s.home[i]} :: 0 <= i < |d| && i !in X ==> 0 <= s.home[i] < |d| && s.home[i] !in X)
    && (forall i {:trigger s.home[s.home[i]]} :: 0 <= i < |d| && i !in X ==> s.home[s.home[i]] == s.home[i])
  }

  /** A link leads to a slot of the same chain, further on and never back to the head. */
  ghost predicate Nexts(d: seq<Link>, s: Shape, X: set<int>)
    requires |s.home| == |s.rank| == |d|
  {
    forall i {:trigger d[i].next} :: 0 <= i < |d| && i !in X && d[i].next != NO_RECORD ==>
          && 0 <= d[i].next < |d| && d[i].next !in X && d[i].next != s.home[i]
          && s.home[d[i].next] == s.home[i] && s.rank[i] < s.rank[d[i].next]
  }

  /** `prev` is the inverse of `next`, and every slot that is not at home has a predecessor. */
  ghost predicate Prevs(d: seq<Link>, s: Shape, X: set<int>)
    requires |s.home| == |s.prev| == |d|
  {
    && (forall i {:trigger s.prev[d[i].next]} :: 0 <= i < |d| && i !in X && 0 <= d[i].next < |d| ==> s.prev[d[i].next] == i)
    && (forall i {:trigger s.prev[i]} :: 0 <= i < |d| && i !in X && s.home[i] != i ==>
          0 <= s.prev[i] < |d| && s.prev[i] !in X && d[s.prev[i]].next == i)
  }

  ghost predicate Used(d: seq<Link>, X: set<int>, i: int) {
    0 <= i < |d| && i !in X
  }

  /** No slot is linked to twice. */
  ghost predicate OnlyPredecessor(d: seq<Link>, s: Shape, X: set<int>)
    requires Linked(d, s, X)
  {
    forall i {:trigger d[i].next} :: Used(d, X, i) && d[i].next != NO_RECORD ==> s.prev[d[i].next] == i
  }

  // ---- Order inside a chain ----

  lemma {:induction false} HeadIsLowest(d: seq<Link>, s: Shape, X: set<int>, i: int)
    requires Linked(d, s, X) && Used(d, X, i)
    ensures s.home[i] != i ==> s.rank[s.home[i]] < s.rank[i]
    decreases s.rank[i]
  {
    if s.home[i] != i {
      var p := s.prev[i];
      assert d[p].next == i;
      HeadIsLowest(d, s, X, p);
    }
  }

  /** Two slots of one chain with the same rank are the same slot. */
  lemma {:induction false} RankInjective(d: seq<Link>, s: Shape, X: set<int>, a: int, b: int)
    requires Linked(d, s, X) && Used(d, X, a) && Used(d, X, b)
    requires s.home[a] == s.home[b] && s.rank[a] == s.rank[b]
    ensures a == b
    decreases s.rank[a]
  {
    HeadIsLowest(d, s, X, a);
    HeadIsLowest(d, s, X, b);
    if s.home[a] != a && s.home[b] != b {
      var p, q := s.prev[a], s.prev[b];
      assert d[p].next == a && d[q].next == b;
      if s.rank[p] == s.rank[q] {
        RankInjective(d, s, X, p, q);
      } else if s.rank[p] < s.rank[q] {
        StepTowards(d, s, X, p, q);
      } else {
        StepTowards(d, s, X, q, p);
      }
    }
  }

  /** From a slot of a chain, one `next` step leads to every later slot of the chain or closer to it. */
  lemma {:induction false} StepTowards(d: seq<Link>, s: Shape, X: set<int>, a: int, b: int)
    requires Linked(d, s, X) && Used(d, X, a) && Used(d, X, b)
    requires s.home[a] == s.home[b] && s.rank[a] < s.rank[b]
    ensures d[a].next != NO_RECORD
    ensures d[a].next == b || s.rank[d[a].next] < s.rank[b]
    decreases s.rank[b]
  {
    HeadIsLowest(d, s, X, a);
    var p := s.prev[b];
    assert d[p].next == b;
    if p != a {
      if s.rank[p] == s.rank[a] {
        RankInjective(d, s, X, p, a);
      } else if s.rank[a] < s.rank[p] {
        StepTowards(d, s, X, a, p);
      } else {
        StepTowards(d, s, X, p, a);
      }
    }
  }

  // ---- Surgery on chains: each step keeps `Linked` ----

  ghost function SetPrev(s: Shape, i: int, p: int): Shape
  {
    if 0 <= i < |s.prev| then s.(prev := s.prev[i := p]) else s
  }

  /** A record whose home is the hole `e` becomes a chain of its own. */
  lemma StartChain(d: seq<Link>, s: Shape, X: set<int>, e: int, r: Ptr) returns (s': Shape)
    requires Linked(d, s, X) && 0 <= e < |d| && e in X
    ensures s' == s.(home := s.home[e := e])
    ensures Linked(d[e := Link(NO_RECORD, r)], s', X - {e})
  {
    s' := s.(home := s.home[e := e]);
  }

  /** A record goes into the hole `e` behind the last slot `t` of its chain. */
  lemma AppendToChain(d: seq<Link>, s: Shape, X: set<int>, t: int, e: int, r: Ptr) returns (s': Shape)
    requires Linked(d, s, X) && Used(d, X, t) && 0 <= e < |d| && e in X
    requires d[t].next == NO_RECORD && s.rank[t] < s.rank[e]
    ensures s' == s.(home := s.home[e := s.home[t]], prev := s.prev[e := t])
    ensures Linked(d[t := d[t].(next := e)][e := Link(NO_RECORD, r)], s', X - {e})
  {
    s' := s.(home := s.home[e := s.home[t]], prev := s.prev[e := t]);
  }

  /** A record goes into the hole `e` right behind the head `h` of its chain. */
  lemma InsertBehindHead(d: seq<Link>, s: Shape, X: set<int>, h: int, e: int, r: Ptr) returns (s': Shape)
    requires Linked(d, s, X) && Used(d, X, h) && s.home[h] == h && 0 <= e < |d| && e in X
    ensures s'.home == s.home[e := h]
    ensures Linked(d[e := Link(d[h].next, r)][h := d[h].(next := e)], s', X - {e})
  {
    assert OnlyPredecessor(d, s, X);
    var n := d[h].next;
    var up := seq(|s.rank|, i requires 0 <= i < |s.rank| => if i == h then s.rank[i] else s.rank[i] + 1);
    s' := SetPrev(Shape(s.home[e := h], s.prev[e := h], up[e := s.rank[h] + 1]), n, e);
  }

  /** A record that is not at its home moves from slot `p` into the hole `e`. */
  lemma MoveInner(d: seq<Link>, s: Shape, X: set<int>, p: int, e: int) returns (s': Shape)
    requires Linked(d, s, X) && Used(d, X, p) && s.home[p] != p && 0 <= e < |d| && e in X
    ensures Used(d, X, s.prev[p])
    ensures s'.home == s.home[e := s.home[p]]
    ensures Linked(d[e := d[p]][s.prev[p] := d[s.prev[p]].(next := e)], s', X - {e} + {p})
  {
    assert OnlyPredecessor(d, s, X);
    s' := SetPrev(Shape(s.home[e := s.home[p]], s.prev[e := s.prev[p]], s.rank[e := s.rank[p]]), d[p].next, e);
  }

  /** The head of a chain moves from slot `p` into the hole `e`, which becomes the chain's home. */
  lemma MoveHead(d: seq<Link>, s: Shape, X: set<int>, p: int, e: int) returns (s': Shape)
    requires Linked(d, s, X) && Used(d, X, p) && s.home[p] == p && 0 <= e < |d| && e in X
    ensures |s'.home| == |s.home| && forall i :: 0 <= i < |s.home| ==>
              s'.home[i] == if i == e || s.home[i] == p then e else s.home[i]
    ensures s'.rank == s.rank[e := s.rank[p]]
    ensures Linked(d[e := d[p]], s', X - {e} + {p})
  {
    assert OnlyPredecessor(d, s, X);
    var home := seq(|s.home|, i requires 0 <= i < |s.home| => if i == e || s.home[i] == p then e else s.home[i]);
    s' := SetPrev(Shape(home, s.prev, s.rank[e := s.rank[p]]), d[p].next, e);
  }

  /** An inner slot `p` is unlinked and becomes a hole. */
  lemma UnlinkInner(d: seq<Link>, s: Shape, X: set<int>, p: int) returns (s': Shape)
    requires Linked(d, s, X) && Used(d, X, p) && s.home[p] != p
    ensures Used(d, X, s.prev[p])
    ensures s'.home == s.home
    ensures s'.rank == s.rank
    ensures Linked(d[s.prev[p] := d[s.prev[p]].(next := d[p].next)], s', X + {p})
  {
    s' := SetPrev(s, d[p].next, s.prev[p]);
  }

  /** The record at head `p` is dropped by copying its successor over it; the successor's slot is the hole. */
  lemma UnlinkHead(d: seq<Link>, s: Shape, X: set<int>, p: int) returns (s': Shape)
    requires Linked(d, s, X) && Used(d, X, p) && s.home[p] == p && d[p].next != NO_RECORD
    ensures s'.home == s.home
    ensures s'.rank == s.rank
    ensures Linked(d[p := d[d[p].next]], s', X + {d[p].next})
  {
    assert OnlyPredecessor(d, s, X);
    s' := SetPrev(s, d[d[p].next].next, p);
  }

  /** A head without successor is its whole chain, so its slot becomes a hole. */
  lemma UnlinkLone(d: seq<Link>, s: Shape, X: set<int>, p: int)
    requires Linked(d, s, X) && Used(d, X, p) && s.home[p] == p && d[p].next == NO_RECORD
    ensures Linked(d, s, X + {p})
  {
    forall i | Used(d, X, i) && s.home[i] == p ensures i == p {
      if i != p {
        HeadIsLowest(d, s, X, i);
        StepTowards(d, s, X, p, i);
      }
    }
  }

  /** Ranks of different chains are unrelated, so two chains can be ranked for a splice. */
  lemma RankForSplice(d: seq<Link>, s: Shape, X: set<int>, p: int, e: int, t: int) returns (s': Shape)
    requires Linked(d, s, X) && Used(d, X, p) && Used(d, X, e) && Used(d, X, t)
    requires s.home[p] == p && s.home[e] == e && s.home[t] == e && p != e
    ensures s'.home == s.home && s'.prev == s.prev && Linked(d, s', X)
    ensures s'.rank[p] < s'.rank[e]
    ensures d[p].next != NO_RECORD ==> s'.rank[t] < s'.rank[d[p].next]
  {
    var n := |s.rank|;
    var rank := seq(n, i requires 0 <= i < n && |s.home| == n =>
      if i == p then s.rank[i]
      else if s.home[i] == e then s.rank[i] + s.rank[p] + 1
      else s.rank[i] + s.rank[t] + 1);
    s' := s.(rank := rank);
    forall i | Used(d, X, i) && d[i].next != NO_RECORD ensures rank[i] < rank[d[i].next] {
      assert d[i].next != p;
    }
  }

  /** What a splice starts from: the chain headed at `e` ends at `t` and is ranked behind the head `p`. */
  ghost predicate CanSplice(d: seq<Link>, s: Shape, X: set<int>, p: int, e: int, t: int) {
    && Linked(d, s, X) && Used(d, X, p) && Used(d, X, e) && Used(d, X, t)
    && p != e && s.home[p] == p && s.home[e] == e && s.home[t] == e && d[t].next == NO_RECORD
  }

  ghost predicate Rehoused(s: Shape, s': Shape, e: int, p: int) {
    |s'.home| == |s.home| && forall i {:trigger s'.home[i]} {:trigger s.home[i]} :: 0 <= i < |s.home| ==>
      s'.home[i] == if s.home[i] == e then p else s.home[i]
  }

  lemma SplicedNexts(d: seq<Link>, s: Shape, X: set<int>, p: int, e: int, t: int, s': Shape)
    requires CanSplice(d, s, X, p, e, t) && Rehoused(s, s', e, p) && s'.rank == s.rank
    requires s.rank[p] < s.rank[e] && (d[p].next != NO_RECORD ==> s.rank[t] < s.rank[d[p].next])
    ensures var d' := d[t := d[t].(next := d[p].next)][p := d[p].(next := e)];
      Housing(d', s', X) && Nexts(d', s', X)
  {
  }

  lemma SplicedPrevs(d: seq<Link>, s: Shape, X: set<int>, p: int, e: int, t: int, s': Shape)
    requires CanSplice(d, s, X, p, e, t) && Rehoused(s, s', e, p)
    requires s'.prev == SetPrev(s.(prev := s.prev[e := p]), d[p].next, t).prev
    ensures Prevs(d[t := d[t].(next := d[p].next)][p := d[p].(next := e)], s', X)
  {
    assert OnlyPredecessor(d, s, X);
  }

  /** The chain headed at `e` and ending at `t` is spliced in behind the head `p` of another chain. */
  lemma Splice(d: seq<Link>, s: Shape, X: set<int>, p: int, e: int, t: int) returns (s': Shape)
    requires CanSplice(d, s, X, p, e, t)
    ensures Rehoused(s, s', e, p)
    ensures Linked(d[t := d[t].(next := d[p].next)][p := d[p].(next := e)], s', X)
  {
    hide Housing, Nexts, Prevs;
    var s1 := RankForSplice(d, s, X, p, e, t);
    var home := seq(|s.home|, i requires 0 <= i < |s.home| => if s.home[i] == e then p else s.home[i]);
    s' := SetPrev(Shape(home, s1.prev[e := p], s1.rank), d[p].next, t);
    SplicedNexts(d, s1, X, p, e, t, s');
    SplicedPrevs(d, s1, X, p, e, t, s');
  }

  /** A record in the hole `p` becomes the new head of the chain headed at `e`, whose home moves to `p`. */
  lemma Prepend(d: seq<Link>, s: Shape, X: set<int>, e: int, p: int, r: Ptr) returns (s': Shape)
    requires Linked(d, s, X) && Used(d, X, e) && s.home[e] == e && 0 <= p < |d| && p in X
    ensures |s'.home| == |s.home| && forall i :: 0 <= i < |s.home| ==>
              s'.home[i] == if i == p || s.home[i] == e then p else s.home[i]
    ensures Linked(d[p := Link(e, r)], s', X - {p})
  {
    var home := seq(|s.home|, i requires 0 <= i < |s.home| => if i == p || s.home[i] == e then p else s.home[i]);
    var rank := seq(|s.rank|, i requires 0 <= i < |s.rank| => if i == p then 0 else s.rank[i] + 1);
    s' := Shape(home, s.prev[e := p], rank);
  }

  /** When only the last slot is a hole it can be dropped from the array. */
  lemma DropLastSlot(d: seq<Link>, s: Shape, n: nat)
    requires |d| == n + 1 && Linked(d, s, {n})
    ensures Linked(d[..n], Shape(s.home[..n], s.prev[..n], s.rank[..n]), {})
  {
  }
}

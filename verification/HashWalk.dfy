/** Walking the chains: `movelink`, and the paths it follows. */
module HashWalk {
  import opened HashLinks

  /** Following `next` from path[0] visits path and then meets `find` for the first time. */
  ghost predicate Walk(d: seq<Link>, path: seq<int>, find: int)
  {
    && |path| > 0
    && (forall k :: 0 <= k < |path| ==> 0 <= path[k] < |d|)
    && (forall k {:trigger path[k]} :: 0 <= k < |path| ==>
          d[path[k]].next == if k + 1 < |path| then path[k + 1] else find)
    && (forall k :: 0 < k < |path| ==> path[k] != find)
  }

  ghost function Last(path: seq<int>): int
    requires |path| > 0
  {
    path[|path| - 1]
  }

  /** `movelink`: the link that leads to `find`, on the way from `nextLink`, is changed to `newLink`.
      The source walks until it meets `find`; when the chain does not hold `find` it reads
      beyond the array, which `ok == false` stands for. */
  method MoveLink(d0: seq<Link>, find: int, nextLink: int, newLink: int, ghost path: seq<int>, ghost end: int)
    returns (ok: bool, d: seq<Link>)
    requires Walk(d0, path, end) && path[0] == nextLink
    requires end == find || (end == NO_RECORD && forall k :: 0 < k < |path| ==> path[k] != find)
    ensures ok == (end == find)
    ensures ok ==> d == d0[Last(path) := d0[Last(path)].(next := newLink)]
  {
    var oldLink := nextLink;
    ghost var k := 0;
    while d0[oldLink].next != find
      invariant 0 <= k < |path| && oldLink == path[k]
      decreases |path| - k
    {
      if d0[oldLink].next == NO_RECORD { return false, d0; }
      oldLink := d0[oldLink].next;
      k := k + 1;
    }
    assert k + 1 == |path|;
    ok, d := true, d0[oldLink := d0[oldLink].(next := newLink)];
  }

  /** The slots of a chain from one slot to another. */
  ghost predicate ChainPath(d: seq<Link>, s: Shape, X: set<int>, path: seq<int>)
  {
    && |s.home| == |s.rank| == |d| && |path| > 0 && Used(d, X, path[0])
    && (forall k :: 0 <= k < |path| ==> Used(d, X, path[k]) && s.home[path[k]] == s.home[path[0]])
    && (forall k {:trigger path[k]} :: 0 <= k < |path| - 1 ==> d[path[k]].next == path[k + 1])
    && (forall k {:trigger path[k]} :: 0 <= k < |path| - 1 ==> s.rank[path[k]] < s.rank[Last(path)])
  }

  /** Every slot is reached from its home slot. */
  lemma {:induction false} PathTo(d: seq<Link>, s: Shape, X: set<int>, p: int) returns (path: seq<int>)
    requires Linked(d, s, X) && Used(d, X, p)
    ensures ChainPath(d, s, X, path) && path[0] == s.home[p] && Last(path) == p
    decreases s.rank[p]
  {
    if s.home[p] == p {
      path := [p];
    } else {
      var q := s.prev[p];
      assert d[q].next == p;
      var init := PathTo(d, s, X, q);
      path := init + [p];
    }
  }

  /** The walk from the home slot to a slot that is not at its home. */
  lemma WalkTo(d: seq<Link>, s: Shape, X: set<int>, p: int) returns (path: seq<int>)
    requires Linked(d, s, X) && Used(d, X, p) && s.home[p] != p
    ensures Walk(d, path, p) && path[0] == s.home[p] && Last(path) == s.prev[p]
    ensures forall k :: 0 <= k < |path| ==> path[k] !in X && path[k] != p
  {
    assert d[s.prev[p]].next == p;
    path := PathTo(d, s, X, s.prev[p]);
  }

  ghost function MaxRank(rank: seq<nat>): (m: nat)
    ensures forall i :: 0 <= i < |rank| ==> rank[i] <= m
  {
    if |rank| == 0 then 0
    else
      var m := MaxRank(rank[..|rank| - 1]);
      if m < rank[|rank| - 1] then rank[|rank| - 1] else m
  }

  /** From every slot a chain runs on to its end. */
  lemma {:induction false} WalkToEnd(d: seq<Link>, s: Shape, X: set<int>, p: int) returns (path: seq<int>)
    requires Linked(d, s, X) && Used(d, X, p)
    ensures Walk(d, path, NO_RECORD) && path[0] == p
    ensures forall k :: 0 <= k < |path| ==> Used(d, X, path[k]) && s.home[path[k]] == s.home[p]
    decreases MaxRank(s.rank) - s.rank[p]
  {
    if d[p].next == NO_RECORD {
      path := [p];
    } else {
      var rest := WalkToEnd(d, s, X, d[p].next);
      path := [p] + rest;
    }
  }

  /** A walk is not disturbed by changes to slots it does not pass. */
  lemma WalkFrame(d: seq<Link>, d': seq<Link>, path: seq<int>, find: int)
    requires Walk(d, path, find) && |d'| == |d|
    requires forall k :: 0 <= k < |path| ==> d'[path[k]].next == d[path[k]].next
    ensures Walk(d', path, find)
  {
  }

  /** Only the links matter to the invariant, not the records. */
  lemma SameLinks(d: seq<Link>, d': seq<Link>, s: Shape, X: set<int>)
    requires Linked(d, s, X) && |d'| == |d|
    requires forall i :: 0 <= i < |d| ==> d'[i].next == d[i].next
    ensures Linked(d', s, X)
  {
  }
}

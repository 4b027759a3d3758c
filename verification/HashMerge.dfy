/** The bucket merge that follows the removal of a record: the last slot is emptied and dropped. */
module HashMerge {
  import opened HashMasks
  import opened HashLinks
  import opened HashWalk
  import opened HashSplit

  /** A table of `n` slots with one hole, whose last slot is not the hole. `was` gives the bucket
      numbers before the last bucket is dropped and `now` those after it, when its records belong
      to bucket `lower`. */
  datatype Holed = Holed(d: seq<Link>, s: Shape, e: int, n: nat, was: Ptr -> int, now: Ptr -> int, lower: int) {
    ghost predicate Housed() {
      && n >= 2 && |d| == |s.home| == n && 0 <= e < n - 1 && 0 <= lower < n - 1
      && HomesMatch(d, s, {e}, was)
      && (forall p :: now(p) == if was(p) == n - 1 then lower else was(p))
      && (forall i {:trigger s.home[i]} :: Used(d, {e}, i) ==> s.home[i] != e)
    }

    ghost predicate Valid() {
      Housed() && Linked(d, s, {e})
    }

    function Last(): int { n - 1 }

    /** What the merge has to reach before the last slot is dropped. */
    ghost predicate Emptied(d': seq<Link>, s': Shape)
      requires 0 <= e < |d| && n >= 1
    {
      && |d'| == n && Linked(d', s', {n - 1}) && HomesMatch(d', s', {n - 1}, now)
      && Held(d', n - 1) == Held(d, e)
    }

    lemma HomeOf(i: int)
      requires Housed() && Used(d, {e}, i)
      ensures s.home[i] == was(d[i].data)
    {
    }

    lemma HomeIsHome(i: int)
      requires Valid() && Used(d, {e}, i)
      ensures 0 <= s.home[i] < n && s.home[i] != e && s.home[s.home[i]] == s.home[i]
    {
    }

    /** If the last slot is not at home there, nothing belongs to the last bucket. */
    lemma LastBucketEmpty()
      requires Valid() && s.home[n - 1] != n - 1
      ensures forall i :: Used(d, {e}, i) ==> s.home[i] != n - 1
    {
      forall i | Used(d, {e}, i) ensures s.home[i] != n - 1 { HomeIsHome(i); }
    }

    /** The new homes follow from the old ones: slot e now holds the record of slot r, slot p (if
        it is another one) that of slot t, and the last bucket is renamed to the lower one. */
    lemma Rehomed(d': seq<Link>, s': Shape, r: int, p: int, t: int)
      requires Housed() && |d'| == |s'.home| == n
      requires Used(d, {e}, r) && Used(d, {e}, t) && Used(d, {e}, p)
      requires forall i :: 0 <= i < n - 1 ==> d'[i].data == d[if i == e then r else if i == p then t else i].data
      requires forall i :: 0 <= i < n - 1 ==>
        var was := s.home[if i == e then r else if i == p then t else i];
        s'.home[i] == if was == n - 1 then lower else was
      ensures HomesMatch(d', s', {n - 1}, now)
    {
      forall i | Used(d', {n - 1}, i) ensures s'.home[i] == now(d'[i].data) {
        var j := if i == e then r else if i == p then t else i;
        assert s.home[j] == was(d[j].data);
      }
    }
  }

  /** The last slot heads the last bucket and the lower bucket is empty: its home slot is the hole. */
  lemma MergeIntoHole(h: Holed) returns (s': Shape)
    requires h.Valid() && h.now(h.d[h.Last()].data) == h.e
    ensures h.Emptied(h.d[h.e := h.d[h.Last()]], s')
  {
    hide Linked, HomesMatch, Held;
    var last, e := h.Last(), h.e;
    var d := h.d;
    assert h.s.home[last] == last by {
      h.HomeOf(last);
      h.HomeIsHome(last);
    }
    s' := MoveHead(d, h.s, {e}, last, e);
    assert {e} - {e} + {last} == {last};
    MoveHeld(d, e, d[last], last);
    assert e == h.lower by { h.HomeOf(last); }
    h.Rehomed(d[e := d[last]], s', last, last, last);
  }

  lemma EvictedHomes(h: Holed, p: int)
    requires h.Valid() && 0 <= p < h.n && p != h.e && p == h.now(h.d[h.Last()].data)
    requires h.now(h.d[p].data) != p
    ensures p < h.Last() && h.s.home[h.Last()] == h.Last() && h.s.home[p] != p && h.s.home[p] != h.Last()
    ensures h.s.home[p] == h.now(h.d[p].data) && p == h.lower
  {
    h.HomeOf(p);
    h.HomeOf(h.Last());
    h.HomeIsHome(h.Last());
  }

  lemma EvictedHeld(d: seq<Link>, e: int, p: int, q: int, last: int)
    requires 0 <= e < |d| && 0 <= p < |d| && 0 <= q < |d| && 0 <= last < |d|
    requires q != e && q != p && last != e && last != p
    ensures var d1 := d[e := d[p]][p := d[last]];
      Held(d1[q := d1[q].(next := e)], last) == Held(d, e)
  {
    MoveHeld(d, e, d[p], p);
    MoveHeld(d[e := d[p]], p, d[last], last);
    RelinkHeld(d[e := d[p]][p := d[last]], last, q, e);
  }

  lemma EvictedLinks(d: seq<Link>, s: Shape, e: int, p: int, last: int) returns (s': Shape)
    requires Linked(d, s, {e}) && 0 <= e < |d| && Used(d, {e}, p) && Used(d, {e}, last)
    requires s.home[p] != p && s.home[last] == last && s.home[p] != last
    ensures Used(d, {e}, s.prev[p]) && s.prev[p] != p && s.prev[p] != last
    ensures var d1 := d[e := d[p]][p := d[last]];
      Linked(d1[s.prev[p] := d1[s.prev[p]].(next := e)], s', {last})
    ensures |s'.home| == |d|
    ensures forall i :: 0 <= i < |d| ==>
      s'.home[i] == if i == p then p else if i == e then s.home[p] else if s.home[i] == last then p else s.home[i]
  {
    var q := s.prev[p];
    assert d[q].next == p;
    var d2 := d[e := d[p]][q := d[q].(next := e)];
    var s2 := MoveInner(d, s, {e}, p, e);
    assert {e} - {e} + {p} == {p};
    s' := MoveHead(d2, s2, {p}, last, p);
    assert {p} - {p} + {last} == {last};
    var d1: seq<Link> := d[e := d[p]][p := d[last]];
    assert d1[q := d1[q].(next := e)] == d2[p := d2[last]];
  }

  /** The slot of the lower bucket holds a record of a third bucket, which moves to the hole. */
  lemma MergeEvicting(h: Holed, p: int) returns (s': Shape)
    requires h.Valid() && 0 <= p < h.n && p != h.e && p == h.now(h.d[h.Last()].data)
    requires h.now(h.d[p].data) != p
    ensures p < h.Last() && h.s.home[p] == h.now(h.d[p].data)
    ensures Used(h.d, {h.e}, h.s.prev[p]) && h.s.prev[p] != p && h.s.prev[p] != h.Last()
    ensures var d1 := h.d[h.e := h.d[p]][p := h.d[h.Last()]];
      h.Emptied(d1[h.s.prev[p] := d1[h.s.prev[p]].(next := h.e)], s')
  {
    hide HomesMatch, Held;
    var last, e := h.Last(), h.e;
    var d := h.d;
    EvictedHomes(h, p);
    s' := EvictedLinks(d, h.s, e, p, last);
    var q := h.s.prev[p];
    var d1: seq<Link> := d[e := d[p]][p := d[last]];
    EvictedHeld(d, e, p, q, last);
    h.Rehomed(d1[q := d1[q].(next := e)], s', p, p, last);
  }

  lemma MovedInnerHeld(d: seq<Link>, e: int, last: int, q: int)
    requires 0 <= e < |d| && 0 <= last < |d| && 0 <= q < |d| && q != e
    ensures var d1 := d[e := d[last]];
      Held(d1[q := d1[q].(next := e)], last) == Held(d, e)
  {
    MoveHeld(d, e, d[last], last);
    RelinkHeld(d[e := d[last]], last, q, e);
  }

  /** The last slot is an inner slot of an ordinary chain. */
  lemma MergeInner(h: Holed) returns (s': Shape)
    requires h.Valid() && h.was(h.d[h.Last()].data) != h.Last()
    ensures h.s.home[h.Last()] == h.was(h.d[h.Last()].data)
    ensures Used(h.d, {h.e}, h.s.prev[h.Last()]) && h.s.prev[h.Last()] != h.Last()
    ensures var d1 := h.d[h.e := h.d[h.Last()]];
      h.Emptied(d1[h.s.prev[h.Last()] := d1[h.s.prev[h.Last()]].(next := h.e)], s')
  {
    hide HomesMatch, Held;
    var last, e := h.Last(), h.e;
    var d := h.d;
    h.HomeOf(last);
    h.LastBucketEmpty();
    s' := MoveInner(d, h.s, {e}, last, e);
    assert {e} - {e} + {last} == {last};
    var q := h.s.prev[last];
    var d1: seq<Link> := d[e := d[last]];
    MovedInnerHeld(d, e, last, q);
    h.Rehomed(d1[q := d1[q].(next := e)], s', last, last, last);
  }

  lemma RelinkTwiceHeld(d: seq<Link>, e: int, last: int, q: int, n: int, p: int)
    requires 0 <= e < |d| && 0 <= last < |d| && 0 <= q < |d| && 0 <= p < |d|
    ensures var d1 := d[e := d[last]];
      var d2 := d1[q := d1[q].(next := n)];
      Held(d2[p := d2[p].(next := e)], last) == Held(d, e)
  {
    MoveHeld(d, e, d[last], last);
    var d1: seq<Link> := d[e := d[last]];
    RelinkHeld(d1, last, q, n);
    RelinkHeld(d1[q := d1[q].(next := n)], last, p, e);
  }

  lemma PromotedLinks(d: seq<Link>, s1: Shape, e: int, last: int, p: int) returns (s': Shape)
    requires 0 <= last < |d| && Linked(d, s1, {last}) && Used(d, {last}, p) && Used(d, {last}, e)
    requires s1.home[p] == e && s1.home[e] == e && p != e
    ensures Used(d, {last}, s1.prev[p])
    ensures var d2 := d[s1.prev[p] := d[s1.prev[p]].(next := d[p].next)];
      Linked(d2[p := d2[p].(next := e)], s', {last})
    ensures |s'.home| == |d|
    ensures forall i :: 0 <= i < |d| ==> s'.home[i] == if i == p || s1.home[i] == e then p else s1.home[i]
  {
    var q := s1.prev[p];
    var d2 := d[q := d[q].(next := d[p].next)];
    var s2 := UnlinkInner(d, s1, {last}, p);
    s' := Prepend(d2, s2, {last} + {p}, e, p, d2[p].data);
    assert {last} + {p} - {p} == {last};
    assert d2[p := d2[p].(next := e)] == d2[p := Link(e, d2[p].data)];
  }

  /** The head of the last bucket is copied into the hole. */
  ghost predicate HeadCopied(h: Holed, s1: Shape)
    requires h.n >= 1 && |h.d| == h.n && 0 <= h.e < h.n
  {
    && Linked(h.d[h.e := h.d[h.Last()]], s1, {h.Last()}) && |s1.home| == |h.s.home| == h.n
    && forall i :: 0 <= i < h.n ==> s1.home[i] == if i == h.e || h.s.home[i] == h.Last() then h.e else h.s.home[i]
  }

  lemma CopyHead(h: Holed) returns (s1: Shape)
    requires h.Valid() && h.was(h.d[h.Last()].data) == h.Last()
    ensures HeadCopied(h, s1)
  {
    h.HomeOf(h.Last());
    s1 := MoveHead(h.d, h.s, {h.e}, h.Last(), h.e);
    assert {h.e} - {h.e} + {h.Last()} == {h.Last()};
  }

  /** The last slot heads the last bucket, and an inner slot p of that bucket sits at the lower
      bucket's home: p becomes the head of the whole chain. */
  lemma MergePromoting(h: Holed, p: int, s1: Shape) returns (s': Shape)
    requires h.Housed() && 0 <= p < h.Last() && p != h.e && p == h.lower && HeadCopied(h, s1)
    requires h.was(h.d[h.Last()].data) == h.Last() && h.was(h.d[p].data) == h.Last()
    ensures s1.home[p] == h.e && Used(h.d, {h.Last()}, s1.prev[p])
    ensures var d1 := h.d[h.e := h.d[h.Last()]];
      var d2 := d1[s1.prev[p] := d1[s1.prev[p]].(next := d1[p].next)];
      h.Emptied(d2[p := d2[p].(next := h.e)], s')
  {
    hide HomesMatch, Held;
    var last, e := h.Last(), h.e;
    var d := h.d;
    h.HomeOf(last);
    h.HomeOf(p);
    var d1: seq<Link> := d[e := d[last]];
    s' := PromotedLinks(d1, s1, e, last, p);
    var q := s1.prev[p];
    RelinkTwiceHeld(d, e, last, q, d1[p].next, p);
    var d2 := d1[q := d1[q].(next := d1[p].next)];
    h.Rehomed(d2[p := d2[p].(next := e)], s', last, p, p);
  }

  /** The chain of the last bucket is spliced in behind the head of the lower bucket. */
  lemma MergeSplicing(h: Holed, p: int, s1: Shape, t: int) returns (s': Shape)
    requires h.Housed() && 0 <= p < h.Last() && p != h.e && p == h.lower && HeadCopied(h, s1)
    requires h.was(h.d[h.Last()].data) == h.Last() && h.was(h.d[p].data) == p
    requires var d1 := h.d[h.e := h.d[h.Last()]];
      Used(d1, {h.Last()}, t) && s1.home[t] == h.e && d1[t].next == NO_RECORD
    ensures t != p
    ensures var d1 := h.d[h.e := h.d[h.Last()]];
      var d2 := d1[t := d1[t].(next := d1[p].next)];
      h.Emptied(d2[p := d2[p].(next := h.e)], s')
  {
    hide Linked, HomesMatch, Held;
    var last, e := h.Last(), h.e;
    var d := h.d;
    h.HomeOf(last);
    h.HomeOf(p);
    var d1: seq<Link> := d[e := d[last]];
    s' := Splice(d1, s1, {last}, p, e, t);
    RelinkTwiceHeld(d, e, last, t, d1[p].next, p);
    var d2 := d1[t := d1[t].(next := d1[p].next)];
    h.Rehomed(d2[p := d2[p].(next := e)], s', last, p, p);
  }

  /** The record at the lower bucket's home slot `pos` belongs there; sameOld tells whether the
      last record was in the same bucket before, and oldHome which one that was. */
  method MergeAtHome(d0: seq<Link>, empty: int, pos: int, last: int, oldHome: int, oldHomeOfPos: int, ghost h: Holed)
    returns (d: seq<Link>, ghost s: Shape)
    requires h.Valid() && h.d == d0 && h.e == empty && h.Last() == last
    requires 0 <= pos < last && pos != empty && h.now(d0[last].data) == pos && h.now(d0[pos].data) == pos
    requires oldHome == h.was(d0[last].data) && oldHomeOfPos == h.was(d0[pos].data)
    ensures h.Emptied(d, s)
  {
    h.HomeOf(last);
    h.HomeIsHome(last);
    h.HomeOf(pos);
    h.HomeIsHome(pos);
    var ok;
    d := d0[empty := d0[last]];
    if oldHome == oldHomeOfPos {
      if oldHome != last {
        s := MergeInner(h);
        ghost var path := WalkTo(d0, h.s, {empty}, last);
        WalkFrame(d0, d, path, last);
        ok, d := MoveLink(d, last, pos, empty, path, last);
        return;
      }
      ghost var s1 := CopyHead(h);
      s := MergePromoting(h, pos, s1);
      ghost var path := WalkTo(d, s1, {last}, pos);
      ok, d := MoveLink(d, pos, empty, d[pos].next, path, pos);
    } else {
      ghost var s1 := CopyHead(h);
      ghost var path := WalkToEnd(d, s1, {last}, empty);
      s := MergeSplicing(h, pos, s1, path[|path| - 1]);
      ok, d := MoveLink(d, NO_RECORD, empty, d[pos].next, path, NO_RECORD);
    }
    d := d[pos := d[pos].(next := empty)];
  }

  /** The record at `pos`, which belongs to bucket pos3, makes way for the last record. */
  method MergeByEvicting(d0: seq<Link>, empty: int, pos: int, pos3: int, last: int, ghost h: Holed)
    returns (d: seq<Link>, ghost s: Shape)
    requires h.Valid() && h.d == d0 && h.e == empty && h.Last() == last
    requires 0 <= pos < last && pos != empty && h.now(d0[last].data) == pos && pos3 == h.now(d0[pos].data) != pos
    ensures h.Emptied(d, s)
  {
    s := MergeEvicting(h, pos);
    ghost var path := WalkTo(d0, h.s, {empty}, pos);
    d := d0[empty := d0[pos]][pos := d0[last]];
    WalkFrame(d0, d, path, pos);
    var ok;
    ok, d := MoveLink(d, pos, pos3, empty, path, pos);
  }

  /** The end of `hash_delete`: the last slot's record is moved so that the array can be cut,
      and the last bucket is merged into its lower one. */
  method FillFromLast(d0: seq<Link>, empty: int, keys: Keys, blength0: nat, blength: nat, records: nat, ghost h: Holed)
    returns (d: seq<Link>, ghost s: Shape)
    requires h.Valid() && h.d == d0 && h.e == empty && h.n == records + 1 && blength > 0 && blength0 > 0
    requires forall p {:trigger keys.RecHashnr(p)} :: h.was(p) == HashMask(keys.RecHashnr(p), blength0, records + 1)
    requires forall p {:trigger keys.RecHashnr(p)} :: h.now(p) == HashMask(keys.RecHashnr(p), blength, records)
    requires forall p :: 0 <= h.now(p) < records
    ensures |d| == records + 1 && Held(d, records) == Held(d0, empty)
    ensures h.Emptied(d, s)
  {
    hide Held, Linked;
    var last := records;
    var lastHashnr := keys.RecHashnr(d0[last].data);
    // pos is where the last record should be, pos3 is where the record at pos should be
    var pos := HashMask(lastHashnr, blength, records);
    assert pos == h.now(d0[last].data);
    if pos == empty {
      d := d0[empty := d0[last]];
      s := MergeIntoHole(h);
      return;
    }
    var posHashnr := keys.RecHashnr(d0[pos].data);
    var pos3 := HashMask(posHashnr, blength, records);
    assert pos3 == h.now(d0[pos].data);
    if pos != pos3 {
      d, s := MergeByEvicting(d0, empty, pos, pos3, last, h);
    } else {
      d, s := MergeAtHome(d0, empty, pos, last, HashMask(lastHashnr, blength0, records + 1),
                          HashMask(posHashnr, blength0, records + 1), h);
    }
  }
}

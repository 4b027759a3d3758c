/** What a fetched value looks like in memory: pieces of headers and data that refer to each other. */
module ComplexMemory {
  import opened Bytes
  import opened ComplexTypes

  /** A bind header; `buffer` is the number of the piece it points to. */
  datatype Header = Header(child: Child, isNull: bool, buffer: int, length: nat)

  /** One allocation. */
  datatype Piece = Headers(hs: seq<Header>) | Data(bytes: seq<Byte>)

  /** Where an allocation is: at an offset of the caller's buffer, or on the heap if it does not fit. */
  datatype Place = Place(start: nat, len: nat, inBuffer: bool)

  function Blank(c: Child): Header { Header(c, false, -1, 0) }

  /** The bytes that headers take. */
  function HeaderSizes(hs: seq<Header>): nat {
    if |hs| == 0 then 0 else HeaderSizes(hs[..|hs| - 1]) + HeaderLength(hs[|hs| - 1].child)
  }

  /** The bytes that a piece takes. */
  function Extent(p: Piece): nat {
    match p
    case Headers(hs) => HeaderSizes(hs)
    case Data(bytes) => |bytes|
  }

  /** From piece lo on, the space accounted for is what the pieces take. */
  ghost predicate Sized(m: seq<Piece>, places: seq<Place>, lo: nat) {
    |m| == |places| && forall i :: lo <= i < |m| ==> places[i].len == Extent(m[i])
  }

  lemma SizedMore(m: seq<Piece>, places: seq<Place>, m': seq<Piece>, places': seq<Place>, lo: nat)
    requires Sized(m, places, lo) && Sized(m', places', |m|) && places <= places'
    requires forall i :: lo <= i < |m| ==> m'[i] == m[i]
    ensures Sized(m', places', lo)
  {
    forall i | lo <= i < |m'| ensures places'[i].len == Extent(m'[i]) {
      if i < |m| {
        assert places'[i] == places[i];
      }
    }
  }

  lemma {:induction false} SizesAreLengths(hs: seq<Header>, cs: seq<Child>)
    requires |hs| == |cs| && forall i :: 0 <= i < |hs| ==> hs[i].child == cs[i]
    ensures HeaderSizes(hs) == HeaderLengths(cs, |cs|)
  {
    if |hs| > 0 {
      var n := |hs| - 1;
      SizesAreLengths(hs[..n], cs[..n]);
      PrefixLengths(cs, n);
    }
  }

  lemma {:induction false} PrefixLengths(cs: seq<Child>, n: nat)
    requires n <= |cs|
    ensures HeaderLengths(cs[..n], n) == HeaderLengths(cs, n)
    decreases n
  {
    if n > 0 {
      PrefixLengths(cs, n - 1);
      PrefixLengths(cs[..n], n - 1);
      assert cs[..n][..n - 1] == cs[..n - 1];
    }
  }

  /** The header h and the pieces after number lo hold the value v. */
  ghost predicate Holds(m: seq<Piece>, lo: int, h: Header, v: Value)
    decreases v
  {
    match v
    case Null => h.isNull
    case Leaf(b) =>
      && !h.isNull && 0 <= h.buffer < |m| && lo < h.buffer && m[h.buffer] == Data(if h.child.Text? then b + [0] else b)
      && (h.child.Text? || h.child.Raw? ==> h.length == |b|)
    case Tree(kids) =>
      && !h.isNull && 0 <= h.buffer < |m| && lo < h.buffer && m[h.buffer].Headers? && |m[h.buffer].hs| == |kids|
      && h.length == (if h.child.Object? then HeaderSizes(m[h.buffer].hs) else |kids|)
      && forall i {:trigger m[h.buffer].hs[i]} :: 0 <= i < |kids| ==> Holds(m, h.buffer, m[h.buffer].hs[i], kids[i])
  }

  /** Later allocations and changes to earlier pieces do not disturb it. */
  lemma {:induction false} HoldsStill(m: seq<Piece>, m': seq<Piece>, lo: int, h: Header, v: Value)
    requires Holds(m, lo, h, v) && |m| <= |m'| && forall j :: lo < j < |m| && 0 <= j ==> m'[j] == m[j]
    ensures Holds(m', lo, h, v)
    decreases v
  {
    if v.Tree? {
      forall i | 0 <= i < |v.kids| ensures Holds(m', h.buffer, m'[h.buffer].hs[i], v.kids[i]) {
        HoldsStill(m, m', h.buffer, m[h.buffer].hs[i], v.kids[i]);
      }
    }
  }

  /** Memory holds no other value: what was fetched can be read back. */
  lemma {:induction false} HoldsOne(m: seq<Piece>, lo: int, h: Header, v: Value, v': Value)
    requires Holds(m, lo, h, v) && Holds(m, lo, h, v')
    ensures v == v'
    decreases v
  {
    match v {
      case Null =>
      case Leaf(b) =>
        if h.child.Text? { assert (b + [0])[..|b|] == (v'.bytes + [0])[..|v'.bytes|]; }
      case Tree(kids) =>
        forall i | 0 <= i < |kids| ensures kids[i] == v'.kids[i] {
          HoldsOne(m, h.buffer, m[h.buffer].hs[i], kids[i], v'.kids[i]);
        }
    }
  }

  /** From m0 to m only header k of piece p changed and pieces were added. */
  ghost predicate Grew(m0: seq<Piece>, m: seq<Piece>, p: nat, k: nat) {
    && p < |m0| <= |m| && m0[p].Headers? && k < |m0[p].hs| && m[p].Headers? && |m[p].hs| == |m0[p].hs|
    && m[p].hs == m0[p].hs[k := m[p].hs[k]]
    && forall j {:trigger m[j]} :: 0 <= j < |m0| && j != p ==> m[j] == m0[j]
  }

  /** As `Grew`, and the header holds the value. */
  ghost predicate Stored(m0: seq<Piece>, m: seq<Piece>, p: nat, k: nat, c: Child, v: Value) {
    Grew(m0, m, p, k) && Holds(m, p, m[p].hs[k], v) && m[p].hs[k].child == c
  }

  /** The first i headers of piece q hold the first i children; nothing but piece q changed since m0. */
  ghost predicate KidsStored(m0: seq<Piece>, m: seq<Piece>, q: nat, cs: seq<Child>, v: Value, i: nat) {
    && q < |m0| <= |m| && m[q].Headers? && v.Tree? && |m[q].hs| == |v.kids| == |cs| && i <= |v.kids|
    && (forall j {:trigger m[j]} :: 0 <= j < |m0| && j != q ==> m[j] == m0[j])
    && (forall j {:trigger m[q].hs[j]} :: 0 <= j < i ==> Holds(m, q, m[q].hs[j], v.kids[j]) && m[q].hs[j].child == cs[j])
  }

  lemma KidStored(m0: seq<Piece>, m: seq<Piece>, m': seq<Piece>, q: nat, cs: seq<Child>, v: Value, i: nat)
    requires KidsStored(m0, m, q, cs, v, i) && i < |v.kids| && Stored(m, m', q, i, cs[i], v.kids[i])
    ensures KidsStored(m0, m', q, cs, v, i + 1)
  {
    hide Holds;
    forall j | 0 <= j < i + 1 ensures Holds(m', q, m'[q].hs[j], v.kids[j]) && m'[q].hs[j].child == cs[j] {
      if j < i {
        assert m'[q].hs[j] == m[q].hs[j];
        HoldsStill(m, m', q, m[q].hs[j], v.kids[j]);
      }
    }
  }

  /** Filling in a header that is not yet in use. */
  lemma KidFilled(m0: seq<Piece>, m: seq<Piece>, q: nat, cs: seq<Child>, v: Value, i: nat, h: Header)
    requires KidsStored(m0, m, q, cs, v, i) && i < |v.kids| && h.child == cs[i]
    ensures KidsStored(m0, m[q := Headers(m[q].hs[i := h])], q, cs, v, i)
    ensures h.isNull && v.kids[i].Null? ==> KidsStored(m0, m[q := Headers(m[q].hs[i := h])], q, cs, v, i + 1)
  {
    hide Holds;
    var m' := m[q := Headers(m[q].hs[i := h])];
    forall j | 0 <= j < i ensures Holds(m', q, m'[q].hs[j], v.kids[j]) {
      HoldsStill(m, m', q, m[q].hs[j], v.kids[j]);
    }
    if h.isNull && v.kids[i].Null? { HoldsNull(m', q, h); }
  }

  lemma HoldsNull(m: seq<Piece>, lo: int, h: Header)
    requires h.isNull
    ensures Holds(m, lo, h, Null)
  {
  }

  /** Allocations lie one behind the other from the start of the buffer, and in it as far as it reaches. */
  ghost predicate Layout(places: seq<Place>, size: nat, offset: nat) {
    && (forall i :: 0 < i < |places| ==> places[i].start == places[i - 1].start + places[i - 1].len)
    && (|places| > 0 ==> places[0].start == 0)
    && offset == (if |places| == 0 then 0 else places[|places| - 1].start + places[|places| - 1].len)
    && (forall i :: 0 <= i < |places| ==> (places[i].inBuffer <==> places[i].start + places[i].len <= size))
  }

  lemma {:induction false} Ordered(places: seq<Place>, size: nat, offset: nat, i: nat, j: nat)
    requires Layout(places, size, offset) && i < j <= |places|
    ensures places[i].start + places[i].len <= (if j < |places| then places[j].start else offset)
    decreases j
  {
    if i + 1 < j { Ordered(places, size, offset, i, j - 1); }
  }

  /** If everything fits, all pieces are in the buffer and no two overlap. */
  lemma Disjoint(places: seq<Place>, size: nat, offset: nat)
    requires Layout(places, size, offset) && offset <= size
    ensures forall i :: 0 <= i < |places| ==> places[i].inBuffer && places[i].start + places[i].len <= size
    ensures forall i, j :: 0 <= i < j < |places| ==> places[i].start + places[i].len <= places[j].start
  {
    forall i | 0 <= i < |places| ensures places[i].start + places[i].len <= offset {
      Ordered(places, size, offset, i, |places|);
    }
    forall i, j | 0 <= i < j < |places| ensures places[i].start + places[i].len <= places[j].start {
      Ordered(places, size, offset, i, j);
    }
  }
}

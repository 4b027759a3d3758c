/** Fetching a nested value from a result row into the caller's buffer. */
module ComplexFetch {
  import opened Bits
  import opened Bytes
  import opened ComplexTypes
  import opened ComplexMemory

  /** The row has these bytes at pos. */
  ghost predicate At(row: seq<Byte>, pos: nat, s: seq<Byte>) {
    pos + |s| <= |row| && row[pos..pos + |s|] == s
  }

  lemma AtSplit(row: seq<Byte>, pos: nat, a: seq<Byte>, b: seq<Byte>)
    requires At(row, pos, a + b)
    ensures At(row, pos, a) && At(row, pos + |a|, b)
  {
    var ab := row[pos..pos + |a + b|];
    assert row[pos..pos + |a|] == ab[..|a|];
    assert row[pos + |a|..pos + |a| + |b|] == ab[|a|..];
  }

  /** A length at pos, read by `net_field_length`. */
  lemma LengthAt(ls: Lengths, row: seq<Byte>, pos: nat, n: nat)
    requires ls.Sound() && At(row, pos, ls.write(n))
    ensures ls.read(row[pos..]) == (n, |ls.write(n)|)
  {
    var s := ls.write(n);
    assert row[pos..] == s + row[pos + |s|..];
  }

  class Fetch {
    const types: map<Name, TypeDef>
    const lengths: Lengths
    const row: seq<Byte>
    const bufferLength: nat
    var pos: nat
    var offset: nat
    var length: nat
    var error: bool
    var memory: seq<Piece>
    ghost var places: seq<Place>

    /** The reported length is what was asked for so far; `error` tells that it exceeds the buffer. */
    ghost predicate Valid()
      reads this
    {
      && lengths.Sound() && |places| == |memory| && offset == length
      && Layout(places, bufferLength, offset) && (error <==> offset > bufferLength)
    }

    constructor (types: map<Name, TypeDef>, lengths: Lengths, row: seq<Byte>, bufferLength: nat)
      requires lengths.Sound()
      ensures Valid() && memory == [] && pos == 0 && length == 0 && !error
      ensures this.types == types && this.lengths == lengths && this.row == row && this.bufferLength == bufferLength
    {
      this.types, this.lengths, this.row, this.bufferLength := types, lengths, row, bufferLength;
      pos, offset, length, error, memory, places := 0, 0, 0, false, [], [];
    }

    /** `fetch_result_complex_alloc_space`: the space is accounted for whether or not it fits. */
    method AllocSpace(size: nat, piece: Piece) returns (q: nat)
      requires Valid()
      modifies this`offset, this`length, this`error, this`memory, this`places
      ensures Valid() && q == |old(memory)| && memory == old(memory) + [piece] && length == old(length) + size
      ensures old(places) <= places && places[q].len == size
    {
      length := length + size;
      if !error && offset + size > bufferLength {
        error := true;
      }
      q := |memory|;
      memory, places := memory + [piece], places + [Place(offset, size, !error)];
      offset := offset + size;
    }

    method SetHeader(p: nat, k: nat, h: Header)
      requires p < |memory| && memory[p].Headers? && k < |memory[p].hs|
      modifies this`memory
      ensures memory == old(memory)[p := Headers(old(memory)[p].hs[k := h])]
    {
      memory := memory[p := Headers(memory[p].hs[k := h])];
    }

    /** The header of a child, filled in but pointing nowhere yet. */
    ghost predicate Ready(p: nat, k: nat, c: Child)
      reads this`memory
    {
      p < |memory| && memory[p].Headers? && k < |memory[p].hs| && memory[p].hs[k] == Blank(c)
    }

    /** The leaves: `fetch_result_str_complex`, `fetch_result_bin_complex` and the fetches of fixed size. */
    method FetchLeaf(p: nat, k: nat, c: Child, ghost v: Value)
      requires Valid() && Ready(p, k, c) && v.Leaf? && WellTyped(types, c, v)
      requires At(row, pos, Encode(lengths, types, c, v))
      modifies this`pos, this`offset, this`length, this`error, this`memory, this`places
      ensures Valid() && pos == old(pos) + |Encode(lengths, types, c, v)| && length == old(length) + Size(types, c, v)
      ensures Stored(old(memory), memory, p, k, c, v) && old(places) <= places && Sized(memory, places, |old(memory)|)
    {
      hide Layout, Stored, Sized, Holds;
      var n;
      if c.Fixed? {
        n := c.size;
      } else {
        AtSplit(row, pos, lengths.write(|v.bytes|), v.bytes);
        LengthAt(lengths, row, pos, |v.bytes|);
        var read := lengths.read(row[pos..]);
        n := read.0;
        pos := pos + read.1;
      }
      var bytes := row[pos..pos + n];
      var q := AllocSpace(if c.Text? then n + 1 else n, Data(if c.Text? then bytes + [0] else bytes));
      SetHeader(p, k, Header(c, false, q, if c.Fixed? then 0 else n));
      assert bytes == v.bytes;
      LeafStored(old(memory), memory, places, p, k, c, v);
      pos := pos + n;
    }

    /** The null bits and children of an object or collection, whose headers are piece q. */
    method FetchKids(q: nat, cs: seq<Child>, ghost v: Value)
      requires Valid() && v.Tree? && |cs| == |v.kids| && q < |memory| && memory[q].Headers? && |memory[q].hs| == |cs|
      requires forall i :: 0 <= i < |cs| ==> v.kids[i].Null? || WellTyped(types, cs[i], v.kids[i])
      requires At(row, pos, Bitmap(Nulls(v)) + EncodeFrom(lengths, types, cs, v, 0))
      modifies this`pos, this`offset, this`length, this`error, this`memory, this`places
      ensures Valid() && pos == old(pos) + |Bitmap(Nulls(v))| + |EncodeFrom(lengths, types, cs, v, 0)|
      ensures length == old(length) + SizeFrom(types, cs, v, 0) && KidsStored(old(memory), memory, q, cs, v, |v.kids|)
      ensures old(places) <= places && Sized(memory, places, |old(memory)|)
      decreases v, 0
    {
      hide Layout, Bitmap, Nulls, Pow2, WellTyped, EncodeFrom, SizeFrom, KidsStored, At;
      KidsStart(memory, q, cs, v);
      KidsEnd(lengths, types, cs, v);
      ghost var m0, bitmap := memory, Bitmap(Nulls(v));
      AtSplit(row, pos, bitmap, EncodeFrom(lengths, types, cs, v, 0));
      var base, nullPtr, bit := pos, pos, 4;
      FirstBit();
      pos := pos + (|cs| + 9) / 8;
      var i := 0;
      while i < |cs|
        invariant 0 <= i <= |cs| && Valid() && KidsStored(m0, memory, q, cs, v, i)
        invariant old(places) <= places && Sized(memory, places, |m0|)
        invariant At(row, pos, EncodeFrom(lengths, types, cs, v, i))
        invariant pos + |EncodeFrom(lengths, types, cs, v, i)| == base + |bitmap| + |EncodeFrom(lengths, types, cs, v, 0)|
        invariant length + SizeFrom(types, cs, v, i) == old(length) + SizeFrom(types, cs, v, 0)
        invariant bit == Pow2((i + 2) % 8) && nullPtr == base + (i + 2) / 8
      {
        var isNull := row[nullPtr] as nat / bit % 2 == 1;
        NullBit(row, base, v, i);
        FetchKid(q, cs, v, i, isNull, m0);
        NextBit(i);
        bit := bit * 2;
        if bit == 256 {
          bit := 1;
          nullPtr := nullPtr + 1;
        }
        i := i + 1;
      }
    }

    /** One turn of the loop over the children. */
    method FetchKid(q: nat, cs: seq<Child>, ghost v: Value, i: nat, isNull: bool, ghost m0: seq<Piece>)
      requires Valid() && v.Tree? && i < |cs| == |v.kids|
      requires KidsStored(m0, memory, q, cs, v, i) && Sized(memory, places, |m0|) && isNull == v.kids[i].Null?
      requires v.kids[i].Null? || WellTyped(types, cs[i], v.kids[i])
      requires At(row, pos, EncodeFrom(lengths, types, cs, v, i))
      modifies this`pos, this`offset, this`length, this`error, this`memory, this`places
      ensures Valid() && KidsStored(m0, memory, q, cs, v, i + 1) && old(places) <= places && Sized(memory, places, |m0|)
      ensures pos + |EncodeFrom(lengths, types, cs, v, i + 1)| == old(pos) + |EncodeFrom(lengths, types, cs, v, i)|
      ensures At(row, pos, EncodeFrom(lengths, types, cs, v, i + 1))
      ensures length + SizeFrom(types, cs, v, i + 1) == old(length) + SizeFrom(types, cs, v, i)
      decreases v, 0, 0
    {
      hide Layout, Holds, WellTyped, Encode, Size;
      KidFilled(m0, memory, q, cs, v, i, Blank(cs[i]));
      SetHeader(q, i, Blank(cs[i]));
      if isNull {
        KidFilled(m0, memory, q, cs, v, i, memory[q].hs[i].(isNull := true));
        SetHeader(q, i, memory[q].hs[i].(isNull := true));
        NullSize(types, cs[i]);
        assert [] + EncodeFrom(lengths, types, cs, v, i + 1) == EncodeFrom(lengths, types, cs, v, i + 1);
      } else {
        AtSplit(row, pos, Encode(lengths, types, cs[i], v.kids[i]), EncodeFrom(lengths, types, cs, v, i + 1));
        ghost var m, was := memory, places;
        FetchChild(q, i, cs[i], v.kids[i]);
        KidStored(m0, m, memory, q, cs, v, i);
        SizedMore(m, was, memory, places, |m0|);
      }
    }

    /** `fetch_result_object_complex`. */
    method FetchObject(p: nat, k: nat, c: Child, ghost v: Value)
      requires Valid() && Ready(p, k, c) && c.Object? && v.Tree?
      requires WellTyped(types, c, v) && At(row, pos, Encode(lengths, types, c, v))
      modifies this`pos, this`offset, this`length, this`error, this`memory, this`places
      ensures Valid() && pos == old(pos) + |Encode(lengths, types, c, v)| && length == old(length) + Size(types, c, v)
      ensures Stored(old(memory), memory, p, k, c, v) && old(places) <= places && Sized(memory, places, |old(memory)|)
      decreases v, 1
    {
      hide Layout, Bitmap, Nulls, EncodeFrom, SizeFrom;
      var cs := types[c.name].attrs;
      var size := SumHeaders(cs);
      var q := AllocSpace(size, Headers(seq(|cs|, _ => Blank(Fixed(0)))));
      SetHeader(p, k, Header(c, false, q, 0));
      ghost var m := memory;
      assert [] + Bitmap(Nulls(v)) == Bitmap(Nulls(v));
      FetchKids(q, cs, v);
      TreeStored(old(memory), m, memory, p, k, q, c, cs, v, size);
      HeadersSized(m, memory, places, q, cs, v);
      SetHeader(p, k, memory[p].hs[k].(length := size));
    }

    /** `fetch_result_array_complex`. */
    method FetchArray(p: nat, k: nat, c: Child, ghost v: Value)
      requires Valid() && Ready(p, k, c) && c.Collection? && v.Tree?
      requires WellTyped(types, c, v) && At(row, pos, Encode(lengths, types, c, v))
      modifies this`pos, this`offset, this`length, this`error, this`memory, this`places
      ensures Valid() && pos == old(pos) + |Encode(lengths, types, c, v)| && length == old(length) + Size(types, c, v)
      ensures Stored(old(memory), memory, p, k, c, v) && old(places) <= places && Sized(memory, places, |old(memory)|)
      decreases v, 1
    {
      hide Layout, Bitmap, Nulls, EncodeFrom, SizeFrom;
      ghost var n := |v.kids|;
      ghost var kinds := Kinds(types, c, n);
      ghost var body := Bitmap(Nulls(v)) + EncodeFrom(lengths, types, kinds, v, 0);
      assert Encode(lengths, types, c, v) == lengths.write(n) + body;
      AtSplit(row, pos, lengths.write(n), body);
      LengthAt(lengths, row, pos, n);
      var read := lengths.read(row[pos..]);
      var num := read.0;
      pos := pos + read.1;
      var elem := types[c.name].elem;
      var cs := seq(num, _ => elem);
      assert cs == kinds;
      SameHeaders(elem, cs, num);
      var q := AllocSpace(num * HeaderLength(elem), Headers(seq(num, _ => Blank(Fixed(0)))));
      SetHeader(p, k, Header(c, false, q, 0));
      ghost var m := memory;
      FetchKids(q, cs, v);
      TreeStored(old(memory), m, memory, p, k, q, c, cs, v, num);
      HeadersSized(m, memory, places, q, cs, v);
      SetHeader(p, k, memory[p].hs[k].(length := num));
    }

    /** `fetch_result_complex`: exactly the encoding is consumed, the value is rebuilt, and its size reported. */
    method FetchChild(p: nat, k: nat, c: Child, ghost v: Value)
      requires Valid() && Ready(p, k, c) && WellTyped(types, c, v) && At(row, pos, Encode(lengths, types, c, v))
      modifies this`pos, this`offset, this`length, this`error, this`memory, this`places
      ensures Valid() && pos == old(pos) + |Encode(lengths, types, c, v)| && length == old(length) + Size(types, c, v)
      ensures Stored(old(memory), memory, p, k, c, v) && old(places) <= places && Sized(memory, places, |old(memory)|)
      decreases v, 2
    {
      hide Layout, Encode, Size, Stored, At, Ready;
      if c.Object? {
        FetchObject(p, k, c, v);
      } else if c.Collection? {
        FetchArray(p, k, c, v);
      } else {
        FetchLeaf(p, k, c, v);
      }
    }

    /** `ps_fetch_result_type` with a named type: the reported length and the bytes consumed depend on the row and the
        types alone; there is no error exactly if the buffer has that length, and then all pieces are in the buffer,
        each in a place of its own size, and hold the value. */
    method FetchType(name: Name, c: Child, ghost v: Value)
      requires Valid() && memory == [] && pos == 0 && length == 0
      requires name in types && c == (if types[name].ObjectDef? then Object(name) else Collection(name))
      requires WellTyped(types, c, v) && At(row, 0, Encode(lengths, types, c, v))
      modifies this
      ensures Valid() && pos == |Encode(lengths, types, c, v)| && length == 48 + Size(types, c, v)
      ensures var parts := Parts(types, c, v);
        length == 48 + 24 * parts.fixed + 32 * parts.strings + 48 * parts.nested + parts.data
      ensures error <==> bufferLength < length
      ensures |memory| == |places| > 0 && memory[0].Headers? && |memory[0].hs| == 1
      ensures forall i :: 0 <= i < |places| ==> places[i].len == Extent(memory[i])
      ensures !error ==> Holds(memory, 0, memory[0].hs[0], v)
      ensures !error ==> forall i :: 0 <= i < |places| ==> places[i].inBuffer && places[i].start + places[i].len <= bufferLength
      ensures !error ==> forall i, j :: 0 <= i < j < |places| ==> places[i].start + places[i].len <= places[j].start
    {
      hide Layout, Encode, Size, Holds, At, WellTyped, Parts;
      SizeCounted(types, c, v);
      var q := AllocSpace(OBJECT_SIZE, Headers([Blank(c)]));
      FetchChild(q, 0, c, v);
      OneHeader(memory[0].hs);
      assert places[0].len == OBJECT_SIZE;
      if !error {
        Disjoint(places, bufferLength, offset);
      }
    }
  }

  /** After a fetch into a buffer that is too short, a fetch into one of the reported length succeeds. */
  method FetchAgain(first: Fetch, name: Name, c: Child, ghost v: Value) returns (f: Fetch)
    requires first.Valid() && first.memory == [] && first.pos == 0 && first.length == 0
    requires name in first.types && c == (if first.types[name].ObjectDef? then Object(name) else Collection(name))
    requires WellTyped(first.types, c, v) && At(first.row, 0, Encode(first.lengths, first.types, c, v))
    modifies first
    ensures !f.error && f.length == first.length && f.pos == first.pos
    ensures |f.memory| > 0 && f.memory[0].Headers? && |f.memory[0].hs| == 1 && Holds(f.memory, 0, f.memory[0].hs[0], v)
  {
    hide Encode, Size, Holds, At, WellTyped;
    f := first;
    first.FetchType(name, c, v);
    if first.error {
      f := new Fetch(first.types, first.lengths, first.row, first.length);
      f.FetchType(name, c, v);
    }
  }

  method SumHeaders(cs: seq<Child>) returns (size: nat)
    ensures size == HeaderLengths(cs, |cs|)
  {
    size := 0;
    var i := 0;
    while i < |cs|
      invariant 0 <= i <= |cs| && size == HeaderLengths(cs, i)
    {
      size := size + HeaderLength(cs[i]);
      i := i + 1;
    }
  }

  lemma {:induction false} SameHeaders(c: Child, cs: seq<Child>, n: nat)
    requires n <= |cs| && forall i :: 0 <= i < |cs| ==> cs[i] == c
    ensures HeaderLengths(cs, n) == n * HeaderLength(c)
  {
    if n > 0 { SameHeaders(c, cs, n - 1); }
  }

  lemma KidsStart(m: seq<Piece>, q: nat, cs: seq<Child>, v: Value)
    requires q < |m| && m[q].Headers? && v.Tree? && |m[q].hs| == |v.kids| == |cs|
    ensures KidsStored(m, m, q, cs, v, 0)
  {
  }

  lemma KidsEnd(ls: Lengths, types: map<Name, TypeDef>, cs: seq<Child>, v: Value)
    requires v.Tree? && |cs| == |v.kids|
    ensures EncodeFrom(ls, types, cs, v, |cs|) == [] && SizeFrom(types, cs, v, |cs|) == 0
  {
  }

  lemma NullSize(types: map<Name, TypeDef>, c: Child)
    ensures Size(types, c, Null) == 0
  {
  }

  lemma FirstBit()
    ensures 4 == Pow2((0 + 2) % 8)
  {
    SmallPowers();
  }

  lemma NextBit(i: nat)
    ensures var bit := Pow2((i + 2) % 8) * 2;
      if bit == 256 then Pow2((i + 3) % 8) == 1 && (i + 3) / 8 == (i + 2) / 8 + 1
      else Pow2((i + 3) % 8) == bit && (i + 3) / 8 == (i + 2) / 8
  {
    hide Pow2;
    SmallPowers();
  }

  /** The bit the loop looks at is the one of child i. */
  lemma NullBit(row: seq<Byte>, base: nat, v: Value, i: nat)
    requires v.Tree? && i < |v.kids| && At(row, base, Bitmap(Nulls(v)))
    ensures base + (i + 2) / 8 < |row|
    ensures (row[base + (i + 2) / 8] as nat / Pow2((i + 2) % 8) % 2 == 1) == v.kids[i].Null?
  {
    hide Pow2, Bitmap;
    var bitmap := Bitmap(Nulls(v));
    BitmapReads(Nulls(v), i);
    assert row[base + (i + 2) / 8] == row[base..base + |bitmap|][(i + 2) / 8];
  }

  lemma LeafStored(m0: seq<Piece>, m: seq<Piece>, places: seq<Place>, p: nat, k: nat, c: Child, v: Value)
    requires p < |m0| && m0[p].Headers? && k < |m0[p].hs| && v.Leaf?
    requires var piece := Data(if c.Text? then v.bytes + [0] else v.bytes);
      m == (m0 + [piece])[p := Headers(m0[p].hs[k := Header(c, false, |m0|, if c.Fixed? then 0 else |v.bytes|)])]
    requires |places| == |m| && places[|m0|].len == if c.Text? then |v.bytes| + 1 else |v.bytes|
    ensures Stored(m0, m, p, k, c, v) && Sized(m, places, |m0|)
  {
  }

  lemma OneHeader(hs: seq<Header>)
    requires |hs| == 1
    ensures HeaderSizes(hs) == HeaderLength(hs[0].child)
  {
    assert hs[..0] == [];
  }

  /** The headers of piece q take the space that was asked for. */
  lemma HeadersSized(m1: seq<Piece>, m: seq<Piece>, places: seq<Place>, q: nat, cs: seq<Child>, v: Value)
    requires KidsStored(m1, m, q, cs, v, |cs|) && v.Tree? && |cs| == |v.kids| && |m1| == q + 1
    requires Sized(m, places, q + 1) && places[q].len == HeaderLengths(cs, |cs|)
    ensures Sized(m, places, q)
  {
    hide Holds;
    SizesAreLengths(m[q].hs, cs);
  }

  /** The children being stored in piece q, the header at (p, k) holds the tree. */
  lemma TreeStored(m0: seq<Piece>, m1: seq<Piece>, m: seq<Piece>, p: nat, k: nat, q: nat, c: Child, cs: seq<Child>,
                   v: Value, length: nat)
    requires v.Tree? && p < |m0| == q && m0[p].Headers? && k < |m0[p].hs| && |m1| == q + 1 && m1[q].Headers?
    requires m1[p] == Headers(m0[p].hs[k := Header(c, false, q, 0)]) && forall j :: 0 <= j < q && j != p ==> m1[j] == m0[j]
    requires KidsStored(m1, m, q, cs, v, |v.kids|)
    requires length == if c.Object? then HeaderLengths(cs, |cs|) else |v.kids|
    ensures m[p] == m1[p] && Stored(m0, m[p := Headers(m[p].hs[k := m[p].hs[k].(length := length)])], p, k, c, v)
  {
    assert m[p] == m1[p];
    var m' := m[p := Headers(m[p].hs[k := m[p].hs[k].(length := length)])];
    forall i | 0 <= i < |v.kids| ensures Holds(m', q, m'[q].hs[i], v.kids[i]) {
      HoldsStill(m, m', q, m[q].hs[i], v.kids[i]);
    }
    SizesAreLengths(m[q].hs, cs);
  }
}

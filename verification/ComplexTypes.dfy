/** Values of nested types: objects and collections of scalars, strings and further objects and collections. */
module ComplexTypes {
  import opened Bits
  import opened Bytes

  type Name = string

  /** The type of an attribute or element. */
  datatype Child = Fixed(size: nat) | Text | Raw | Object(name: Name) | Collection(name: Name)

  datatype TypeDef = ObjectDef(attrs: seq<Child>) | CollectionDef(elem: Child)

  /** A value; a tree has the attributes of an object or the elements of a collection. */
  datatype Value = Null | Leaf(bytes: seq<Byte>) | Tree(kids: seq<Value>)

  /** `net_field_length` and the encoding it reads, as an inverse pair: value and number of bytes used. */
  datatype Lengths = Lengths(write: nat -> seq<Byte>, read: seq<Byte> -> (nat, nat)) {
    ghost predicate Sound() {
      forall n: nat, rest: seq<Byte> {:trigger write(n) + rest} :: read(write(n) + rest) == (n, |write(n)|)
    }
  }

  const BASIC_SIZE: nat := 24
  const STRING_SIZE: nat := 32
  const OBJECT_SIZE: nat := 48

  /** `get_complex_header_length`. */
  function HeaderLength(c: Child): nat {
    match c
    case Fixed(_) => BASIC_SIZE
    case Text => STRING_SIZE
    case Raw => STRING_SIZE
    case Object(_) => OBJECT_SIZE
    case Collection(_) => OBJECT_SIZE
  }

  function HeaderLengths(cs: seq<Child>, n: nat): nat
    requires n <= |cs|
  {
    if n == 0 then 0 else HeaderLengths(cs, n - 1) + HeaderLength(cs[n - 1])
  }

  // ---- Null bitmaps: bit i + 2 tells whether child i is null ----

  function Bit(nulls: seq<bool>, t: nat): (b: nat)
    ensures b <= 1
  {
    if 2 <= t < |nulls| + 2 && nulls[t - 2] then 1 else 0
  }

  function BitmapByte(nulls: seq<bool>, t: nat): Byte {
    Bit(nulls, t) + 2 * Bit(nulls, t + 1) + 4 * Bit(nulls, t + 2) + 8 * Bit(nulls, t + 3)
    + 16 * Bit(nulls, t + 4) + 32 * Bit(nulls, t + 5) + 64 * Bit(nulls, t + 6) + 128 * Bit(nulls, t + 7)
  }

  function Bitmap(nulls: seq<bool>): (s: seq<Byte>)
    ensures |s| == (|nulls| + 9) / 8
  {
    seq((|nulls| + 9) / 8, k requires 0 <= k => BitmapByte(nulls, 8 * k))
  }

  lemma BitOf(x: nat, b0: nat, b1: nat, b2: nat, b3: nat, b4: nat, b5: nat, b6: nat, b7: nat)
    requires b0 <= 1 && b1 <= 1 && b2 <= 1 && b3 <= 1 && b4 <= 1 && b5 <= 1 && b6 <= 1 && b7 <= 1
    requires x == b0 + 2 * b1 + 4 * b2 + 8 * b3 + 16 * b4 + 32 * b5 + 64 * b6 + 128 * b7
    ensures x % 2 == b0 && x / 2 % 2 == b1 && x / 4 % 2 == b2 && x / 8 % 2 == b3
    ensures x / 16 % 2 == b4 && x / 32 % 2 == b5 && x / 64 % 2 == b6 && x / 128 % 2 == b7
  {
    var high := b4 + 2 * b5 + 4 * b6 + 8 * b7;
    assert x == b0 + 2 * b1 + 4 * b2 + 8 * b3 + 16 * high;
    assert x / 16 == high;
    assert x / 32 == high / 2 && x / 64 == high / 4 && x / 128 == high / 8;
  }

  lemma SmallPowers()
    ensures Pow2(0) == 1 && Pow2(1) == 2 && Pow2(2) == 4 && Pow2(3) == 8
    ensures Pow2(4) == 16 && Pow2(5) == 32 && Pow2(6) == 64 && Pow2(7) == 128
  {
  }

  lemma ByteBit(nulls: seq<bool>, t: nat, j: nat)
    requires j <= 7
    ensures BitmapByte(nulls, t) as nat / Pow2(j) % 2 == Bit(nulls, t + j)
  {
    hide Pow2, Bit;
    SmallPowers();
    BitOf(BitmapByte(nulls, t), Bit(nulls, t), Bit(nulls, t + 1), Bit(nulls, t + 2), Bit(nulls, t + 3),
          Bit(nulls, t + 4), Bit(nulls, t + 5), Bit(nulls, t + 6), Bit(nulls, t + 7));
  }

  /** The bitmap says of every child whether it is null. */
  lemma BitmapReads(nulls: seq<bool>, i: nat)
    requires i < |nulls|
    ensures (i + 2) / 8 < |Bitmap(nulls)|
    ensures Bitmap(nulls)[(i + 2) / 8] as nat / Pow2((i + 2) % 8) % 2 == if nulls[i] then 1 else 0
  {
    hide Pow2, Bit, BitmapByte;
    var k, j := (i + 2) / 8, (i + 2) % 8;
    ByteBit(nulls, 8 * k, j);
    assert Bitmap(nulls)[k] == BitmapByte(nulls, 8 * k);
    assert i + 2 == 8 * k + j;
    BitIs(nulls, i);
  }

  lemma BitIs(nulls: seq<bool>, i: nat)
    requires i < |nulls|
    ensures Bit(nulls, i + 2) == if nulls[i] then 1 else 0
  {
  }

  // ---- Typing, encoding and size ----

  /** The types of the parts of a tree. */
  function Kinds(types: map<Name, TypeDef>, c: Child, n: nat): (cs: seq<Child>)
  {
    match c
    case Object(name) => if name in types && types[name].ObjectDef? then types[name].attrs else []
    case Collection(name) => if name in types && types[name].CollectionDef? then seq(n, _ => types[name].elem) else []
    case _ => []
  }

  ghost predicate WellTyped(types: map<Name, TypeDef>, c: Child, v: Value)
    decreases v
  {
    match v
    case Null => false
    case Leaf(bytes) => (c.Fixed? && |bytes| == c.size) || c.Text? || c.Raw?
    case Tree(kids) =>
      var cs := Kinds(types, c, |kids|);
      && (if c.Object? then c.name in types && types[c.name].ObjectDef?
          else c.Collection? && c.name in types && types[c.name].CollectionDef?)
      && |cs| == |kids| && forall i :: 0 <= i < |kids| ==> kids[i].Null? || WellTyped(types, cs[i], kids[i])
  }

  function Nulls(v: Value): (ns: seq<bool>)
    requires v.Tree?
    ensures |ns| == |v.kids|
  {
    seq(|v.kids|, i requires 0 <= i < |v.kids| => v.kids[i].Null?)
  }

  /** The encoding the server sends. */
  function Encode(ls: Lengths, types: map<Name, TypeDef>, c: Child, v: Value): seq<Byte>
    decreases v, if v.Tree? then 1 + |v.kids| else 0
  {
    match v
    case Null => []
    case Leaf(bytes) => if c.Fixed? then bytes else ls.write(|bytes|) + bytes
    case Tree(kids) =>
      (if c.Collection? then ls.write(|kids|) else []) + Bitmap(Nulls(v)) + EncodeFrom(ls, types, Kinds(types, c, |kids|), v, 0)
  }

  /** The children from i on that are not null, in order. */
  function EncodeFrom(ls: Lengths, types: map<Name, TypeDef>, cs: seq<Child>, v: Value, i: nat): seq<Byte>
    requires v.Tree?
    decreases v, if i <= |v.kids| then |v.kids| - i else 0
  {
    if i >= |v.kids| || i >= |cs| then []
    else (if v.kids[i].Null? then [] else Encode(ls, types, cs[i], v.kids[i])) + EncodeFrom(ls, types, cs, v, i + 1)
  }

  /** The bytes a value takes in the buffer, without its own header. */
  function Size(types: map<Name, TypeDef>, c: Child, v: Value): nat
    decreases v, if v.Tree? then 1 + |v.kids| else 0
  {
    match v
    case Null => 0
    case Leaf(bytes) => if c.Text? then |bytes| + 1 else |bytes|
    case Tree(kids) =>
      var cs := Kinds(types, c, |kids|);
      HeaderLengths(cs, |cs|) + SizeFrom(types, cs, v, 0)
  }

  function SizeFrom(types: map<Name, TypeDef>, cs: seq<Child>, v: Value, i: nat): nat
    requires v.Tree?
    decreases v, if i <= |v.kids| then |v.kids| - i else 0
  {
    if i >= |v.kids| || i >= |cs| then 0
    else Size(types, cs[i], v.kids[i]) + SizeFrom(types, cs, v, i + 1)
  }

  // ---- What the size is made of ----

  /** How many children of each kind there are, null or not, and how many bytes of data. */
  datatype Tally = Tally(fixed: nat, strings: nat, nested: nat, data: nat) {
    function Plus(t: Tally): Tally {
      Tally(fixed + t.fixed, strings + t.strings, nested + t.nested, data + t.data)
    }

    function Bytes(): nat {
      24 * fixed + 32 * strings + 48 * nested + data
    }
  }

  /** The first n children, without what is in them. */
  function Heads(cs: seq<Child>, n: nat): Tally
    requires n <= |cs|
  {
    if n == 0 then Tally(0, 0, 0, 0)
    else
      Heads(cs, n - 1).Plus(
        if cs[n - 1].Fixed? then Tally(1, 0, 0, 0)
        else if cs[n - 1].Text? || cs[n - 1].Raw? then Tally(0, 1, 0, 0)
        else Tally(0, 0, 1, 0))
  }

  /** All that is below a value, at every depth; the data of a string ends with a zero byte. */
  function Parts(types: map<Name, TypeDef>, c: Child, v: Value): Tally
    decreases v, if v.Tree? then 1 + |v.kids| else 0
  {
    match v
    case Null => Tally(0, 0, 0, 0)
    case Leaf(bytes) => Tally(0, 0, 0, if c.Text? then |bytes| + 1 else |bytes|)
    case Tree(kids) =>
      var cs := Kinds(types, c, |kids|);
      Heads(cs, |cs|).Plus(PartsFrom(types, cs, v, 0))
  }

  function PartsFrom(types: map<Name, TypeDef>, cs: seq<Child>, v: Value, i: nat): Tally
    requires v.Tree?
    decreases v, if i <= |v.kids| then |v.kids| - i else 0
  {
    if i >= |v.kids| || i >= |cs| then Tally(0, 0, 0, 0)
    else Parts(types, cs[i], v.kids[i]).Plus(PartsFrom(types, cs, v, i + 1))
  }

  lemma SumOfBytes(a: Tally, b: Tally)
    ensures a.Plus(b).Bytes() == a.Bytes() + b.Bytes()
  {
  }

  lemma {:induction false} HeadsCounted(cs: seq<Child>, n: nat)
    requires n <= |cs|
    ensures HeaderLengths(cs, n) == Heads(cs, n).Bytes()
  {
    if n > 0 { HeadsCounted(cs, n - 1); }
  }

  lemma SizeIs(types: map<Name, TypeDef>, c: Child, v: Value)
    ensures if v.Tree? then
        var cs := Kinds(types, c, |v.kids|);
        && Size(types, c, v) == HeaderLengths(cs, |cs|) + SizeFrom(types, cs, v, 0)
        && Parts(types, c, v) == Heads(cs, |cs|).Plus(PartsFrom(types, cs, v, 0))
      else Size(types, c, v) == Parts(types, c, v).Bytes()
  {
    hide HeaderLengths, Heads, SizeFrom, PartsFrom, Tally.Plus, Kinds;
  }

  lemma SizeFromIs(types: map<Name, TypeDef>, cs: seq<Child>, v: Value, i: nat)
    requires v.Tree?
    ensures if i < |v.kids| && i < |cs| then
        && SizeFrom(types, cs, v, i) == Size(types, cs[i], v.kids[i]) + SizeFrom(types, cs, v, i + 1)
        && PartsFrom(types, cs, v, i) == Parts(types, cs[i], v.kids[i]).Plus(PartsFrom(types, cs, v, i + 1))
      else SizeFrom(types, cs, v, i) == PartsFrom(types, cs, v, i).Bytes()
  {
    hide Size, Parts, Tally.Plus;
  }

  /** A header for every child, of 24, 32 or 48 bytes, and the data. */
  lemma {:induction false} SizeCounted(types: map<Name, TypeDef>, c: Child, v: Value)
    ensures Size(types, c, v) == Parts(types, c, v).Bytes()
    decreases v, if v.Tree? then 1 + |v.kids| else 0
  {
    hide *;
    SizeIs(types, c, v);
    if v.Tree? {
      var cs := Kinds(types, c, |v.kids|);
      HeadsCounted(cs, |cs|);
      SizeFromCounted(types, cs, v, 0);
      SumOfBytes(Heads(cs, |cs|), PartsFrom(types, cs, v, 0));
    }
  }

  lemma {:induction false} SizeFromCounted(types: map<Name, TypeDef>, cs: seq<Child>, v: Value, i: nat)
    requires v.Tree?
    ensures SizeFrom(types, cs, v, i) == PartsFrom(types, cs, v, i).Bytes()
    decreases v, if i <= |v.kids| then |v.kids| - i else 0
  {
    hide *;
    SizeFromIs(types, cs, v, i);
    if i < |v.kids| && i < |cs| {
      SizeCounted(types, cs[i], v.kids[i]);
      SizeFromCounted(types, cs, v, i + 1);
      SumOfBytes(Parts(types, cs[i], v.kids[i]), PartsFrom(types, cs, v, i + 1));
    }
  }
}

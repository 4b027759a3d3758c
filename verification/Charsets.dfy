/** Character sets whose characters may have several bytes. */
module Charsets {
  import opened Bytes

  datatype Charset = SingleByte | Utf8mb3 | Utf8 | Gbk | Sjis | Cp932 {
    predicate Multi() { !SingleByte? }
  }

  /** A byte 10xxxxxx: exclusive or with 0x80 leaves less than 0x40. */
  predicate Continues(b: Byte) { 0x80 <= b < 0xC0 }

  predicate GbkHead(b: Byte) { 0x81 <= b <= 0xFE }
  predicate GbkTail(b: Byte) { 0x40 <= b <= 0x7E || 0x80 <= b <= 0xFE }
  predicate SjisHead(b: Byte) { 0x81 <= b <= 0x9F || 0xE0 <= b <= 0xFC }
  predicate SjisTail(b: Byte) { 0x40 <= b <= 0x7E || 0x80 <= b <= 0xFC }

  /** `check_mb_utf8_sequence`, and `check_mb_utf8mb3_sequence` when four bytes are not allowed. */
  function Utf8Sequence(s: seq<Byte>, four: bool): (n: nat)
    ensures n <= |s| && n <= 4
  {
    if |s| == 0 then 0
    else if s[0] < 0x80 then 1
    else if s[0] < 0xC2 then 0
    else if s[0] < 0xE0 then (if |s| >= 2 && Continues(s[1]) then 2 else 0)
    else if s[0] < 0xF0 then
      (if |s| >= 3 && Continues(s[1]) && Continues(s[2]) && (s[0] >= 0xE1 || s[1] >= 0xA0) then 3 else 0)
    else if four && s[0] < 0xF5 then
      (if |s| >= 4 && Continues(s[1]) && Continues(s[2]) && Continues(s[3])
          && (s[0] >= 0xF1 || s[1] >= 0x90) && (s[0] <= 0xF3 || s[1] <= 0x8F) then 4 else 0)
    else 0
  }

  /** `mb_valid`: the length of a character of several bytes at the front, or 0. */
  function MbValid(c: Charset, s: seq<Byte>): (n: nat)
    ensures n == 0 || 2 <= n <= 4
    ensures n <= |s|
  {
    match c
    case SingleByte => 0
    case Utf8mb3 => var n := Utf8Sequence(s, false); if n > 1 then n else 0
    case Utf8 => var n := Utf8Sequence(s, true); if n > 1 then n else 0
    case Gbk => if |s| > 1 && GbkHead(s[0]) && GbkTail(s[1]) then 2 else 0
    case Sjis => if |s| > 1 && SjisHead(s[0]) && SjisTail(s[1]) then 2 else 0
    case Cp932 => if |s| > 1 && SjisHead(s[0]) && SjisTail(s[1]) then 2 else 0
  }

  /** `mb_charlen` of a `char`; where that is signed a byte from 0x80 on arrives as a huge number,
      which only the UTF-8 functions do not cut back to a byte. */
  function MbCharlen(c: Charset, b: Byte, signedChar: bool): nat {
    match c
    case SingleByte => 1
    case Utf8mb3 =>
      if b < 0x80 then 1 else if signedChar || b < 0xC2 then 0 else if b < 0xE0 then 2 else if b < 0xF0 then 3 else 0
    case Utf8 =>
      if b < 0x80 then 1 else if signedChar || b < 0xC2 then 0 else if b < 0xE0 then 2 else if b < 0xF0 then 3
      else if b < 0xF8 then 4 else 0
    case Gbk => if GbkHead(b) then 2 else 1
    case Sjis => if SjisHead(b) then 2 else 1
    case Cp932 => if SjisHead(b) then 2 else 1
  }

  // ---- UTF-8 ----

  /** UTF-8 as section 3 of RFC 3629 defines it, for code points from U+0080 on. */
  function Utf8Bytes(point: nat): (s: seq<Byte>)
    requires 0x80 <= point < 0x11_0000
    ensures |s| == if point < 0x800 then 2 else if point < 0x1_0000 then 3 else 4
  {
    if point < 0x800 then [0xC0 + point / 0x40, 0x80 + point % 0x40]
    else if point < 0x1_0000 then [0xE0 + point / 0x1000, 0x80 + point / 0x40 % 0x40, 0x80 + point % 0x40]
    else [0xF0 + point / 0x4_0000, 0x80 + point / 0x1000 % 0x40, 0x80 + point / 0x40 % 0x40, 0x80 + point % 0x40]
  }

  predicate InUtf8(c: Charset, point: nat) {
    0x80 <= point < if c.Utf8? then 0x11_0000 else 0x1_0000
  }

  /** Every code point of the character set is accepted, whatever follows it; that includes the surrogates. */
  lemma Utf8Accepts(c: Charset, point: nat, rest: seq<Byte>)
    requires (c.Utf8? || c.Utf8mb3?) && InUtf8(c, point)
    ensures MbValid(c, Utf8Bytes(point) + rest) == |Utf8Bytes(point)|
  {
    var s := Utf8Bytes(point) + rest;
    assert s[..|Utf8Bytes(point)|] == Utf8Bytes(point);
    assert s[0] == Utf8Bytes(point)[0] && s[1] == Utf8Bytes(point)[1];
    if point >= 0x1_0000 {
      assert s[3] == Utf8Bytes(point)[3];
    }
  }

  /** Whatever is accepted is a code point of the character set in its only form. */
  lemma Utf8Only(c: Charset, s: seq<Byte>) returns (point: nat)
    requires (c.Utf8? || c.Utf8mb3?) && MbValid(c, s) > 0
    ensures InUtf8(c, point) && s[..MbValid(c, s)] == Utf8Bytes(point)
  {
    var n := MbValid(c, s);
    if n == 2 {
      point := TwoBytes(s[0], s[1]);
    } else if n == 3 {
      point := ThreeBytes(s[0], s[1], s[2]);
    } else {
      point := FourBytes(s[0], s[1], s[2], s[3]);
    }
  }

  lemma TwoBytes(a: Byte, b: Byte) returns (point: nat)
    requires 0xC2 <= a < 0xE0 && Continues(b)
    ensures 0x80 <= point < 0x800 && Utf8Bytes(point) == [a, b]
  {
    point := 0x40 * (a as nat - 0xC0) + (b as nat - 0x80);
  }

  lemma ThreeBytes(a: Byte, b: Byte, c: Byte) returns (point: nat)
    requires 0xE0 <= a < 0xF0 && Continues(b) && Continues(c) && (a >= 0xE1 || b >= 0xA0)
    ensures 0x800 <= point < 0x1_0000 && Utf8Bytes(point) == [a, b, c]
  {
    var high: nat := 0x40 * (a as nat - 0xE0) + (b as nat - 0x80);
    point := 0x40 * high + (c as nat - 0x80);
    Digit64(a as nat - 0xE0, b as nat - 0x80);
    Digit64(high, c as nat - 0x80);
    Shifts(point);
  }

  lemma FourBytes(a: Byte, b: Byte, c: Byte, d: Byte) returns (point: nat)
    requires 0xF0 <= a < 0xF5 && Continues(b) && Continues(c) && Continues(d)
    requires (a >= 0xF1 || b >= 0x90) && (a <= 0xF3 || b <= 0x8F)
    ensures 0x1_0000 <= point < 0x11_0000 && Utf8Bytes(point) == [a, b, c, d]
  {
    var top: nat := 0x40 * (a as nat - 0xF0) + (b as nat - 0x80);
    var high: nat := 0x40 * top + (c as nat - 0x80);
    point := 0x40 * high + (d as nat - 0x80);
    Digit64(a as nat - 0xF0, b as nat - 0x80);
    Digit64(top, c as nat - 0x80);
    Digit64(high, d as nat - 0x80);
    Shifts(point);
  }

  lemma Digit64(a: nat, b: nat)
    requires b < 0x40
    ensures (0x40 * a + b) / 0x40 == a && (0x40 * a + b) % 0x40 == b
  {
  }

  lemma Shifts(p: nat)
    ensures p / 0x1000 == p / 0x40 / 0x40 && p / 0x4_0000 == p / 0x40 / 0x40 / 0x40
  {
  }

  /** A character starts with a byte from 0x80 on, and what follows it does not matter. */
  lemma ValidPrefix(c: Charset, s: seq<Byte>, more: seq<Byte>)
    requires MbValid(c, s) > 0
    ensures s[0] >= 0x80 && MbValid(c, s[..MbValid(c, s)] + more) == MbValid(c, s)
  {
  }

  /** The bytes from 0x80 on at the front. */
  function High(s: seq<Byte>): (h: seq<Byte>)
    ensures |h| <= |s| && h == s[..|h|]
  {
    if |s| > 0 && s[0] >= 0x80 then [s[0]] + High(s[1..]) else []
  }

  lemma {:induction false} HighLonger(s: seq<Byte>, k: nat)
    ensures |High(s)| > k <==> k < |s| && forall j :: 0 <= j <= k ==> s[j] >= 0x80
    decreases k
  {
    if |s| > 0 && s[0] >= 0x80 && k > 0 {
      HighLonger(s[1..], k - 1);
      assert forall j :: 0 < j < |s| ==> s[j] == s[1..][j - 1];
    }
  }

  /** A UTF-8 character is decided by the high bytes alone. */
  lemma Utf8High(s: seq<Byte>, four: bool)
    requires |s| > 0 && s[0] >= 0x80
    ensures Utf8Sequence(s, four) == Utf8Sequence(High(s), four)
  {
    hide High;
    HighLonger(s, 0);
    HighLonger(s, 1);
    HighLonger(s, 2);
    HighLonger(s, 3);
  }
}

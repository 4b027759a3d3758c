/** Escaping string literals without breaking characters of several bytes. */
module Escapes {
  import opened Bytes
  import opened Charsets

  const NUL: Byte := 0
  const NEWLINE: Byte := 10
  const RETURN: Byte := 13
  const CTRL_Z: Byte := 26
  const DOUBLE_QUOTE: Byte := 34
  const QUOTE: Byte := 39
  const DIGIT_ZERO: Byte := 48
  const CAPITAL_Z: Byte := 90
  const BACKSLASH: Byte := 92
  const SMALL_N: Byte := 110
  const SMALL_R: Byte := 114

  /** The character after the backslash, or 0 for a byte that is not escaped. */
  function EscapeOf(c: Charset, b: Byte, signedChar: bool): Byte {
    if c.Multi() && MbCharlen(c, b, signedChar) > 1 then b
    else if b == NUL then DIGIT_ZERO
    else if b == NEWLINE then SMALL_N
    else if b == RETURN then SMALL_R
    else if b == BACKSLASH || b == QUOTE || b == DOUBLE_QUOTE then b
    else if b == CTRL_Z then CAPITAL_Z
    else 0
  }

  /** What a byte that does not start a character of several bytes is replaced by. */
  function Slashed(c: Charset, b: Byte, signedChar: bool): (s: seq<Byte>)
    ensures 1 <= |s| <= 2
  {
    var esc := EscapeOf(c, b, signedChar);
    if esc != 0 then [BACKSLASH, esc] else [b]
  }

  function Quoted(b: Byte): (s: seq<Byte>)
    ensures 1 <= |s| <= 2
  {
    if b == QUOTE then [QUOTE, QUOTE] else [b]
  }

  /** How the two functions treat a single byte. */
  datatype Style = Slashes(signedChar: bool) | Quotes

  function One(c: Charset, b: Byte, style: Style): (s: seq<Byte>)
    ensures 1 <= |s| <= 2
  {
    match style
    case Slashes(signedChar) => Slashed(c, b, signedChar)
    case Quotes => Quoted(b)
  }

  /** The escaped string: whole characters are copied, single bytes replaced. */
  function Escape(c: Charset, s: seq<Byte>, style: Style): (r: seq<Byte>)
    ensures |s| <= |r| <= 2 * |s|
    decreases |s|
  {
    if |s| == 0 then []
    else
      var n := MbValid(c, s);
      if n > 0 then s[..n] + Escape(c, s[n..], style)
      else One(c, s[0], style) + Escape(c, s[1..], style)
  }

  /** The byte that an escape sequence stands for. */
  function Unslash(b: Byte): Byte {
    if b == DIGIT_ZERO then NUL else if b == SMALL_N then NEWLINE else if b == SMALL_R then RETURN
    else if b == CAPITAL_Z then CTRL_Z else b
  }

  /** Reading a literal back in the same character set. */
  function Unescape(c: Charset, s: seq<Byte>, style: Style): seq<Byte>
    decreases |s|
  {
    if |s| == 0 then []
    else
      var n := MbValid(c, s);
      if n > 0 then s[..n] + Unescape(c, s[n..], style)
      else if style.Slashes? && s[0] == BACKSLASH && |s| > 1 then [Unslash(s[1])] + Unescape(c, s[2..], style)
      else if style.Quotes? && s[0] == QUOTE && |s| > 1 && s[1] == QUOTE then [QUOTE] + Unescape(c, s[2..], style)
      else [s[0]] + Unescape(c, s[1..], style)
  }

  /** A byte that ends a literal when it stands there by itself, or is not to be sent raw: the quotes, NUL, newline,
      return and Ctrl-Z, or only the single quote. */
  predicate MayNotStand(b: Byte, style: Style) {
    if style.Slashes? then b in {0, 10, 13, 26, 34, 39} else b == 39
  }

  /** Scanning a literal character by character: how many bytes come before the first one that may not stand there. */
  function Scan(c: Charset, s: seq<Byte>, style: Style): (n: nat)
    ensures n <= |s|
    decreases |s|
  {
    if |s| == 0 then 0
    else
      var n := MbValid(c, s);
      if n > 0 then n + Scan(c, s[n..], style)
      else if style.Slashes? && s[0] == 92 then (if |s| > 1 then 2 + Scan(c, s[2..], style) else 0)
      else if style.Quotes? && |s| > 1 && s[0] == s[1] == 39 then 2 + Scan(c, s[2..], style)
      else if MayNotStand(s[0], style) then 0
      else 1 + Scan(c, s[1..], style)
  }

  // ---- A byte copied alone is not taken for the start of a character ----

  predicate IsUtf8(c: Charset) { c.Utf8? || c.Utf8mb3? }

  /** In UTF-8 with signed characters, and when only quotes are escaped, high bytes stay as they are. */
  predicate KeepsHigh(c: Charset, style: Style) {
    IsUtf8(c) && (style.Quotes? || style.signedChar)
  }

  lemma {:induction false} SameHigh(c: Charset, s: seq<Byte>, style: Style)
    requires KeepsHigh(c, style)
    ensures High(Escape(c, s, style)) == High(s)
    decreases |s|
  {
    hide High, One, MbValid;
    if |s| > 0 {
      var n := MbValid(c, s);
      if n > 0 {
        SameHigh(c, s[n..], style);
        HighSplit(s[..n], s[n..], c, s);
        HighSplit(s[..n], Escape(c, s[n..], style), c, s);
        assert s[..n] + s[n..] == s;
      } else {
        SameHigh(c, s[1..], style);
        HighOne(c, s, Escape(c, s[1..], style), style);
      }
    }
  }

  lemma HighOne(c: Charset, s: seq<Byte>, rest: seq<Byte>, style: Style)
    requires KeepsHigh(c, style) && |s| > 0 && High(rest) == High(s[1..])
    ensures High(One(c, s[0], style) + rest) == High(s)
  {
    var r := One(c, s[0], style) + rest;
    assert r[0] >= 0x80 <==> s[0] >= 0x80;
    if s[0] >= 0x80 {
      assert r == [s[0]] + rest && r[1..] == rest;
    }
  }

  lemma HighFirst(x: Byte, rest: seq<Byte>)
    requires x >= 0x80
    ensures High([x] + rest) == [x] + High(rest)
  {
    assert ([x] + rest)[1..] == rest;
  }

  lemma {:induction false} HighAll(a: seq<Byte>, b: seq<Byte>)
    requires forall i :: 0 <= i < |a| ==> a[i] >= 0x80
    ensures High(a + b) == a + High(b)
    decreases |a|
  {
    if |a| == 0 {
      assert a + b == b && a + High(b) == High(b);
    } else {
      hide High;
      HighAll(a[1..], b);
      HighFirst(a[0], a[1..] + b);
      assert a + b == [a[0]] + (a[1..] + b);
      assert [a[0]] + (a[1..] + High(b)) == a + High(b);
    }
  }

  lemma HighSplit(a: seq<Byte>, b: seq<Byte>, c: Charset, s: seq<Byte>)
    requires IsUtf8(c) && MbValid(c, s) > 0 && a == s[..MbValid(c, s)]
    ensures High(a + b) == a + High(b)
  {
    assert forall i :: 0 <= i < |a| ==> a[i] >= 0x80;
    HighAll(a, b);
  }

  lemma {:induction false} HighBefore(a: seq<Byte>, b: seq<Byte>)
    requires |b| == 0 || b[0] < 0x80
    ensures High(a + b) == High(a)
    decreases |a|
  {
    if |a| == 0 {
      assert a + b == b;
    } else {
      HighBefore(a[1..], b);
      assert (a + b)[1..] == a[1..] + b;
    }
  }

  lemma QuotesKeepFirst(c: Charset, s: seq<Byte>)
    requires |s| > 0
    ensures Escape(c, s, Quotes)[0] == s[0]
  {
  }

  /** What may follow an escaped string: nothing, or a byte that is no part of a character of several bytes. */
  predicate Follows(after: seq<Byte>) {
    |after| == 0 || after[0] < 0x40
  }

  /** Bytes that are no character and are copied as they are do not make up a character with what follows. */
  lemma NotAStart(c: Charset, s: seq<Byte>, style: Style, after: seq<Byte>)
    requires |s| > 0 && MbValid(c, s) == 0 && One(c, s[0], style) == [s[0]] && Follows(after)
    ensures MbValid(c, [s[0]] + (Escape(c, s[1..], style) + after)) == 0
  {
    hide Escape;
    var r := [s[0]] + (Escape(c, s[1..], style) + after);
    if KeepsHigh(c, style) && s[0] >= 0x80 {
      SameHigh(c, s[1..], style);
      HighBefore(Escape(c, s[1..], style), after);
      assert r[1..] == Escape(c, s[1..], style) + after;
      assert High(r) == High(s);
      Utf8High(s, c.Utf8?);
      Utf8High(r, c.Utf8?);
    } else if style.Quotes? && |s| > 1 {
      QuotesKeepFirst(c, s[1..]);
      assert r[1] == s[1];
    } else if style.Quotes? {
      NothingLeft(c, s[1..], style);
    }
  }

  /** One replaced byte is read back. */
  lemma OneReads(c: Charset, s: seq<Byte>, style: Style)
    requires |s| > 0 && MbValid(c, s) == 0
    ensures var rest := Escape(c, s[1..], style);
      Unescape(c, One(c, s[0], style) + rest, style) == [s[0]] + Unescape(c, rest, style)
  {
    hide Escape;
    var rest := Escape(c, s[1..], style);
    var r := One(c, s[0], style) + rest;
    if |One(c, s[0], style)| == 1 {
      NotAStart(c, s, style, []);
      assert rest + [] == rest && r[1..] == rest;
      LoneQuote(c, s[0], style);
    } else {
      AsciiAlone(c, r);
      assert r[2..] == rest;
      UnslashInverts(c, s[0], style);
    }
  }

  lemma AsciiAlone(c: Charset, r: seq<Byte>)
    requires |r| > 0 && r[0] < 0x80
    ensures MbValid(c, r) == 0
  {
  }

  /** A byte that is copied is neither a backslash nor a quote. */
  lemma LoneQuote(c: Charset, b: Byte, style: Style)
    requires |One(c, b, style)| == 1
    ensures One(c, b, style) == [b] && (style.Slashes? ==> b != BACKSLASH) && (style.Quotes? ==> b != QUOTE)
  {
  }

  lemma UnslashInverts(c: Charset, b: Byte, style: Style)
    requires |One(c, b, style)| == 2
    ensures var s := One(c, b, style);
      s[0] < 0x80 && if style.Slashes? then s[0] == BACKSLASH && Unslash(s[1]) == b else s == [QUOTE, QUOTE] && b == QUOTE
  {
  }

  /** One copied character is read back. */
  lemma CharacterReads(c: Charset, s: seq<Byte>, rest: seq<Byte>, style: Style)
    requires |s| > 0 && MbValid(c, s) > 0
    ensures var n := MbValid(c, s);
      Unescape(c, s[..n] + rest, style) == s[..n] + Unescape(c, rest, style)
  {
    hide MbValid;
    var n := MbValid(c, s);
    ValidPrefix(c, s, rest);
    var r := s[..n] + rest;
    assert r[..n] == s[..n] && r[n..] == rest;
  }

  lemma EscapeIs(c: Charset, s: seq<Byte>, style: Style)
    requires |s| > 0
    ensures var n := MbValid(c, s);
      Escape(c, s, style) ==
        if n > 0 then s[..n] + Escape(c, s[n..], style) else One(c, s[0], style) + Escape(c, s[1..], style)
  {
    hide MbValid, One;
  }

  /** The round trip: whatever the bytes, an escaped string is read back unchanged. */
  lemma {:induction false} EscapeRoundTrip(c: Charset, s: seq<Byte>, style: Style)
    ensures Unescape(c, Escape(c, s, style), style) == s
    decreases |s|
  {
    hide MbValid, One, Escape, Unescape;
    if |s| == 0 {
      NothingLeft(c, s, style);
    } else {
      EscapeIs(c, s, style);
      var n := MbValid(c, s);
      if n > 0 {
        EscapeRoundTrip(c, s[n..], style);
        CharacterReads(c, s, Escape(c, s[n..], style), style);
        assert s[..n] + s[n..] == s;
      } else {
        EscapeRoundTrip(c, s[1..], style);
        OneReads(c, s, style);
        assert [s[0]] + s[1..] == s;
      }
    }
  }

  // ---- No literal ends early ----

  lemma StandsAlone(c: Charset, b: Byte, style: Style)
    requires One(c, b, style) == [b]
    ensures !MayNotStand(b, style) && !(style.Slashes? && b == 92)
  {
  }

  lemma OneScans(c: Charset, s: seq<Byte>, style: Style, after: seq<Byte>)
    requires |s| > 0 && MbValid(c, s) == 0 && Follows(after)
    ensures var one, rest := One(c, s[0], style), Escape(c, s[1..], style) + after;
      Scan(c, one + rest, style) == |one| + Scan(c, rest, style)
  {
    hide Escape;
    var one, rest := One(c, s[0], style), Escape(c, s[1..], style) + after;
    var r := one + rest;
    if |one| == 1 {
      LoneQuote(c, s[0], style);
      NotAStart(c, s, style, after);
      assert r[1..] == rest;
      StandsAlone(c, s[0], style);
    } else {
      AsciiAlone(c, r);
      assert r[2..] == rest;
      UnslashInverts(c, s[0], style);
    }
  }

  lemma CharacterScans(c: Charset, s: seq<Byte>, rest: seq<Byte>, style: Style)
    requires |s| > 0 && MbValid(c, s) > 0
    ensures var n := MbValid(c, s); Scan(c, s[..n] + rest, style) == n + Scan(c, rest, style)
  {
    hide MbValid;
    var n := MbValid(c, s);
    ValidPrefix(c, s, rest);
    assert (s[..n] + rest)[n..] == rest;
  }

  /** Whatever the bytes, an escaped string is scanned to its end, and what follows is scanned as if it began there. */
  lemma {:induction false} ScansThrough(c: Charset, s: seq<Byte>, style: Style, after: seq<Byte>)
    requires Follows(after)
    ensures Scan(c, Escape(c, s, style) + after, style) == |Escape(c, s, style)| + Scan(c, after, style)
    decreases |s|
  {
    hide MbValid, One, Escape, Scan;
    if |s| == 0 {
      NothingLeft(c, s, style);
      assert [] + after == after;
    } else {
      EscapeIs(c, s, style);
      var n := MbValid(c, s);
      if n > 0 {
        var rest := Escape(c, s[n..], style);
        ScansThrough(c, s[n..], style, after);
        CharacterScans(c, s, rest + after, style);
        Regroup(s[..n], rest, after);
      } else {
        var rest := Escape(c, s[1..], style);
        ScansThrough(c, s[1..], style, after);
        OneScans(c, s, style, after);
        Regroup(One(c, s[0], style), rest, after);
      }
    }
  }

  /** So a literal ends with the quote that was put after the escaped string, not before: it is the first quote that is
      not escaped. In the style with doubled quotes another quote must not follow. */
  lemma LiteralEnds(c: Charset, s: seq<Byte>, style: Style, after: seq<Byte>)
    requires style.Quotes? ==> |after| == 0 || after[0] != 39
    ensures Scan(c, Escape(c, s, style), style) == |Escape(c, s, style)|
    ensures Scan(c, Escape(c, s, style) + ([39] + after), style) == |Escape(c, s, style)|
  {
    hide MbValid, One, Escape, Scan;
    ScansThrough(c, s, style, []);
    assert Escape(c, s, style) + [] == Escape(c, s, style);
    ScansThrough(c, s, style, [39] + after);
    StopsAtOnce(c, [39] + after, style);
    StopsAtOnce(c, [], style);
  }

  lemma StopsAtOnce(c: Charset, s: seq<Byte>, style: Style)
    requires |s| > 0 ==> s[0] == 39
    requires style.Quotes? && |s| > 1 ==> s[1] != 39
    ensures Scan(c, s, style) == 0
  {
    hide MbValid;
    if |s| > 0 { AsciiAlone(c, s); }
  }

  /** The escape sequences: \0, \n, \r, \Z, \", \' and \\. */
  lemma Sequences(c: Charset, signedChar: bool)
    ensures var style := Slashes(signedChar);
      && Escape(c, [0], style) == [92, 48] && Escape(c, [10], style) == [92, 110] && Escape(c, [13], style) == [92, 114]
      && Escape(c, [26], style) == [92, 90] && Escape(c, [34], style) == [92, 34] && Escape(c, [39], style) == [92, 39]
      && Escape(c, [92], style) == [92, 92]
  {
    hide Escape, MbValid;
    forall b: Byte | b in {0, 10, 13, 26, 34, 39, 92} ensures Escape(c, [b], Slashes(signedChar)) == Slashed(c, b, signedChar) {
      AsciiAlone(c, [b]);
      EscapeIs(c, [b], Slashes(signedChar));
      NothingLeft(c, [b][1..], Slashes(signedChar));
    }
  }

  // ---- The loops ----

  /** `mysql_cset_escape_slashes` and `mysql_cset_escape_quotes`, on a buffer of twice the input. */
  method EscapeLoop(c: Charset, s: seq<Byte>, style: Style) returns (newstr: seq<Byte>, overflow: bool)
    ensures !overflow && newstr == Escape(c, s, style)
    ensures Unescape(c, newstr, style) == s && Scan(c, newstr + [39], style) == |newstr|
  {
    hide MbValid, One, Escape, Scan, Unescape;
    EscapeRoundTrip(c, s, style);
    LiteralEnds(c, s, style, []);
    assert [39] + [] == [39];
    newstr, overflow := [], false;
    var i := 0;
    assert s[0..] == s;
    while i < |s|
      invariant 0 <= i <= |s| && |newstr| <= 2 * i && newstr + Escape(c, s[i..], style) == Escape(c, s, style)
    {
      var len := if c.Multi() then MbValid(c, s[i..]) else 0;
      EscapeNext(c, s, i, style, newstr);
      if len > 0 {
        if |newstr| + len > 2 * |s| {
          return newstr, true;
        }
        newstr := newstr + s[i..i + len];
        i := i + len;
      } else {
        var one := One(c, s[i], style);
        if |newstr| + |one| > 2 * |s| {
          return newstr, true;
        }
        newstr := newstr + one;
        i := i + 1;
      }
    }
    NothingLeft(c, s[i..], style);
  }

  lemma SingleBytes(c: Charset, s: seq<Byte>)
    ensures !c.Multi() ==> MbValid(c, s) == 0
  {
  }

  lemma NothingLeft(c: Charset, s: seq<Byte>, style: Style)
    requires |s| == 0
    ensures Escape(c, s, style) == Unescape(c, s, style) == []
  {
  }

  lemma EscapeNext(c: Charset, s: seq<Byte>, i: nat, style: Style, done: seq<Byte>)
    requires i < |s|
    ensures var n := if c.Multi() then MbValid(c, s[i..]) else 0;
      && i + n <= |s|
      && done + Escape(c, s[i..], style) ==
         if n > 0 then done + s[i..i + n] + Escape(c, s[i + n..], style)
         else done + One(c, s[i], style) + Escape(c, s[i + 1..], style)
  {
    hide One, MbValid, Escape;
    SingleBytes(c, s[i..]);
    EscapeIs(c, s[i..], style);
    var n := MbValid(c, s[i..]);
    if n > 0 {
      SliceTwice(s, i, n);
      Regroup(done, s[i..i + n], Escape(c, s[i + n..], style));
    } else {
      SliceTwice(s, i, 1);
      Regroup(done, One(c, s[i], style), Escape(c, s[i + 1..], style));
    }
  }

  lemma Regroup(a: seq<Byte>, b: seq<Byte>, c: seq<Byte>)
    ensures a + (b + c) == a + b + c
  {
  }
}

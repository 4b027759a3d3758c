/** Printing and parsing 64-bit integers. */
module Integers {
  import opened Bits
  import opened Options

  const ULONGLONG_MAX: nat := 0xFFFF_FFFF_FFFF_FFFF
  const LONGLONG_MAX: nat := 0x7FFF_FFFF_FFFF_FFFF
  const LONGLONG_MIN: int := -0x8000_0000_0000_0000

  // ---- Digits ----

  lemma TwiceAtMost(q: int, radix: int)
    requires q >= 0 && radix >= 2
    ensures 2 * q <= radix * q
  {
    MulAtLeast(q, radix - 2);
    assert radix * q == (radix - 2) * q + 2 * q;
  }

  lemma QuotientLess(n: nat, radix: nat)
    requires n > 0 && radix >= 2
    ensures 0 <= n / radix < n && 0 <= n % radix < radix && n == n / radix * radix + n % radix && 2 * (n / radix) <= n
  {
    var q, r := n / radix, n % radix;
    assert n == radix * q + r;
    if q < 0 {
      MulAtLeast(radix, q);
      assert false;
    }
    TwiceAtMost(q, radix);
  }

  const DIG_VEC: string := "0123456789ABCDEFGHIJKLMNOPQRSTUVWXYZ"

  /** n in the given radix, without leading zeros. */
  function Digits(n: nat, radix: nat): (s: string)
    requires 2 <= radix <= 36
    ensures |s| >= 1
  {
    if n < radix then [DIG_VEC[n]]
    else
      QuotientLess(n, radix);
      Digits(n / radix, radix) + [DIG_VEC[n % radix]]
  }

  predicate IsDigit(c: char) { '0' <= c <= '9' }

  predicate AllDigits(s: string) {
    forall i :: 0 <= i < |s| ==> IsDigit(s[i])
  }

  /** The number a string of decimal digits stands for. */
  function Decimal(s: string): nat
    requires AllDigits(s)
  {
    if |s| == 0 then 0 else 10 * Decimal(s[..|s| - 1]) + (s[|s| - 1] - '0') as nat
  }

  lemma DecimalDigit(n: nat)
    requires n < 10
    ensures IsDigit(DIG_VEC[n]) && (DIG_VEC[n] - '0') as nat == n
  {
  }

  /** Printed and read in radix ten. */
  lemma {:induction false} DecimalDigits(n: nat)
    ensures AllDigits(Digits(n, 10)) && Decimal(Digits(n, 10)) == n
  {
    var s := Digits(n, 10);
    if n < 10 {
      DecimalDigit(n);
      assert s[..0] == [];
    } else {
      DecimalDigits(n / 10);
      DecimalDigit(n % 10);
      assert s[..|s| - 1] == Digits(n / 10, 10);
    }
  }

  /** The value of a digit in a radix up to 36. */
  function Worth(c: char): int {
    if '0' <= c <= '9' then c as int - 48 else if 'A' <= c <= 'Z' then c as int - 55 else -1
  }

  /** The number a string stands for in some radix. */
  function InRadix(s: string, radix: int): int {
    if |s| == 0 then 0 else radix * InRadix(s[..|s| - 1], radix) + Worth(s[|s| - 1])
  }

  lemma DigitWorth(n: nat)
    requires n < 36
    ensures Worth(DIG_VEC[n]) == n
  {
    if n >= 10 { assert DIG_VEC[n] == "ABCDEFGHIJKLMNOPQRSTUVWXYZ"[n - 10]; }
  }

  /** Printed in any radix: digits of that radix, none too many, that stand for the number. */
  lemma {:induction false} DigitsRead(n: nat, radix: nat)
    requires 2 <= radix <= 36
    ensures InRadix(Digits(n, radix), radix) == n && (n > 0 ==> Digits(n, radix)[0] != '0')
    ensures forall i :: 0 <= i < |Digits(n, radix)| ==> 0 <= Worth(Digits(n, radix)[i]) < radix
  {
    hide Worth, Digits, InRadix, DIG_VEC;
    if n < radix {
      OneDigit(n, radix);
      DigitWorth(n);
      DigitWorth(0);
    } else {
      QuotientLess(n, radix);
      DigitsRead(n / radix, radix);
      DigitWorth(n % radix);
      LastDigit(n, radix);
    }
  }

  lemma OneDigit(n: nat, radix: nat)
    requires 2 <= radix <= 36 && n < radix
    ensures Digits(n, radix) == [DIG_VEC[n]] && InRadix([DIG_VEC[n]], radix) == Worth(DIG_VEC[n])
    ensures DIG_VEC[0] == '0' && (n > 0 ==> DIG_VEC[n] != '0')
  {
    hide Worth;
    assert [DIG_VEC[n]][..0] == [] && InRadix([], radix) == 0;
    DigitWorth(n);
    assert Worth('0') == 0 by { DigitWorth(0); }
  }

  lemma LastDigit(n: nat, radix: nat)
    requires 2 <= radix <= 36 && n >= radix
    requires 0 <= n / radix < n && 0 <= n % radix < radix
    ensures var s, s' := Digits(n, radix), Digits(n / radix, radix);
      s == s' + [DIG_VEC[n % radix]] && InRadix(s, radix) == radix * InRadix(s', radix) + Worth(DIG_VEC[n % radix])
    ensures n / radix > 0
  {
    hide Worth;
    var s, s' := Digits(n, radix), Digits(n / radix, radix);
    assert s == s' + [DIG_VEC[n % radix]];
    assert s[..|s| - 1] == s';
    if n / radix == 0 { QuotientLess(n, radix); }
  }

  // ---- Printing ----

  /** The digits still to be written in front of what is in the buffer. */
  ghost predicate Prints(n0: nat, radix: nat, n: nat, written: string)
    requires 2 <= radix <= 36
  {
    Digits(n0, radix) == (if n == 0 then "" else Digits(n, radix)) + written
  }

  lemma PrintStep(n0: nat, radix: nat, n: nat, written: string)
    requires 2 <= radix <= 36 && n > 0 && Prints(n0, radix, n, written)
    ensures 0 <= n / radix && 0 <= n % radix < radix && Prints(n0, radix, n / radix, [DIG_VEC[n % radix]] + written)
  {
    QuotientLess(n, radix);
    var digit := [DIG_VEC[n % radix]];
    if n < radix {
      SmallQuotient(n, radix);
      assert Digits(n, radix) + written == "" + (digit + written);
    } else {
      BigQuotient(n, radix);
      assert Digits(n / radix, radix) + digit + written == Digits(n / radix, radix) + (digit + written);
    }
  }

  lemma SmallQuotient(n: nat, radix: nat)
    requires n < radix
    ensures n / radix == 0 && n % radix == n
  {
    DivModUnique(n, radix, 0, n);
  }

  lemma BigQuotient(n: nat, radix: nat)
    requires 2 <= radix <= n
    ensures n / radix > 0
  {
    QuotientLess(n, radix);
    assert n / radix * radix > 0;
  }

  /** One digit in front of those already in the buffer. */
  method PutDigit(buffer: array<char>, p0: nat, n: nat, radix: nat, ghost n0: nat) returns (p: nat, quo: nat)
    requires buffer.Length == 65 && 1 <= p0 <= 64 && 2 <= radix <= 36 && n > 0 && n < Pow2(p0)
    requires Prints(n0, radix, n, buffer[p0..64])
    modifies buffer
    ensures p == p0 - 1 && quo == n / radix && buffer[64] == old(buffer[64]) && quo < Pow2(p) && quo < n
    ensures Prints(n0, radix, quo, buffer[p..64])
  {
    hide Digits;
    QuotientLess(n, radix);
    PrintStep(n0, radix, n, buffer[p0..64]);
    quo := n / radix;
    var rem := n - quo * radix;
    p := p0 - 1;
    ghost var before := buffer[p0..64];
    buffer[p] := DIG_VEC[rem];
    assert buffer[p..64] == [DIG_VEC[rem]] + before;
    assert Pow2(p0) == 2 * Pow2(p);
  }

  lemma ZeroDigits(radix: nat)
    requires 2 <= radix <= 36
    ensures Digits(0, radix) == "0"
  {
  }

  /** `ma_ll2str`; a negative radix prints a sign, a positive one takes the value as unsigned. */
  method Ll2Str(val0: int, radix0: int) returns (r: Option<string>)
    requires LONGLONG_MIN <= val0 <= LONGLONG_MAX
    ensures r.None? <==> !(2 <= radix0 <= 36 || -36 <= radix0 <= -2)
    ensures 2 <= radix0 <= 36 ==> r == Some(Digits(if val0 < 0 then val0 + ULONGLONG_MAX + 1 else val0, radix0))
    ensures -36 <= radix0 <= -2 ==> r == Some((if val0 < 0 then "-" else "") + Digits(if val0 < 0 then -val0 else val0, -radix0))
  {
    var val := if val0 < 0 then val0 + ULONGLONG_MAX + 1 else val0;
    var dst, radix := "", radix0;
    if radix < 0 {
      if radix < -36 || radix > -2 { return None; }
      if val0 < 0 {
        dst := "-";
        val := -val0;
      }
      radix := -radix;
    } else {
      if radix > 36 || radix < 2 { return None; }
    }
    hide Digits;
    var digits := "0";
    ZeroDigits(radix);
    if val != 0 {
      digits := PrintDigits(val, radix);
    }
    assert "" + digits == digits;
    return Some(dst + digits);
  }

  lemma Fits64()
    ensures ULONGLONG_MAX < Pow2(64)
  {
    hide Pow2;
    Pow2Of8();
    Pow2Add(8, 8);
    Pow2Add(16, 16);
    Pow2Add(32, 32);
  }

  lemma RoomLeft(n: nat, p: nat)
    requires 0 < n < Pow2(p)
    ensures p >= 1
  {
  }

  lemma {:induction false} NoNul(n: nat, radix: nat)
    requires 2 <= radix <= 36
    ensures forall i :: 0 <= i < |Digits(n, radix)| ==> Digits(n, radix)[i] != '\0'
  {
    if n >= radix {
      QuotientLess(n, radix);
      NoNul(n / radix, radix);
    }
  }

  /** The copy loop at the end. */
  method CopyOut(buffer: array<char>, p0: nat) returns (s: string)
    requires p0 <= 64 && buffer.Length == 65 && buffer[64] == '\0' && forall i :: p0 <= i < 64 ==> buffer[i] != '\0'
    ensures s == buffer[p0..64]
  {
    s := "";
    var p := p0;
    while buffer[p] != '\0'
      invariant p0 <= p <= 64 && s == buffer[p0..p]
      decreases 64 - p
    {
      s := s + [buffer[p]];
      p := p + 1;
    }
  }

  lemma NothingPrinted(n: nat, radix: nat)
    requires 2 <= radix <= 36 && n > 0
    ensures Prints(n, radix, n, "")
  {
    hide Digits;
    assert Digits(n, radix) + "" == Digits(n, radix);
  }

  lemma AllPrinted(n: nat, radix: nat, written: string)
    requires 2 <= radix <= 36 && Prints(n, radix, 0, written)
    ensures Digits(n, radix) == written
  {
    hide Digits;
    assert "" + written == written;
  }

  /** The two division loops, and the copy from the buffer. */
  method PrintDigits(val: nat, radix: nat) returns (s: string)
    requires 0 < val <= ULONGLONG_MAX && 2 <= radix <= 36
    ensures s == Digits(val, radix)
  {
    hide Digits, Pow2, Prints, DIG_VEC;
    var buffer := new char[65];
    var p := 64;
    buffer[p] := '\0';
    assert buffer[p..64] == "";
    Fits64();
    NothingPrinted(val, radix);
    var n: nat := val;
    while n > LONGLONG_MAX
      invariant 1 <= p <= 64 && 0 < n < Pow2(p) && buffer[64] == '\0' && Prints(val, radix, n, buffer[p..64])
    {
      BigQuotient(n, radix);
      p, n := PutDigit(buffer, p, n, radix, val);
      RoomLeft(n, p);
    }
    while n != 0
      invariant 0 <= p <= 64 && n < Pow2(p) && buffer[64] == '\0' && Prints(val, radix, n, buffer[p..64])
      decreases n
    {
      RoomLeft(n, p);
      p, n := PutDigit(buffer, p, n, radix, val);
    }
    AllPrinted(val, radix, buffer[p..64]);
    NoNul(val, radix);
    assert forall i :: p <= i < 64 ==> buffer[i] == buffer[p..64][i - p];
    s := CopyOut(buffer, p);
  }

  // ---- Parsing ----

  predicate IsSpace(c: char) { c == ' ' || '\t' <= c <= '\r' }

  predicate AllSpaces(s: string) {
    forall i :: 0 <= i < |s| ==> IsSpace(s[i])
  }

  /** The first position from i on that is not a space. */
  method SkipSpaces(s: string, i: nat) returns (p: nat)
    requires i <= |s|
    ensures i <= p <= |s| && AllSpaces(s[i..p]) && (p < |s| ==> !IsSpace(s[p]))
  {
    p := i;
    while p < |s| && IsSpace(s[p])
      invariant i <= p <= |s| && AllSpaces(s[i..p])
    {
      assert s[i..p + 1] == s[i..p] + [s[p]];
      p := p + 1;
    }
  }

  /** The form of a number: spaces, a sign if allowed, digits and spaces again. */
  ghost predicate Form(s: string, lead: string, neg: bool, digits: string, trail: string) {
    && AllSpaces(lead) && AllDigits(digits) && |digits| >= 1 && AllSpaces(trail)
    && s == lead + (if neg then "-" else "") + digits + trail
  }

  /** `my_strtoull` from position i: the digits up to `end`, or an error. */
  method StrToULL(s: string, i: nat, err0: bool) returns (val: nat, end: nat, err: bool)
    requires i <= |s|
    ensures i <= end <= |s| && AllDigits(s[i..end]) && val == Decimal(s[i..end]) <= ULONGLONG_MAX
    ensures !err ==> !err0 && i < end && (end < |s| ==> !IsDigit(s[end]))
    ensures err && !err0 ==> (i == end && (end < |s| ==> !IsDigit(s[end]))) || (end < |s| && AllDigits(s[i..end + 1]) && Decimal(s[i..end + 1]) > ULONGLONG_MAX)
  {
    val, end, err := 0, i, err0;
    while end < |s|
      invariant i <= end <= |s| && AllDigits(s[i..end]) && val == Decimal(s[i..end]) <= ULONGLONG_MAX && err == err0
    {
      if !IsDigit(s[end]) { break; }
      ghost var more := s[i..end + 1];
      assert more[..|more| - 1] == s[i..end];
      assert more == s[i..end] + [s[end]];
      var d := (s[end] - '0') as nat;
      if val > ULONGLONG_MAX / 10 || val * 10 > ULONGLONG_MAX - d {
        err := true;
        break;
      }
      val := val * 10 + d;
      end := end + 1;
    }
    if end == i {
      err := true;
    }
  }

  /** `my_strtoll` from position i. */
  method StrToLL(s: string, i: nat, err0: bool)
    returns (val: int, end: nat, err: bool, ghost neg: bool, ghost p: nat, ghost q: nat)
    requires i <= |s|
    ensures i <= p <= |s| && AllSpaces(s[i..p]) && (p < |s| ==> !IsSpace(s[p])) && i <= end <= |s|
    ensures neg == (p < |s| && s[p] == '-')
    ensures var d := if neg then p + 1 else p;
      && d <= q <= |s| && AllDigits(s[d..q])
      && (!err ==> !err0 && d < q == end && (q < |s| ==> !IsDigit(s[q])) && val == (if neg then 0 - Decimal(s[d..q]) else Decimal(s[d..q]))
                   && LONGLONG_MIN <= val <= LONGLONG_MAX)
      && (err && !err0 ==>
            || (d == q && (q < |s| ==> !IsDigit(s[q])))
            || (if neg then 0 - Decimal(s[d..q]) < LONGLONG_MIN else Decimal(s[d..q]) > LONGLONG_MAX)
            || (q < |s| && AllDigits(s[d..q + 1]) && Decimal(s[d..q + 1]) > ULONGLONG_MAX))
  {
    hide Decimal, AllDigits, AllSpaces;
    var first := SkipSpaces(s, i);
    p, neg := first, first < |s| && s[first] == '-';
    NoDigits(s, first);
    if first == |s| {
      return 0, first, true, neg, p, p;
    }
    var minus := s[first] == '-';
    var d := if minus then first + 1 else first;
    var uval, e;
    uval, e, err := StrToULL(s, d, err0);
    end, q, val := e, e, uval;
    if err { return; }
    if !minus {
      if uval > LONGLONG_MAX {
        end, val, err := e - 1, LONGLONG_MAX, true;
      }
    } else if uval == 0x8000_0000_0000_0000 {
      val := LONGLONG_MIN;
    } else if uval > LONGLONG_MAX {
      end, val, err := e - 1, LONGLONG_MIN, true;
    } else {
      val := 0 - uval;
    }
  }

  lemma NoDigits(s: string, p: nat)
    requires p <= |s|
    ensures AllDigits(s[p..p]) && Decimal(s[p..p]) == 0
  {
  }

  // ---- What the scan has found out about the form ----

  lemma LeadIs(s: string, lead: string, rest: string, p: nat)
    requires s == lead + rest && AllSpaces(lead) && |rest| > 0 && !IsSpace(rest[0])
    requires p <= |s| && AllSpaces(s[..p]) && (p < |s| ==> !IsSpace(s[p]))
    ensures p == |lead|
  {
    assert s[|lead|] == rest[0];
    assert forall i :: 0 <= i < |lead| ==> s[i] == lead[i];
    assert forall i :: 0 <= i < p ==> s[i] == s[..p][i];
  }

  lemma DigitsAre(s: string, digits: string, trail: string, d: nat, q: nat)
    requires d <= q <= |s| && s[d..] == digits + trail && AllDigits(digits) && AllSpaces(trail)
    requires AllDigits(s[d..q])
    ensures q - d <= |digits| && s[d..q] == digits[..q - d]
    ensures q < |s| && !IsDigit(s[q]) ==> q - d == |digits|
    ensures q == |s| ==> q - d == |digits|
    ensures q < |s| && AllDigits(s[d..q + 1]) ==> q + 1 - d <= |digits| && s[d..q + 1] == digits[..q + 1 - d]
  {
    var t := digits + trail;
    assert forall k :: 0 <= k < |t| ==> s[d..][k] == t[k];
    assert forall k :: 0 <= k < |digits| ==> t[k] == digits[k];
    assert |trail| > 0 ==> t[|digits|] == trail[0];
    assert forall k :: 0 <= k < q - d ==> s[d..q][k] == s[d..][k];
    assert q < |s| ==> s[q] == s[d..q + 1][q - d] == s[d..][q - d];
  }

  lemma {:induction false} DecimalPrefix(s: string, k: nat)
    requires AllDigits(s) && k <= |s|
    ensures AllDigits(s[..k]) && Decimal(s[..k]) <= Decimal(s)
    decreases |s|
  {
    if k == |s| {
      assert s[..k] == s;
    } else {
      var n := |s| - 1;
      DecimalPrefix(s[..n], k);
      assert s[..n][..k] == s[..k];
    }
  }

  /** Any form the string has is the one the scan found. */
  lemma FormIs(s: string, p: nat, neg: bool, lead: string, n: bool, digits: string, trail: string)
    requires Form(s, lead, n, digits, trail)
    requires p <= |s| && AllSpaces(s[..p]) && (p < |s| ==> !IsSpace(s[p])) && neg == (p < |s| && s[p] == '-')
    ensures p == |lead| && neg == n && (if neg then p + 1 else p) <= |s|
    ensures s[if neg then p + 1 else p..] == digits + trail
  {
    var rest := (if n then "-" else "") + digits + trail;
    assert s == lead + rest;
    assert IsDigit(digits[0]);
    LeadIs(s, lead, rest, p);
    assert s[p] == rest[0];
  }

  /** The string has the form the scan found. */
  lemma FormFound(s: string, p: nat, neg: bool, q: nat)
    requires p <= |s| && AllSpaces(s[..p]) && neg == (p < |s| && s[p] == '-')
    requires var d := if neg then p + 1 else p; d < q <= |s| && AllDigits(s[d..q]) && AllSpaces(s[q..])
    ensures Form(s, s[..p], neg, s[if neg then p + 1 else p..q], s[q..])
  {
    var d := if neg then p + 1 else p;
    assert s == s[..p] + s[p..d] + s[d..q] + s[q..];
    assert s[p..d] == if neg then "-" else "";
  }

  ghost function Signed(neg: bool, digits: string): int
    requires AllDigits(digits)
  {
    if neg then 0 - Decimal(digits) else Decimal(digits)
  }

  /** `my_atoll`: no error exactly for a number in range between spaces, and then its value. */
  method AToLL(s: string) returns (val: int, err: bool)
    ensures !err ==> exists lead, neg, digits, trail :: Form(s, lead, neg, digits, trail)
    ensures forall lead, neg, digits, trail :: Form(s, lead, neg, digits, trail) ==>
              (!err <==> LONGLONG_MIN <= Signed(neg, digits) <= LONGLONG_MAX) && (!err ==> val == Signed(neg, digits))
  {
    hide Decimal, AllDigits, AllSpaces, Form, Signed;
    var first := SkipSpaces(s, 0);
    var end;
    ghost var neg, p, q;
    val, end, err, neg, p, q := StrToLL(s, first, false);
    ghost var scanErr, stop := err, end;
    var last := SkipSpaces(s, end);
    if last != |s| {
      err := true;
    }
    Joined(s, first, p);
    forall lead, n, digits, trail | Form(s, lead, n, digits, trail)
      ensures AllDigits(digits)
      ensures !err <==> LONGLONG_MIN <= Signed(n, digits) <= LONGLONG_MAX
      ensures !err ==> val == Signed(n, digits)
    {
      SignedForm(s, p, neg, q, lead, n, digits, trail, val, scanErr, stop, last);
    }
    if !err {
      assert s[stop..last] == s[stop..];
      FormFound(s, p, neg, q);
    }
  }

  lemma Joined(s: string, a: nat, b: nat)
    requires a <= b <= |s| && AllSpaces(s[0..a]) && AllSpaces(s[a..b])
    ensures AllSpaces(s[..b])
  {
    assert s[..b] == s[0..a] + s[a..b];
  }

  lemma SignedForm(s: string, p: nat, neg: bool, q: nat, lead: string, n: bool, digits: string, trail: string,
                   val: int, err: bool, end: nat, last: nat)
    requires Form(s, lead, n, digits, trail)
    requires p <= |s| && AllSpaces(s[..p]) && (p < |s| ==> !IsSpace(s[p])) && neg == (p < |s| && s[p] == '-')
    requires var d := if neg then p + 1 else p;
      && d <= q <= |s| && AllDigits(s[d..q])
      && (!err ==> d < q == end && (q < |s| ==> !IsDigit(s[q])) && val == (if neg then 0 - Decimal(s[d..q]) else Decimal(s[d..q]))
                   && LONGLONG_MIN <= val <= LONGLONG_MAX)
      && (err ==>
            || (d == q && (q < |s| ==> !IsDigit(s[q])))
            || (if neg then 0 - Decimal(s[d..q]) < LONGLONG_MIN else Decimal(s[d..q]) > LONGLONG_MAX)
            || (q < |s| && AllDigits(s[d..q + 1]) && Decimal(s[d..q + 1]) > ULONGLONG_MAX))
    requires end <= last <= |s| && AllSpaces(s[end..last]) && (last < |s| ==> !IsSpace(s[last]))
    ensures AllDigits(digits)
    ensures (!err && last == |s|) <==> LONGLONG_MIN <= Signed(n, digits) <= LONGLONG_MAX
    ensures !err && last == |s| ==> val == Signed(n, digits)
  {
    var d := if neg then p + 1 else p;
    FormIs(s, p, neg, lead, n, digits, trail);
    DigitsAre(s, digits, trail, d, q);
    DecimalPrefix(digits, q - d);
    assert q - d == |digits| ==> digits[..q - d] == digits;
    if !err {
      assert s[q..] == trail;
      assert forall k :: q <= k < |s| ==> s[k] == s[q..][k - q];
    } else if q < |s| && AllDigits(s[d..q + 1]) {
      DecimalPrefix(digits, q + 1 - d);
    }
  }

  /** `my_atoull`: no error exactly for an unsigned number in range between spaces, and then its value. */
  method AToULL(s: string) returns (val: nat, err: bool)
    ensures !err ==> exists lead, digits, trail :: Form(s, lead, false, digits, trail)
    ensures forall lead, digits, trail :: Form(s, lead, false, digits, trail) ==>
              (!err <==> Decimal(digits) <= ULONGLONG_MAX) && (!err ==> val == Decimal(digits))
  {
    hide Decimal, AllDigits, AllSpaces, Form;
    var p := SkipSpaces(s, 0);
    var end;
    val, end, err := StrToULL(s, p, false);
    ghost var scanErr := err;
    var last := SkipSpaces(s, end);
    if last != |s| {
      err := true;
    }
    assert s[..p] == s[0..p];
    forall lead, digits, trail | Form(s, lead, false, digits, trail)
      ensures AllDigits(digits)
      ensures !err <==> Decimal(digits) <= ULONGLONG_MAX
      ensures !err ==> val == Decimal(digits)
    {
      UnsignedForm(s, p, end, lead, digits, trail, scanErr, last);
    }
    if !err {
      assert s[end..last] == s[end..];
      DigitFirst(s, p, end);
      FormFound(s, p, false, end);
    }
  }

  lemma DigitFirst(s: string, p: nat, q: nat)
    requires p < q <= |s| && AllDigits(s[p..q])
    ensures s[p] != '-'
  {
    assert s[p] == s[p..q][0];
  }

  lemma UnsignedForm(s: string, p: nat, q: nat, lead: string, digits: string, trail: string, err: bool, last: nat)
    requires Form(s, lead, false, digits, trail)
    requires p <= q <= |s| && AllSpaces(s[..p]) && (p < |s| ==> !IsSpace(s[p]))
    requires AllDigits(s[p..q]) && Decimal(s[p..q]) <= ULONGLONG_MAX
    requires !err ==> p < q && (q < |s| ==> !IsDigit(s[q]))
    requires err ==> (p == q && (q < |s| ==> !IsDigit(s[q]))) || (q < |s| && AllDigits(s[p..q + 1]) && Decimal(s[p..q + 1]) > ULONGLONG_MAX)
    requires q <= last <= |s| && AllSpaces(s[q..last]) && (last < |s| ==> !IsSpace(s[last]))
    ensures AllDigits(digits)
    ensures (!err && last == |s|) <==> Decimal(digits) <= ULONGLONG_MAX
    ensures !err && last == |s| ==> Decimal(s[p..q]) == Decimal(digits)
  {
    FormIs(s, p, p < |s| && s[p] == '-', lead, false, digits, trail);
    DigitsAre(s, digits, trail, p, q);
    DecimalPrefix(digits, q - p);
    assert q - p == |digits| ==> digits[..q - p] == digits;
    if !err {
      assert s[q..] == trail;
      assert forall k :: q <= k < |s| ==> s[k] == s[q..][k - q];
    } else if q < |s| && AllDigits(s[p..q + 1]) {
      DecimalPrefix(digits, q + 1 - p);
    }
  }

  lemma PrintedForm(n: nat, neg: bool)
    ensures Form((if neg then "-" else "") + Digits(n, 10), "", neg, Digits(n, 10), "") && Decimal(Digits(n, 10)) == n
  {
    hide Digits, Decimal;
    DecimalDigits(n);
    var sign := if neg then "-" else "";
    assert "" + sign + Digits(n, 10) + "" == sign + Digits(n, 10);
  }

  /** Parsing inverts printing for every 64-bit value, signed and unsigned. */
  method PrintThenParse(v: int) returns (signed: int, unsigned: nat, err: bool)
    requires LONGLONG_MIN <= v <= LONGLONG_MAX
    ensures !err && signed == v && unsigned == if v < 0 then v + ULONGLONG_MAX + 1 else v
  {
    hide Digits, Decimal, Form, AllDigits;
    var text := Ll2Str(v, -10);
    PrintedForm(if v < 0 then -v else v, v < 0);
    signed, err := AToLL(text.value);
    var bits := Ll2Str(v, 10);
    ghost var u := if v < 0 then v + ULONGLONG_MAX + 1 else v;
    PrintedForm(u, false);
    assert "" + Digits(u, 10) == Digits(u, 10);
    var err2;
    unsigned, err2 := AToULL(bits.value);
    err := err || err2;
  }
}

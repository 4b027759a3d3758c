/** Strings of decimal digits, and the rounding at their end. */
module Digits {
  import opened BigWords
  import opened Pow5s

  type Digit = d: nat | d <= 9

  /** The number a digit string stands for, without its decimal point. */
  function DigVal(s: seq<Digit>): nat
  {
    if |s| == 0 then 0 else 10 * DigVal(s[..|s| - 1]) + s[|s| - 1]
  }

  lemma DigAppend(s: seq<Digit>, d: Digit)
    ensures DigVal(s + [d]) == 10 * DigVal(s) + d
  {
    assert (s + [d])[..|s|] == s;
  }

  lemma {:induction false} DigPositive(s: seq<Digit>)
    requires |s| > 0 && s[0] != 0
    ensures DigVal(s) > 0
  {
    if |s| > 1 { DigPositive(s[..|s| - 1]); }
  }

  /** The string t, moved by `up` places, stands for n when read at the length of s. */
  ghost predicate ReadsAs(t: seq<Digit>, len: nat, up: nat, n: nat)
  {
    1 <= |t| <= len + up && DigVal(t) * Pow(10, len + up - |t|) == n
  }

  lemma LastOf(digits: seq<Digit>)
    requires |digits| >= 1
    ensures DigVal(digits) % 10 == digits[|digits| - 1]
  {
  }

  lemma ReadsItself(digits: seq<Digit>)
    requires |digits| >= 1
    ensures ReadsAs(digits, |digits|, 0, DigVal(digits))
  {
    assert Pow(10, 0) == 1;
  }

  /** The `roundoff` loop: one unit is added in the last place. Trailing nines are dropped; when all
      digits are nines the result is a single 1 and the decimal point moves up by one. */
  method RoundOff(s: seq<Digit>) returns (t: seq<Digit>, up: nat)
    requires |s| > 0 && s[0] != 0
    ensures up <= 1 && ReadsAs(t, |s|, up, DigVal(s) + 1) && t[0] != 0
    ensures t[|t| - 1] != 0 && (up == 1 ==> t == [1])
  {
    var n := |s| - 1;
    assert s[..n + 1] == s;
    ghost var v := DigVal(s) + 1;
    while s[n] == 9
      invariant 0 <= n < |s|
      invariant (DigVal(s[..n + 1]) + 1) * Pow(10, |s| - n - 1) == v
      decreases n
    {
      ghost var w := DigVal(s[..n]);
      DigAppend(s[..n], 9);
      assert s[..n + 1] == s[..n] + [9];
      assert Pow(10, |s| - n) == 10 * Pow(10, |s| - n - 1);
      Associate(w + 1, 10, Pow(10, |s| - n - 1));
      if n == 0 {
        assert DigVal([1]) == 1;
        return [1], 1;
      }
      n := n - 1;
      assert s[..n + 1] == s[..n + 1];
    }
    DigAppend(s[..n], s[n]);
    assert s[..n + 1] == s[..n] + [s[n]];
    t, up := s[..n] + [s[n] + 1], 0;
    DigAppend(s[..n], s[n] + 1);
  }

  /** The `trimzeros` loop. */
  method TrimZeros(s: seq<Digit>) returns (t: seq<Digit>)
    requires |s| > 0 && s[0] != 0
    ensures ReadsAs(t, |s|, 0, DigVal(s)) && t[0] != 0 && t[|t| - 1] != 0
  {
    var n := |s|;
    assert s[..n] == s;
    while s[n - 1] == 0
      invariant 1 <= n <= |s|
      invariant DigVal(s[..n]) * Pow(10, |s| - n) == DigVal(s)
      decreases n
    {
      DigAppend(s[..n - 1], 0);
      assert s[..n] == s[..n - 1] + [0];
      Associate(DigVal(s[..n - 1]), 10, Pow(10, |s| - n));
      n := n - 1;
    }
    t := s[..n];
  }
}

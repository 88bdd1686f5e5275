/** The few pieces of Python string behaviour the model relies on:
    `str()` of integers, `"%s" % None`, `int()` of a decimal literal and
    `str.replace`. */
module Strings {
  import opened Wrappers

  predicate IsDigit(c: char) {
    '0' <= c <= '9'
  }

  predicate AllDigits(s: string) {
    forall k :: 0 <= k < |s| ==> IsDigit(s[k])
  }

  function DigitChar(d: nat): (c: char)
    requires d < 10
    ensures IsDigit(c)
  {
    ('0' as int + d) as char
  }

  function DigitValue(c: char): nat
    requires IsDigit(c)
  {
    (c as int) - ('0' as int)
  }

  /** Python `str(n)` for a non-negative integer: decimal, no leading zeros. */
  function NatToString(n: nat): (r: string)
    ensures |r| >= 1 && AllDigits(r)
    ensures r[0] == '0' ==> n == 0
    decreases n
  {
    if n < 10 then [DigitChar(n)] else NatToString(n / 10) + [DigitChar(n % 10)]
  }

  /** Python `str(i)` (and `"%d" % i`) for any integer. */
  function IntToString(i: int): (r: string)
    ensures |r| >= 1
    ensures i >= 0 <==> r[0] != '-'
  {
    if i < 0 then "-" + NatToString(-i) else NatToString(i)
  }

  /** Python `"%s" % v` where `v` may be `None`. */
  function PyStr(v: Option<string>): string {
    match v
    case Some(s) => s
    case None => "None"
  }

  /** The value of a string of decimal digits. */
  function DigitsValue(s: string): nat
    requires AllDigits(s)
    decreases |s|
  {
    if s == [] then 0 else 10 * DigitsValue(s[..|s| - 1]) + DigitValue(s[|s| - 1])
  }

  /** Python `int(s)` on an optionally signed decimal literal; `None` stands for
      the `ValueError` every other string raises. */
  function ParseInt(s: string): (r: Option<int>)
    ensures r.Some? <==> (|s| >= 1 && AllDigits(s)) || (|s| >= 2 && s[0] in "+-" && AllDigits(s[1..]))
    ensures (|s| >= 1 && AllDigits(s)) ==> r == Some(DigitsValue(s) as int)
    ensures |s| >= 2 && s[0] == '-' && AllDigits(s[1..]) ==> r == Some(-(DigitsValue(s[1..]) as int))
    ensures |s| >= 2 && s[0] == '+' && AllDigits(s[1..]) ==> r == Some(DigitsValue(s[1..]) as int)
  {
    if |s| >= 2 && s[0] == '-' && AllDigits(s[1..]) then Some(-(DigitsValue(s[1..]) as int))
    else if |s| >= 2 && s[0] == '+' && AllDigits(s[1..]) then Some(DigitsValue(s[1..]) as int)
    else if |s| >= 1 && AllDigits(s) then Some(DigitsValue(s) as int)
    else None
  }

  lemma {:induction false} DigitsOfNatToString(n: nat)
    ensures DigitsValue(NatToString(n)) == n
    decreases n
  {
    var s := NatToString(n);
    if n >= 10 {
      DigitsOfNatToString(n / 10);
      assert s[..|s| - 1] == NatToString(n / 10);
    }
  }

  /** `int(str(n))` gives back `n`. */
  lemma ParseNatToString(n: nat)
    ensures ParseInt(NatToString(n)) == Some(n)
  {
    DigitsOfNatToString(n);
  }

  /** `int(str(i))` gives back `i`, negative numbers included. */
  lemma ParseIntToString(i: int)
    ensures ParseInt(IntToString(i)) == Some(i)
  {
    if i < 0 {
      var digits := NatToString(-i);
      var s := "-" + digits;
      assert s == IntToString(i);
      assert s[1..] == digits;
      DigitsOfNatToString(-i);
      assert ParseInt(s) == Some(-(DigitsValue(digits) as int));
    } else {
      ParseNatToString(i);
    }
  }

  /** `str` is injective on integers. */
  lemma IntToStringInjective(i: int, j: int)
    requires IntToString(i) == IntToString(j)
    ensures i == j
  {
    ParseIntToString(i);
    ParseIntToString(j);
  }

  /** True when `pat` occurs in `s` starting at position `k`. */
  predicate OccursAt(s: string, pat: string, k: nat) {
    k + |pat| <= |s| && s[k..k + |pat|] == pat
  }

  /** Python `s.replace(pat, rep)`: every non-overlapping occurrence of `pat`,
      scanning left to right, is replaced. */
  function ReplaceAll(s: string, pat: string, rep: string): (r: string)
    requires |pat| > 0
    ensures (forall k :: 0 <= k < |s| ==> !OccursAt(s, pat, k)) ==> r == s
    decreases |s|
  {
    if |s| < |pat| then s
    else if s[..|pat|] == pat then
      assert OccursAt(s, pat, 0);
      rep + ReplaceAll(s[|pat|..], pat, rep)
    else
      assert forall k :: 0 <= k < |s| - 1 && OccursAt(s[1..], pat, k) ==> s[1..][k..k + |pat|] == s[k + 1..k + 1 + |pat|] && OccursAt(s, pat, k + 1);
      [s[0]] + ReplaceAll(s[1..], pat, rep)
  }

  /** Removing a prefix that starts with a non-digit from `prefix + digits`
      leaves the digits. */
  lemma ReplacePrefixOfDigits(prefix: string, digits: string)
    requires |prefix| > 0 && !IsDigit(prefix[0]) && AllDigits(digits)
    ensures ReplaceAll(prefix + digits, prefix, "") == digits
  {
    var s := prefix + digits;
    assert s[..|prefix|] == prefix;
    assert s[|prefix|..] == digits;
    forall k | 0 <= k < |digits|
      ensures !OccursAt(digits, prefix, k)
    {
      if k + |prefix| <= |digits| {
        assert digits[k..k + |prefix|][0] == digits[k];
      }
    }
  }
}

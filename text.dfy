/**
 * The string operations the views rely on: case-insensitive substring search
 * (`toLowerCase().includes(...)`), decimal printing (`n.toString()`) and
 * decimal parsing (`parseInt(s, 10)`).
 */
module Text {
  import opened Options

  /** ASCII case folding (the model does not fold letters outside A-Z). */
  function LowerChar(c: char): char {
    if 'A' <= c <= 'Z' then (c as int - 'A' as int + 'a' as int) as char else c
  }

  /** `s.toLowerCase()`, restricted to ASCII letters. */
  function Lower(s: string): (r: string)
    ensures |r| == |s|
  {
    seq(|s|, i requires 0 <= i < |s| => LowerChar(s[i]))
  }

  /** `hay.includes(needle)`: `needle` occurs in `hay` at some position. */
  function Includes(hay: string, needle: string): (r: bool)
    ensures r <==> exists i :: 0 <= i <= |hay| && needle <= hay[i..]
  {
    if needle <= hay then
      assert hay[0..] == hay;
      true
    else if hay == [] then false
    else
      assert forall i :: 1 <= i <= |hay| ==> hay[1..][i - 1..] == hay[i..];
      Includes(hay[1..], needle)
  }

  /** `field.toLowerCase().includes(term.toLowerCase())`. */
  predicate Matches(field: string, term: string) {
    Includes(Lower(field), Lower(term))
  }

  /** An empty search term matches every field. */
  lemma MatchesEmpty(field: string)
    ensures Matches(field, "")
  {
    assert Lower("") == "";
    assert "" <= Lower(field)[0..];
  }

  /** A string contains itself. */
  lemma IncludesSelf(t: string)
    ensures Includes(t, t)
  {
    assert t <= t[0..];
  }

  /** What occurs in a string occurs in any longer string that extends it on either side. */
  lemma IncludesAppend(a: string, b: string, t: string)
    ensures Includes(a, t) ==> Includes(a + b, t)
    ensures Includes(b, t) ==> Includes(a + b, t)
  {
    if Includes(a, t) {
      var i :| 0 <= i <= |a| && t <= a[i..];
      assert (a + b)[i..] == a[i..] + b;
    }
    if Includes(b, t) {
      var i :| 0 <= i <= |b| && t <= b[i..];
      assert (a + b)[|a| + i..] == b[i..];
    }
  }

  predicate IsDigit(c: char) {
    '0' <= c <= '9'
  }

  predicate AllDigits(s: string) {
    forall i :: 0 <= i < |s| ==> IsDigit(s[i])
  }

  function DigitChar(d: nat): (c: char)
    requires d < 10
    ensures IsDigit(c)
  {
    ('0' as int + d) as char
  }

  function DigitValue(c: char): (d: nat)
    requires IsDigit(c)
    ensures d < 10 && DigitChar(d) == c
  {
    c as int - '0' as int
  }

  /** `n.toString()` for a non-negative integer: its decimal digits, without leading zeros. */
  function NatToString(n: nat): (s: string)
    ensures |s| > 0 && AllDigits(s)
    ensures s[0] == '0' ==> s == "0"
  {
    if n < 10 then [DigitChar(n)] else NatToString(n / 10) + [DigitChar(n % 10)]
  }

  /** The number a string of decimal digits denotes. */
  function DigitsValue(s: string): nat
    requires AllDigits(s)
  {
    if s == [] then 0 else DigitsValue(s[..|s| - 1]) * 10 + DigitValue(s[|s| - 1])
  }

  /** The longest prefix of `s` made of decimal digits. */
  function LeadingDigits(s: string): (r: string)
    ensures r <= s && AllDigits(r)
    ensures |r| < |s| ==> !IsDigit(s[|r|])
  {
    if s == [] || !IsDigit(s[0]) then [] else [s[0]] + LeadingDigits(s[1..])
  }

  /**
   * `parseInt(s, 10)`: an optional sign, then the leading run of digits; the
   * rest of the string is ignored. `None` stands for `NaN` (no digit after the sign).
   */
  function ParseInt(s: string): (r: Option<int>)
    ensures r.None? <==> LeadingDigits(Unsigned(s)) == []
  {
    var digits := LeadingDigits(Unsigned(s));
    if digits == [] then None
    else if |s| > 0 && s[0] == '-' then Some(-(DigitsValue(digits) as int))
    else Some(DigitsValue(digits))
  }

  /** `s` without its leading sign, if any. */
  function Unsigned(s: string): string {
    if |s| > 0 && (s[0] == '-' || s[0] == '+') then s[1..] else s
  }

  /** A non-empty string of digits parses to the number it denotes. */
  lemma ParseDigits(s: string)
    requires s != [] && AllDigits(s)
    ensures ParseInt(s) == Some(DigitsValue(s))
  {
    assert Unsigned(s) == s;
    assert LeadingDigits(s) == s by { LeadingDigitsAll(s); }
  }

  lemma {:induction false} LeadingDigitsAll(s: string)
    requires AllDigits(s)
    ensures LeadingDigits(s) == s
  {
    if s != [] {
      assert AllDigits(s[1..]) by { assert forall i :: 1 <= i < |s| ==> s[1..][i - 1] == s[i]; }
      LeadingDigitsAll(s[1..]);
    }
  }

  /** Printing then reading a digit string gives the number back. */
  lemma {:induction false} DigitsValueOfNatToString(n: nat)
    ensures DigitsValue(NatToString(n)) == n
  {
    if n >= 10 {
      var s := NatToString(n);
      assert s[..|s| - 1] == NatToString(n / 10);
      DigitsValueOfNatToString(n / 10);
    }
  }

  /** `parseInt(n.toString(), 10) == n`. */
  lemma ParseNatToString(n: nat)
    ensures ParseInt(NatToString(n)) == Some(n)
  {
    ParseDigits(NatToString(n));
    DigitsValueOfNatToString(n);
  }

  /** Distinct numbers print differently. */
  lemma NatToStringInjective(m: nat, n: nat)
    requires NatToString(m) == NatToString(n)
    ensures m == n
  {
    DigitsValueOfNatToString(m);
    DigitsValueOfNatToString(n);
  }

  /** `a + "-" + b`, the shape of an imported entry's id. */
  function Dashed(a: string, b: string): string {
    a + "-" + b
  }

  /** In `a-b` with `a` made of digits, the first dash is the one right after `a`. */
  lemma DashAt(a: string, b: string)
    requires AllDigits(a)
    ensures Dashed(a, b)[|a|] == '-'
    ensures forall k :: 0 <= k < |a| ==> Dashed(a, b)[k] != '-'
  {
    assert forall k :: 0 <= k < |a| ==> Dashed(a, b)[k] == a[k];
  }

  /** Two dashed ids whose digit-only first parts may differ still differ when their second parts do. */
  lemma DashedDistinct(a: string, b: string, c: string, d: string)
    requires AllDigits(a) && AllDigits(c)
    requires b != d
    ensures Dashed(a, b) != Dashed(c, d)
  {
    DashAt(a, b);
    DashAt(c, d);
    if |a| == |c| {
      assert Dashed(a, b)[|a| + 1..] == b;
      assert Dashed(c, d)[|c| + 1..] == d;
    } else if |a| < |c| {
      assert Dashed(a, b)[|a|] != Dashed(c, d)[|a|];
    } else {
      assert Dashed(a, b)[|c|] != Dashed(c, d)[|c|];
    }
  }
}

/**
 * The small part of the Java platform that the phoneword code relies on:
 * 32-bit `int` arithmetic, `Integer.toString`, `String.hashCode`, ASCII
 * character classes and case mapping, `String.trim().isEmpty()` and
 * `String.replace`.
 */
module JavaLang {

  const IntMin: int := -0x8000_0000
  const IntMax: int := 0x7FFF_FFFF
  const TwoTo32: int := 0x1_0000_0000

  predicate IsJavaInt(x: int) { IntMin <= x <= IntMax }

  /** Two's-complement truncation to 32 bits, what every Java `int` operation does to its exact result. */
  function Wrap32(x: int): (r: int)
    ensures IsJavaInt(r)
    ensures IsJavaInt(x) ==> r == x
    ensures (r - x) % TwoTo32 == 0
  {
    (x - IntMin) % TwoTo32 + IntMin
  }

  // ---------------------------------------------------------------- characters

  predicate IsDigit(c: char) { '0' <= c <= '9' }
  predicate IsUpper(c: char) { 'A' <= c <= 'Z' }
  predicate IsLower(c: char) { 'a' <= c <= 'z' }
  predicate IsLetter(c: char) { IsUpper(c) || IsLower(c) }
  predicate IsLetterOrDigit(c: char) { IsLetter(c) || IsDigit(c) }

  function ToLowerChar(c: char): char
  {
    if IsUpper(c) then (c as int - 'A' as int + 'a' as int) as char else c
  }

  function ToUpperChar(c: char): char
  {
    if IsLower(c) then (c as int - 'a' as int + 'A' as int) as char else c
  }

  /** `String.toLowerCase()` restricted to ASCII letters. */
  function ToLowerCase(s: string): (r: string)
    ensures |r| == |s|
  {
    if s == [] then [] else [ToLowerChar(s[0])] + ToLowerCase(s[1..])
  }

  /** `String.toUpperCase()` restricted to ASCII letters. */
  function ToUpperCase(s: string): (r: string)
    ensures |r| == |s|
  {
    if s == [] then [] else [ToUpperChar(s[0])] + ToUpperCase(s[1..])
  }

  lemma {:induction false} ToLowerCaseAt(s: string, i: int)
    requires 0 <= i < |s|
    ensures ToLowerCase(s)[i] == ToLowerChar(s[i])
  {
    if i > 0 { ToLowerCaseAt(s[1..], i - 1); }
  }

  lemma {:induction false} ToUpperCaseAt(s: string, i: int)
    requires 0 <= i < |s|
    ensures ToUpperCase(s)[i] == ToUpperChar(s[i])
  {
    if i > 0 { ToUpperCaseAt(s[1..], i - 1); }
  }

  // ---------------------------------------------------------------- decimal text

  function DigitChar(d: int): char
    requires 0 <= d < 10
  {
    ('0' as int + d) as char
  }

  function DigitValue(c: char): int
    requires IsDigit(c)
  {
    c as int - '0' as int
  }

  /** The decimal text of a natural number, without leading zeros. */
  function NatToDecimal(n: nat): (r: string)
    ensures |r| > 0
    ensures forall i :: 0 <= i < |r| ==> IsDigit(r[i])
  {
    if n < 10 then [DigitChar(n)] else NatToDecimal(n / 10) + [DigitChar(n % 10)]
  }

  /** `Integer.toString(n)` (also what `n + ""` produces). */
  function IntToString(n: int): string
  {
    if n < 0 then "-" + NatToDecimal(-n) else NatToDecimal(n)
  }

  /** The number a string of decimal digits denotes. */
  function DecimalValue(s: string): nat
    requires forall i :: 0 <= i < |s| ==> IsDigit(s[i])
  {
    if s == [] then 0 else 10 * DecimalValue(s[..|s| - 1]) + DigitValue(s[|s| - 1])
  }

  function Pow10(n: nat): (r: nat)
    ensures r >= 1
  {
    if n == 0 then 1 else 10 * Pow10(n - 1)
  }

  lemma {:induction false} DecimalValueBounds(s: string)
    requires forall i :: 0 <= i < |s| ==> IsDigit(s[i])
    requires |s| > 0 && s[0] != '0'
    ensures Pow10(|s| - 1) <= DecimalValue(s) < Pow10(|s|)
  {
    if |s| > 1 {
      DecimalValueBounds(s[..|s| - 1]);
    }
  }

  /** Reading digits without a leading zero and printing the number back gives the same text. */
  lemma {:induction false} DecimalRoundTrip(s: string)
    requires forall i :: 0 <= i < |s| ==> IsDigit(s[i])
    requires |s| > 0 && s[0] != '0'
    ensures NatToDecimal(DecimalValue(s)) == s
  {
    var p := s[..|s| - 1];
    if |s| > 1 {
      DecimalValueBounds(p);
      DecimalRoundTrip(p);
      var v := DecimalValue(s);
      assert v / 10 == DecimalValue(p);
      assert v % 10 == DigitValue(s[|s| - 1]);
      assert p + [s[|s| - 1]] == s;
    }
  }

  // ---------------------------------------------------------------- strings

  /** `s.trim().isEmpty()`: `trim` drops every leading and trailing character up to U+0020. */
  predicate IsBlank(s: string)
  {
    forall i :: 0 <= i < |s| ==> s[i] <= ' '
  }

  /** `String.hashCode()`: `h = 31 * h + c` over the characters, in 32-bit arithmetic. */
  function StringHash(s: string): (r: int)
    ensures IsJavaInt(r)
  {
    if s == [] then 0 else Wrap32(31 * StringHash(s[..|s| - 1]) + s[|s| - 1] as int)
  }

  /** The text with every '-' deleted. */
  function RemoveDashes(s: string): string
  {
    if s == [] then [] else (if s[0] == '-' then [] else [s[0]]) + RemoveDashes(s[1..])
  }

  predicate NoDoubleDash(s: string)
  {
    forall i :: 0 <= i < |s| - 1 ==> !(s[i] == '-' && s[i + 1] == '-')
  }

  /**
   * `s.replace("--", "-")`: a single left-to-right scan that replaces
   * non-overlapping occurrences, so "---" becomes "--".
   */
  function CollapseDoubleDash(s: string): (r: string)
  {
    if |s| >= 2 && s[0] == '-' && s[1] == '-' then "-" + CollapseDoubleDash(s[2..])
    else if s == [] then []
    else [s[0]] + CollapseDoubleDash(s[1..])
  }

  lemma {:induction false} RemoveDashesAppend(a: string, b: string)
    ensures RemoveDashes(a + b) == RemoveDashes(a) + RemoveDashes(b)
  {
    if a == [] {
      assert a + b == b;
    } else {
      assert (a + b)[1..] == a[1..] + b;
      RemoveDashesAppend(a[1..], b);
    }
  }

  /** Collapsing "--" only deletes dashes. */
  lemma {:induction false} CollapseKeepsNonDashes(s: string)
    ensures RemoveDashes(CollapseDoubleDash(s)) == RemoveDashes(s)
  {
    if |s| >= 2 && s[0] == '-' && s[1] == '-' {
      CollapseKeepsNonDashes(s[2..]);
      assert s[1..][1..] == s[2..];
      RemoveDashesAppend("-", CollapseDoubleDash(s[2..]));
    } else if s != [] {
      CollapseKeepsNonDashes(s[1..]);
      RemoveDashesAppend([s[0]], CollapseDoubleDash(s[1..]));
    }
  }

  /** Text that has no "--" is left alone by the collapse. */
  lemma {:induction false} CollapseIdentity(s: string)
    requires NoDoubleDash(s)
    ensures CollapseDoubleDash(s) == s
  {
    if s != [] {
      CollapseIdentity(s[1..]);
    }
  }
}

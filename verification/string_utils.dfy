/** `StringUtils.removeSpacesAndPunctuations`: the normalisation applied to a phone number. */
module StringUtils {
  import opened JavaLang

  /** Keeps the letters and digits of `s`, in order, and drops everything else. */
  function RemoveSpacesAndPunctuations(s: string): (r: string)
    ensures forall i :: 0 <= i < |r| ==> IsLetterOrDigit(r[i])
    ensures |r| <= |s|
  {
    if s == [] then [] else (if IsLetterOrDigit(s[0]) then [s[0]] else []) + RemoveSpacesAndPunctuations(s[1..])
  }

  /** Number of letters and digits in `s`. */
  function CountLettersOrDigits(s: string): nat
  {
    if s == [] then 0 else (if IsLetterOrDigit(s[0]) then 1 else 0) + CountLettersOrDigits(s[1..])
  }

  /**
   * The filter works character by character: stripping a concatenation strips
   * each part, and a single character is kept exactly when it is a letter or a digit.
   * Together these determine the result: it is the input's letters and digits in their order.
   */
  lemma {:induction false} RemoveDistributes(a: string, b: string)
    ensures RemoveSpacesAndPunctuations(a + b) == RemoveSpacesAndPunctuations(a) + RemoveSpacesAndPunctuations(b)
  {
    if a == [] {
      assert a + b == b;
    } else {
      assert (a + b)[1..] == a[1..] + b;
      RemoveDistributes(a[1..], b);
    }
  }

  lemma RemoveSingle(c: char)
    ensures RemoveSpacesAndPunctuations([c]) == if IsLetterOrDigit(c) then [c] else []
  {
    assert [c][1..] == [];
  }

  /** Exactly the letters and digits survive: the output length is their count. */
  lemma {:induction false} RemoveLength(s: string)
    ensures |RemoveSpacesAndPunctuations(s)| == CountLettersOrDigits(s)
  {
    if s != [] { RemoveLength(s[1..]); }
  }

  /** Text made only of letters and digits (an all-digit number, say) comes back unchanged. */
  lemma {:induction false} RemoveKeepsAlphanumeric(s: string)
    requires forall i :: 0 <= i < |s| ==> IsLetterOrDigit(s[i])
    ensures RemoveSpacesAndPunctuations(s) == s
  {
    if s != [] {
      RemoveKeepsAlphanumeric(s[1..]);
      assert [s[0]] + s[1..] == s;
    }
  }

  /** Stripping twice is the same as stripping once. */
  lemma RemoveIdempotent(s: string)
    ensures RemoveSpacesAndPunctuations(RemoveSpacesAndPunctuations(s)) == RemoveSpacesAndPunctuations(s)
  {
    RemoveKeepsAlphanumeric(RemoveSpacesAndPunctuations(s));
  }

  /** A separator that is neither a letter nor a digit disappears between its neighbours. */
  lemma RemoveAround(a: string, sep: char, rest: string)
    requires !IsLetterOrDigit(sep)
    ensures RemoveSpacesAndPunctuations(a + [sep] + rest) == RemoveSpacesAndPunctuations(a) + RemoveSpacesAndPunctuations(rest)
  {
    RemoveDistributes(a + [sep], rest);
    RemoveDistributes(a, [sep]);
    RemoveSingle(sep);
  }

  /**
   * Blocks of digits separated by a comma, a space and a period, as in
   * "111,222 333.444", come back joined: "111222333444".
   */
  lemma RemoveSeparatedBlocks(a: string, c: string, e: string, g: string, s: string)
    requires forall i :: 0 <= i < |a| ==> IsLetterOrDigit(a[i])
    requires forall i :: 0 <= i < |c| ==> IsLetterOrDigit(c[i])
    requires forall i :: 0 <= i < |e| ==> IsLetterOrDigit(e[i])
    requires forall i :: 0 <= i < |g| ==> IsLetterOrDigit(g[i])
    requires s == a + [','] + c + [' '] + e + ['.'] + g
    ensures RemoveSpacesAndPunctuations(s) == a + c + e + g
  {
    RemoveKeepsAlphanumeric(a);
    RemoveKeepsAlphanumeric(c);
    RemoveKeepsAlphanumeric(e);
    RemoveKeepsAlphanumeric(g);
    var ac := a + [','] + c;
    RemoveAround(a, ',', c);
    var ae := ac + [' '] + e;
    RemoveAround(ac, ' ', e);
    RemoveAround(ae, '.', g);
  }
}

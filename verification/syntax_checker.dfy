/** `PhonewordSyntaxChecker`: a candidate is rejected when two digits are adjacent. */
module PhonewordSyntaxChecker {
  import opened JavaLang

  /** The characters Java's regular-expression `.` does not match. */
  predicate IsLineTerminator(c: char)
  {
    c == '\n' || c == '\r' || c == '\U{0085}' || c == '\U{2028}' || c == '\U{2029}'
  }

  predicate HasLineTerminator(s: string)
  {
    exists i :: 0 <= i < |s| && IsLineTerminator(s[i])
  }

  /** A left-to-right scan for a digit immediately followed by a digit. */
  function ScanAdjacentDigits(s: string): bool
  {
    |s| >= 2 && ((IsDigit(s[0]) && IsDigit(s[1])) || ScanAdjacentDigits(s[1..]))
  }

  predicate AdjacentDigitsAt(s: string, i: int)
  {
    0 <= i < |s| - 1 && IsDigit(s[i]) && IsDigit(s[i + 1])
  }

  /**
   * `phoneword.matches(".*\\d\\d.*")`: the whole text must match, and `.`
   * matches no line terminator, so text holding one never matches.
   */
  predicate ContainConsecutiveDigits(s: string)
  {
    !HasLineTerminator(s) && ScanAdjacentDigits(s)
  }

  predicate IsValid(s: string)
  {
    !ContainConsecutiveDigits(s)
  }

  lemma {:induction false} ScanFindsAdjacentDigits(s: string)
    ensures ScanAdjacentDigits(s) <==> exists i :: AdjacentDigitsAt(s, i)
  {
    if |s| >= 2 {
      ScanFindsAdjacentDigits(s[1..]);
      if ScanAdjacentDigits(s[1..]) {
        var i :| AdjacentDigitsAt(s[1..], i);
        assert AdjacentDigitsAt(s, i + 1);
      }
      if IsDigit(s[0]) && IsDigit(s[1]) {
        assert AdjacentDigitsAt(s, 0);
      }
      if exists i :: AdjacentDigitsAt(s, i) {
        var i :| AdjacentDigitsAt(s, i);
        if i > 0 {
          assert AdjacentDigitsAt(s[1..], i - 1);
        } else {
          assert IsDigit(s[0]) && IsDigit(s[1]);
        }
      }
    } else {
      assert forall i :: !AdjacentDigitsAt(s, i);
    }
  }

  /** On text without line terminators the check holds exactly when two digits are adjacent. */
  lemma ConsecutiveDigitsIff(s: string)
    requires !HasLineTerminator(s)
    ensures ContainConsecutiveDigits(s) <==> exists i :: AdjacentDigitsAt(s, i)
    ensures IsValid(s) <==> forall i :: 0 <= i < |s| - 1 ==> !(IsDigit(s[i]) && IsDigit(s[i + 1]))
  {
    ScanFindsAdjacentDigits(s);
    if !IsValid(s) {
      var i :| AdjacentDigitsAt(s, i);
      assert IsDigit(s[i]) && IsDigit(s[i + 1]);
    }
    if exists i :: 0 <= i < |s| - 1 && IsDigit(s[i]) && IsDigit(s[i + 1]) {
      var i :| 0 <= i < |s| - 1 && IsDigit(s[i]) && IsDigit(s[i + 1]);
      assert AdjacentDigitsAt(s, i);
    }
  }

  function CountDigits(s: string): nat
  {
    if s == [] then 0 else (if IsDigit(s[0]) then 1 else 0) + CountDigits(s[1..])
  }

  /** Text with fewer than two digits is always valid. */
  lemma {:induction false} FewDigitsValid(s: string)
    requires CountDigits(s) < 2
    ensures IsValid(s)
  {
    if |s| >= 2 {
      FewDigitsValid(s[1..]);
      if IsDigit(s[0]) {
        assert CountDigits(s[1..]) == 0;
        assert s[1..][0] == s[1];
        assert !IsDigit(s[1]);
      }
    }
  }

  /** Rejection is inherited: text containing a rejected part is rejected too. */
  lemma InvalidInfix(a: string, s: string, b: string)
    requires !IsValid(s)
    requires !HasLineTerminator(a + s + b)
    ensures !IsValid(a + s + b)
  {
    var t := a + s + b;
    ScanFindsAdjacentDigits(s);
    ScanFindsAdjacentDigits(t);
    var i :| AdjacentDigitsAt(s, i);
    assert t[|a| + i] == s[i] && t[|a| + i + 1] == s[i + 1];
    assert AdjacentDigitsAt(t, |a| + i);
  }

  /** A line terminator anywhere makes the regular expression fail, so the text passes. */
  lemma LineTerminatorPasses(s: string, i: int)
    requires 0 <= i < |s| && IsLineTerminator(s[i])
    ensures IsValid(s)
  {
  }

  /** "KITTY-1" passes: it holds a single digit. */
  lemma ValidExample(s: string)
    requires s == "KITTY-1"
    ensures IsValid(s)
  {
    FewDigitsValid("KITTY-1");
  }

  /** "KITTY-12" and "KITTY-11" are rejected: their last two characters are digits. */
  lemma InvalidExample(s: string, d: char)
    requires d == '1' || d == '2'
    requires s == "KITTY-1" + [d]
    ensures ContainConsecutiveDigits(s) && !IsValid(s)
  {
    assert forall i :: 0 <= i < |s| ==> s[i] in "KITTY-12";
    assert !HasLineTerminator(s);
    assert AdjacentDigitsAt(s, 6);
    ScanFindsAdjacentDigits(s);
  }
}

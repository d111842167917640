/**
 * `PhoneWordEncoder`: a word becomes the number whose decimal digits are the
 * keypad digits of its letters, leftmost letter most significant, computed
 * in Java `int` arithmetic.
 */
module PhoneWordEncoder {
  import opened Wrappers
  import opened JavaLang

  /** The table that `initDictionaryMap` fills, as a lookup: `None` where `dictionary.get(c)` is null. */
  function KeypadCode(c: char): Option<int>
  {
    if 'a' <= c <= 'c' then Some(2)
    else if 'd' <= c <= 'f' then Some(3)
    else if 'g' <= c <= 'i' then Some(4)
    else if 'j' <= c <= 'l' then Some(5)
    else if 'm' <= c <= 'o' then Some(6)
    else if 'p' <= c <= 's' then Some(7)
    else if 't' <= c <= 'v' then Some(8)
    else if 'w' <= c <= 'z' then Some(9)
    else None
  }

  /** `UnknownCharacterException`, carrying the character the table lacks. */
  datatype EncodeError = UnknownCharacter(c: char)

  /** The table covers exactly a..z, and every key is a digit 2..9. */
  lemma KeypadTable(c: char)
    ensures KeypadCode(c).Some? <==> IsLower(c)
    ensures KeypadCode(c).Some? ==> 2 <= KeypadCode(c).value <= 9
  {
  }

  /**
   * The loop of `encode` over already lower-cased text: `result = 10 * result + code`
   * for each character from the left, failing at the first character the table lacks.
   */
  function Accumulate(w: string): Result<int, EncodeError>
  {
    if w == [] then Success(0)
    else match Accumulate(w[..|w| - 1])
      case Failure(e) => Failure(e)
      case Success(r) =>
        var c := w[|w| - 1];
        match KeypadCode(c)
        case Some(code) => Success(Wrap32(10 * r + code))
        case None => Failure(UnknownCharacter(c))
  }

  /** What `encode(word)` returns or throws. */
  function Encoding(word: string): Result<int, EncodeError>
  {
    Accumulate(ToLowerCase(word))
  }

  /** `encode`: lower-case the word, then fold the table over it. */
  method Encode(originalWord: string) returns (r: Result<int, EncodeError>)
    ensures r == Encoding(originalWord)
    ensures r.Success? ==> IsJavaInt(r.value)
  {
    var word := ToLowerCase(originalWord);
    var result := 0;
    var i := 0;
    while i < |word|
      invariant 0 <= i <= |word|
      invariant Accumulate(word[..i]) == Success(result)
      invariant IsJavaInt(result)
    {
      var c := word[i];
      var code := KeypadCode(c);
      if code.None? {
        PrefixFails(word, i, result, c);
        return Failure(UnknownCharacter(c));
      }
      PrefixGrows(word, i, result, code.value);
      result := Wrap32(10 * result + code.value);
      i := i + 1;
    }
    assert word[..i] == word;
    r := Success(result);
  }

  /** One more character of the table: the loop's next value is the accumulated value of the longer prefix. */
  lemma PrefixGrows(word: string, i: nat, result: int, code: int)
    requires i < |word| && Accumulate(word[..i]) == Success(result)
    requires KeypadCode(word[i]) == Some(code)
    ensures Accumulate(word[..i + 1]) == Success(Wrap32(10 * result + code))
  {
    assert word[..i + 1][..i] == word[..i];
  }

  /** A character the table lacks: the whole word fails with it. */
  lemma PrefixFails(word: string, i: nat, result: int, c: char)
    requires i < |word| && Accumulate(word[..i]) == Success(result)
    requires c == word[i] && KeypadCode(c).None?
    ensures Accumulate(word) == Failure(UnknownCharacter(c))
  {
    assert word[..i + 1][..i] == word[..i];
    FailureSticks(word, i + 1, UnknownCharacter(c));
  }

  /** Once a prefix fails, every longer prefix fails with the same error. */
  lemma {:induction false} FailureSticks(w: string, k: nat, e: EncodeError)
    requires k <= |w|
    requires Accumulate(w[..k]) == Failure(e)
    ensures Accumulate(w) == Failure(e)
    decreases |w| - k
  {
    if k < |w| {
      assert w[..k + 1][..k] == w[..k];
      FailureSticks(w, k + 1, e);
    } else {
      assert w[..k] == w;
    }
  }

  /** Encoding fails exactly when some character, lower-cased, is not a letter a..z. */
  lemma {:induction false} AccumulateFailsIff(w: string)
    ensures Accumulate(w).Failure? <==> exists i :: 0 <= i < |w| && !IsLower(w[i])
  {
    if w != [] {
      var p := w[..|w| - 1];
      AccumulateFailsIff(p);
      if exists i :: 0 <= i < |p| && !IsLower(p[i]) {
        var i :| 0 <= i < |p| && !IsLower(p[i]);
        assert w[i] == p[i];
      }
      if exists i :: 0 <= i < |w| && !IsLower(w[i]) {
        var i :| 0 <= i < |w| && !IsLower(w[i]);
        if i < |p| { assert p[i] == w[i]; }
      }
    }
  }

  lemma EncodingFailsIff(word: string)
    ensures Encoding(word).Failure? <==> exists i :: 0 <= i < |word| && !IsLetter(word[i])
  {
    var w := ToLowerCase(word);
    AccumulateFailsIff(w);
    forall i | 0 <= i < |word| ensures IsLower(w[i]) <==> IsLetter(word[i]) {
      ToLowerCaseAt(word, i);
    }
    if exists i :: 0 <= i < |word| && !IsLetter(word[i]) {
      var i :| 0 <= i < |word| && !IsLetter(word[i]);
      assert !IsLower(w[i]);
    }
    if exists i :: 0 <= i < |w| && !IsLower(w[i]) {
      var i :| 0 <= i < |w| && !IsLower(w[i]);
      assert !IsLetter(word[i]);
    }
  }

  lemma {:induction false} LowerIdempotent(s: string)
    ensures ToLowerCase(ToLowerCase(s)) == ToLowerCase(s)
  {
    if s != [] { LowerIdempotent(s[1..]); }
  }

  /** Case does not matter: a word and its lower-case form encode alike (and so does its upper-case form). */
  lemma {:induction false} EncodingCaseInsensitive(word: string)
    ensures Encoding(word) == Encoding(ToLowerCase(word))
    ensures Encoding(ToUpperCase(word)) == Encoding(word)
  {
    LowerIdempotent(word);
    LowerOfUpper(word);
  }

  lemma {:induction false} LowerOfUpper(s: string)
    ensures ToLowerCase(ToUpperCase(s)) == ToLowerCase(s)
  {
    if s != [] { LowerOfUpper(s[1..]); }
  }

  /** The empty word encodes to 0. */
  lemma EmptyEncodesToZero()
    ensures Encoding("") == Success(0)
  {
  }

  // ---------------------------------------------------------------- the digits of a word

  function KeypadDigitChar(c: char): char
    requires IsLetter(c)
  {
    DigitChar(KeypadCode(ToLowerChar(c)).value)
  }

  /** The keypad digits of a word's letters, one per letter, as text. */
  function KeypadDigits(word: string): (r: string)
    requires forall i :: 0 <= i < |word| ==> IsLetter(word[i])
    ensures |r| == |word|
    ensures forall i :: 0 <= i < |r| ==> '2' <= r[i] <= '9'
  {
    if word == [] then [] else KeypadDigits(word[..|word| - 1]) + [KeypadDigitChar(word[|word| - 1])]
  }

  /** Without wrap-around, the accumulated number is the value of the digit text. */
  lemma {:induction false} AccumulateIsDecimal(w: string)
    requires forall i :: 0 <= i < |w| ==> IsLower(w[i])
    requires |w| <= 9
    ensures Accumulate(w) == Success(DecimalValue(KeypadDigits(w)))
  {
    if w != [] {
      var p := w[..|w| - 1];
      AccumulateIsDecimal(p);
      var v := DecimalValue(KeypadDigits(p));
      EightDigitsAtMost(p, v);
      DecimalStep(w, p, v);
    }
  }

  /** The digit text of at most eight letters stays below `10^8`. */
  lemma EightDigitsAtMost(p: string, v: int)
    requires forall i :: 0 <= i < |p| ==> IsLetter(p[i])
    requires |p| <= 8 && v == DecimalValue(KeypadDigits(p))
    ensures v < 100_000_000
  {
    if p != [] {
      DecimalValueBounds(KeypadDigits(p));
      Pow10Mono(|p|, 8);
      Pow10Eight();
    }
  }

  lemma Pow10Eight()
    ensures Pow10(8) == 100_000_000
  {
    assert Pow10(4) == 10_000;
  }

  /** The step of the induction: one more letter keeps the accumulated value and the digit text's value equal. */
  lemma DecimalStep(w: string, p: string, v: int)
    requires forall i :: 0 <= i < |w| ==> IsLower(w[i])
    requires w != [] && p == w[..|w| - 1]
    requires v == DecimalValue(KeypadDigits(p))
    requires Accumulate(p) == Success(v) && v < 100_000_000
    ensures Accumulate(w) == Success(DecimalValue(KeypadDigits(w)))
  {
    var c := w[|w| - 1];
    LowerKeypad(c);
    var d := KeypadCode(c).value;
    DecimalOfLast(w, p, c, v, d);
    AccumulateStep(w, p, c, v, d, DecimalValue(KeypadDigits(w)));
  }

  /** One more letter: the accumulated value times ten plus the letter's key, wrapped. */
  lemma AccumulateStep(w: string, p: string, c: char, v: int, d: int, n: int)
    requires w != [] && p == w[..|w| - 1] && c == w[|w| - 1]
    requires Accumulate(p) == Success(v) && KeypadCode(c) == Some(d)
    requires n == 10 * v + d && IsJavaInt(n)
    ensures Accumulate(w) == Success(n)
  {
  }

  /** A lower-case letter has a key 2..9, and its digit character reads back as that key. */
  lemma LowerKeypad(c: char)
    requires IsLower(c)
    ensures KeypadCode(c).Some? && 2 <= KeypadCode(c).value <= 9
    ensures ToLowerChar(c) == c
    ensures DigitValue(KeypadDigitChar(c)) == KeypadCode(c).value
  {
  }

  lemma DecimalOfLast(w: string, p: string, c: char, v: int, d: int)
    requires forall i :: 0 <= i < |w| ==> IsLetter(w[i])
    requires w != [] && p == w[..|w| - 1] && c == w[|w| - 1]
    requires v == DecimalValue(KeypadDigits(p)) && d == DigitValue(KeypadDigitChar(c))
    ensures DecimalValue(KeypadDigits(w)) == 10 * v + d
  {
    var ds := KeypadDigits(w);
    assert ds[..|ds| - 1] == KeypadDigits(p);
  }

  lemma {:induction false} Pow10Mono(a: nat, b: nat)
    requires a <= b
    ensures Pow10(a) <= Pow10(b)
    decreases b
  {
    if a < b { Pow10Mono(a, b - 1); }
  }

  /**
   * For words of at most 9 letters no overflow happens: `encode(word) + ""` is
   * the concatenation of the letters' keypad digits, one digit 2..9 per letter.
   */
  lemma ShortWordEncoding(word: string)
    requires forall i :: 0 <= i < |word| ==> IsLetter(word[i])
    requires 0 < |word| <= 9
    ensures Encoding(word).Success?
    ensures IntToString(Encoding(word).value) == KeypadDigits(word)
  {
    EncodingIsDecimal(word);
    KeypadDigitsRoundTrip(word);
  }

  /** Without wrap-around, the code of a word is the value of its digit text. */
  lemma EncodingIsDecimal(word: string)
    requires forall i :: 0 <= i < |word| ==> IsLetter(word[i])
    requires |word| <= 9
    ensures Encoding(word) == Success(DecimalValue(KeypadDigits(word)))
  {
    LowerDigits(word);
    AccumulateIsDecimal(ToLowerCase(word));
  }

  /** The digit text of a non-empty word has no leading zero, so it reads back unchanged. */
  lemma KeypadDigitsRoundTrip(word: string)
    requires forall i :: 0 <= i < |word| ==> IsLetter(word[i])
    requires 0 < |word|
    ensures NatToDecimal(DecimalValue(KeypadDigits(word))) == KeypadDigits(word)
  {
    DecimalRoundTrip(KeypadDigits(word));
  }

  lemma {:induction false} LowerDigits(word: string)
    requires forall i :: 0 <= i < |word| ==> IsLetter(word[i])
    ensures forall i :: 0 <= i < |word| ==> IsLower(ToLowerCase(word)[i])
    ensures KeypadDigits(ToLowerCase(word)) == KeypadDigits(word)
  {
    var w := ToLowerCase(word);
    forall i | 0 <= i < |word| ensures IsLower(w[i]) && ToLowerChar(w[i]) == ToLowerChar(word[i]) {
      ToLowerCaseAt(word, i);
    }
    KeypadDigitsPointwise(w, word);
  }

  lemma {:induction false} KeypadDigitsPointwise(a: string, b: string)
    requires |a| == |b|
    requires forall i :: 0 <= i < |a| ==> IsLetter(a[i]) && IsLetter(b[i]) && ToLowerChar(a[i]) == ToLowerChar(b[i])
    ensures KeypadDigits(a) == KeypadDigits(b)
  {
    if a != [] { KeypadDigitsPointwise(a[..|a| - 1], b[..|b| - 1]); }
  }

  /** KITTY encodes to 54889 and Hello to 43556. */
  lemma EncodingExamples()
    ensures Encoding("KITTY") == Success(54889)
    ensures Encoding("Hello") == Success(43556)
  {
    KittyExample();
    HelloExample();
  }

  lemma KittyExample()
    ensures Encoding("KITTY") == Success(54889)
  {
    var w := "kitty";
    assert ToLowerCase("KITTY") == w;
    assert w[..4] == "kitt" && w[..4][..3] == "kit" && w[..4][..3][..2] == "ki" && w[..4][..3][..2][..1] == "k";
    assert Accumulate("k") == Success(5);
    assert Accumulate("ki") == Success(54);
    assert Accumulate("kit") == Success(548);
    assert Accumulate("kitt") == Success(5488);
  }

  lemma HelloExample()
    ensures Encoding("Hello") == Success(43556)
  {
    var w := "hello";
    assert ToLowerCase("Hello") == w;
    assert w[..4] == "hell" && w[..4][..3] == "hel" && w[..4][..3][..2] == "he" && w[..4][..3][..2][..1] == "h";
    assert Accumulate("h") == Success(4);
    assert Accumulate("he") == Success(43);
    assert Accumulate("hel") == Success(435);
    assert Accumulate("hell") == Success(4355);
  }
}

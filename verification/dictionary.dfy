/**
 * The current dictionary (`phoneword/components/DefaultPhoneWordDictionary`):
 * a map from encoded numbers to the upper-cased words with that code and the
 * length of the shortest word, both updated in place by `addNewWord`. Looking
 * up a phone number finds the key runs, groups them into valid patterns and
 * concatenates the words every pattern yields, in pattern order.
 */
module CurrentDictionary {
  import opened Wrappers
  import opened JavaLang
  import opened SubStrings
  import opened Lexicon
  import opened PhoneWordEncoder
  import opened SubStringSearch
  import opened Grouping
  import opened Expansion
  import opened Construction
  import PhonewordSyntaxChecker

  // ---------------------------------------------------------------- specification

  /** `importFromFile` on values: every line offered to `addNewWord` in order, refused lines changing nothing. */
  function AddWords(s: State, lines: seq<Option<string>>): State
  {
    if lines == [] then s
    else
      var before := AddWords(s, lines[..|lines| - 1]);
      match AddWord(before, lines[|lines| - 1])
      case Some(after) => after
      case None => before
  }

  /** Importing any lines into a well-formed dictionary leaves it well formed. */
  lemma {:induction false} AddWordsKeepsWellFormed(s: State, lines: seq<Option<string>>)
    requires WellFormed(s)
    ensures WellFormed(AddWords(s, lines))
  {
    if lines != [] {
      var before := AddWords(s, lines[..|lines| - 1]);
      AddWordsKeepsWellFormed(s, lines[..|lines| - 1]);
      if AddWord(before, lines[|lines| - 1]).Some? {
        AddWordKeepsWellFormed(before, lines[|lines| - 1]);
      }
    }
  }

  /** The runs found in a well-formed dictionary of short words yield patterns that all fit the expansion. */
  lemma FoundPatternsFit(s: State, number: string)
    requires WellFormed(s) && ShortWords(s.buckets)
    ensures s.shortest >= 0
    ensures AllFit(s.buckets, number, ValidPatterns(AllRuns(s.buckets, number, s.shortest as nat)))
  {
    var runs := AllRuns(s.buckets, number, s.shortest as nat);
    var ps := ValidPatterns(runs);
    AllRunsSound(s.buckets, number, s.shortest as nat);
    AllRunsDistinct(s.buckets, number, s.shortest as nat);
    forall k | 0 <= k < |ps| ensures Fits(s.buckets, number, ps[k]) {
      ValidPatternMembers(runs, ps[k]);
      PatternOfRunsFits(s, number, runs, ps[k]);
    }
  }

  /** `findPhonewords` on values: the words of the valid patterns of the found runs, in pattern order. */
  function Phonewords(s: State, number: string): seq<string>
    requires WellFormed(s) && ShortWords(s.buckets)
  {
    FoundPatternsFit(s, number);
    WordsOfPatterns(s.buckets, number, ValidPatterns(AllRuns(s.buckets, number, s.shortest as nat)))
  }

  /** A number shorter than the shortest word has no phonewords. */
  lemma ShortNumberHasNoWords(s: State, number: string)
    requires WellFormed(s) && ShortWords(s.buckets)
    requires |number| < s.shortest
    ensures Phonewords(s, number) == []
  {
    assert AllRuns(s.buckets, number, s.shortest as nat) == [];
    assert Candidates([]) == [];
    assert ValidPatterns([]) == [];
    var ps: seq<seq<SubString>> := [];
    assert AllPatternWords(s.buckets, number, ps) == [];
  }

  /**
   * Every phoneword comes from a valid pattern of the found runs and a row of
   * its expansion with no two adjacent digits; deleting its dashes gives that
   * row back.
   */
  lemma PhonewordsSound(s: State, number: string, w: string)
    requires WellFormed(s) && ShortWords(s.buckets)
    requires w in Phonewords(s, number)
    ensures s.shortest >= 0
    ensures exists p, i ::
      && p in ValidPatterns(AllRuns(s.buckets, number, s.shortest as nat))
      && Fits(s.buckets, number, p)
      && 0 <= i < Product(s.buckets, p)
      && PhonewordSyntaxChecker.IsValid(Row(s.buckets, number, p, |p|, i))
      && RemoveDashes(w) == RemoveDashes(Row(s.buckets, number, p, |p|, i))
  {
    FoundPatternsFit(s, number);
    var ps := ValidPatterns(AllRuns(s.buckets, number, s.shortest as nat));
    var all := AllPatternWords(s.buckets, number, ps);
    var k := FlattenFrom(all, w);
    var p := ps[k];
    PatternWordsAreValidRows(s.buckets, number, p, w);
  }

  /** Every row with no two adjacent digits of every valid pattern of the found runs is returned, formatted inline. */
  lemma PhonewordsComplete(s: State, number: string, p: seq<SubString>, i: nat)
    requires WellFormed(s) && ShortWords(s.buckets)
    requires s.shortest >= 0 && p in ValidPatterns(AllRuns(s.buckets, number, s.shortest as nat))
    requires Fits(s.buckets, number, p) && i < Product(s.buckets, p)
    requires PhonewordSyntaxChecker.IsValid(Row(s.buckets, number, p, |p|, i))
    ensures Formatter.InRange(Row(s.buckets, number, p, |p|, i), p)
    ensures InlineFormat.InlineFormatSpec(Row(s.buckets, number, p, |p|, i), p) in Phonewords(s, number)
  {
    var row := Row(s.buckets, number, p, |p|, i);
    FitsInRange(s.buckets, number, p, row);
    FoundPatternsFit(s, number);
    var ps := ValidPatterns(AllRuns(s.buckets, number, s.shortest as nat));
    var k :| 0 <= k < |ps| && ps[k] == p;
    var w := InlineFormat.InlineFormatSpec(row, p);
    assert w in RowWords(s.buckets, number, p, i);
    FlattenHas(AllRowWords(s.buckets, number, p), i, w);
    FlattenHas(AllPatternWords(s.buckets, number, ps), k, w);
  }

  // ---------------------------------------------------------------- the class

  class DefaultPhoneWordDictionary {
    /** Key is the encoded number, value the words with that code in insertion order. */
    var dictionary: Buckets
    /** The length of the shortest word added, 0 while there is none. */
    var shortestWordLength: int

    function Contents(): State
      reads this
    {
      State(dictionary, shortestWordLength)
    }

    constructor ()
      ensures dictionary == map[] && shortestWordLength == 0
      ensures WellFormed(Contents())
    {
      dictionary := map[];
      shortestWordLength := 0;
    }

    /**
     * Refuses null, empty and unencodable words, changing nothing; otherwise
     * appends the upper-cased word to the bucket of its code, which `contains`
     * then finds, and lowers the shortest length as needed.
     */
    method AddNewWord(word: Option<string>) returns (added: bool)
      modifies this
      ensures added <==> AddWord(old(Contents()), word).Some?
      ensures Contents() == if added then AddWord(old(Contents()), word).value else old(Contents())
      ensures added ==> EncodedKey(word.value).Some? && Contains(EncodedKey(word.value).value)
      ensures WellFormed(old(Contents())) ==> WellFormed(Contents())
    {
      ghost var s0 := Contents();
      if word.None? || word.value == [] {
        return false;
      }
      var upper := ToUpperCase(word.value);
      var code := Encode(upper);
      if code.Failure? {
        return false;
      }
      var encoded := IntToString(code.value);
      if encoded !in dictionary {
        assert [] + [upper] == [upper];
        dictionary := dictionary[encoded := [upper]];
      } else {
        var words := dictionary[encoded];
        dictionary := dictionary[encoded := words + [upper]];
      }
      if GetShortestWordLength() == 0 {
        SetShortestWordLength(|upper|);
      } else if |upper| < shortestWordLength {
        SetShortestWordLength(|upper|);
      }
      added := true;
      assert EncodedKey(upper) == Some(encoded);
      assert dictionary == AppendWord(s0.buckets, encoded, upper);
      assert shortestWordLength == NextShortest(s0.shortest, |upper|);
      AddWordEffect(s0, word);
      if WellFormed(s0) {
        AddWordKeepsWellFormed(s0, word);
      }
    }

    /** Whether `encodedNumber` is the code of some stored word. */
    predicate Contains(encodedNumber: string)
      reads this
    {
      encodedNumber in dictionary
    }

    /** `importFromFile` without the file: `addNewWord` on every line, in order. */
    method ImportLines(lines: seq<Option<string>>)
      modifies this
      ensures Contents() == AddWords(old(Contents()), lines)
    {
      var k := 0;
      ghost var s0 := Contents();
      while k < |lines|
        invariant 0 <= k <= |lines|
        invariant Contents() == AddWords(s0, lines[..k])
      {
        assert lines[..k + 1][..k] == lines[..k];
        var _ := AddNewWord(lines[k]);
        k := k + 1;
      }
      assert lines[..k] == lines;
    }

    method SetShortestWordLength(length: int)
      modifies this
      ensures shortestWordLength == length && dictionary == old(dictionary)
    {
      shortestWordLength := length;
    }

    function GetShortestWordLength(): int
      reads this
    {
      shortestWordLength
    }

    /** `findAllPossibleSubStrings` over the stored keys and the current shortest length. */
    method FindAllPossibleSubStrings(originalPhoneNumber: string) returns (result: seq<SubString>)
      requires shortestWordLength >= 0
      ensures result == AllRuns(dictionary, originalPhoneNumber, shortestWordLength as nat)
    {
      result := FindAll(dictionary, originalPhoneNumber, shortestWordLength as nat);
    }

    /** `findPhonewords`: runs, then valid patterns, then the words of every pattern concatenated. */
    method FindPhonewords(phoneNumber: string) returns (possibleWords: seq<string>)
      requires WellFormed(Contents()) && ShortWords(dictionary)
      ensures possibleWords == Phonewords(Contents(), phoneNumber)
    {
      FoundPatternsFit(Contents(), phoneNumber);
      var subStrings := FindAllPossibleSubStrings(phoneNumber);
      var patterns := FindAllValidPatterns(subStrings);
      possibleWords := ConcatWords(dictionary, phoneNumber, patterns);
    }
  }
}

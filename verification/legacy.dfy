/**
 * The superseded dictionary (`services/DefaultPhoneWordDictionary`). It
 * stores words and finds runs exactly as the current one does, but it groups
 * the runs with an order-blind duplicate test, and `constructPossibleWords`
 * groups the members of every group it is given once more before expanding,
 * so every sub-group of a group is expanded again.
 */
module LegacyDictionary {
  import opened Wrappers
  import opened JavaLang
  import opened SubStrings
  import opened Lexicon
  import opened PhoneWordEncoder
  import opened SubStringSearch
  import opened Grouping
  import opened Expansion
  import opened Construction

  // ---------------------------------------------------------------- specification

  /** The groups of a group all fit when its members do. */
  lemma GroupsFit(b: Buckets, number: string, group: seq<SubString>)
    requires Fits(b, number, group)
    ensures AllFit(b, number, ValidGroups(group))
  {
    var gs := ValidGroups(group);
    forall k | 0 <= k < |gs| ensures Fits(b, number, gs[k]) {
      ValidGroupsDrawnFrom(group, gs[k]);
      forall m | 0 <= m < |gs[k]| ensures MemberFits(b, number, gs[k][m]) {
        assert gs[k][m] in group;
      }
    }
  }

  /** `constructPossibleWords` on values: the group regrouped, then the words of every sub-group in order. */
  function GroupWords(b: Buckets, number: string, group: seq<SubString>): seq<string>
    requires Fits(b, number, group)
  {
    GroupsFit(b, number, group);
    WordsOfPatterns(b, number, ValidGroups(group))
  }

  /** The groups of the found runs fit the expansion. */
  lemma FoundGroupsFit(s: State, number: string)
    requires WellFormed(s) && ShortWords(s.buckets)
    ensures s.shortest >= 0
    ensures AllFit(s.buckets, number, ValidGroups(AllRuns(s.buckets, number, s.shortest as nat)))
  {
    var runs := AllRuns(s.buckets, number, s.shortest as nat);
    var gs := ValidGroups(runs);
    AllRunsSound(s.buckets, number, s.shortest as nat);
    forall k | 0 <= k < |gs| ensures Fits(s.buckets, number, gs[k]) {
      ValidGroupsDrawnFrom(runs, gs[k]);
      PatternOfRunsFits(s, number, runs, gs[k]);
    }
  }

  /** What every group of the found runs yields, in group order. */
  function AllGroupWords(s: State, number: string): (r: seq<seq<string>>)
    requires WellFormed(s) && ShortWords(s.buckets)
    ensures s.shortest >= 0
    ensures |r| == |ValidGroups(AllRuns(s.buckets, number, s.shortest as nat))|
    ensures forall k :: 0 <= k < |r| ==>
      var g := ValidGroups(AllRuns(s.buckets, number, s.shortest as nat))[k];
      Fits(s.buckets, number, g) && r[k] == GroupWords(s.buckets, number, g)
  {
    FoundGroupsFit(s, number);
    var gs := ValidGroups(AllRuns(s.buckets, number, s.shortest as nat));
    seq(|gs|, k requires 0 <= k < |gs| => GroupWords(s.buckets, number, gs[k]))
  }

  /** `findPhonewords` on values: the words of every group of the found runs, concatenated in group order. */
  function Phonewords(s: State, number: string): seq<string>
    requires WellFormed(s) && ShortWords(s.buckets)
  {
    Flatten(AllGroupWords(s, number))
  }

  /** Every word returned comes from a sub-group of a group of the found runs: the groups are grouped a second time. */
  lemma PhonewordsSound(s: State, number: string, w: string) returns (g: seq<SubString>, h: seq<SubString>)
    requires WellFormed(s) && ShortWords(s.buckets)
    requires w in Phonewords(s, number)
    ensures s.shortest >= 0
    ensures g in ValidGroups(AllRuns(s.buckets, number, s.shortest as nat))
    ensures Fits(s.buckets, number, g) && h in ValidGroups(g)
    ensures Fits(s.buckets, number, h) && w in PatternWords(s.buckets, number, h)
  {
    FoundGroupsFit(s, number);
    var gs := ValidGroups(AllRuns(s.buckets, number, s.shortest as nat));
    var k := FlattenFrom(AllGroupWords(s, number), w);
    g := gs[k];
    GroupsFit(s.buckets, number, g);
    var hs := ValidGroups(g);
    var l := FlattenFrom(AllPatternWords(s.buckets, number, hs), w);
    h := hs[l];
  }

  /** Every word of every sub-group of every group of the found runs is returned. */
  lemma PhonewordsComplete(s: State, number: string, g: seq<SubString>, h: seq<SubString>, w: string)
    requires WellFormed(s) && ShortWords(s.buckets)
    requires s.shortest >= 0 && g in ValidGroups(AllRuns(s.buckets, number, s.shortest as nat))
    requires h in ValidGroups(g) && Fits(s.buckets, number, h)
    requires w in PatternWords(s.buckets, number, h)
    ensures w in Phonewords(s, number)
  {
    FoundGroupsFit(s, number);
    var gs := ValidGroups(AllRuns(s.buckets, number, s.shortest as nat));
    var k :| 0 <= k < |gs| && gs[k] == g;
    GroupsFit(s.buckets, number, g);
    var hs := ValidGroups(g);
    var l :| 0 <= l < |hs| && hs[l] == h;
    FlattenHas(AllPatternWords(s.buckets, number, hs), l, w);
    FlattenHas(AllGroupWords(s, number), k, w);
  }

  /**
   * Regrouping a group of distinct runs expands each of its members on its
   * own again: the sub-groups start with one singleton per member, in order.
   */
  lemma RegroupStartsWithSingletons(b: Buckets, number: string, group: seq<SubString>)
    requires Fits(b, number, group) && Distinct(group)
    ensures |ValidGroups(group)| >= |group|
    ensures forall m :: 0 <= m < |group| ==> ValidGroups(group)[m] == [group[m]]
  {
    ValidGroupsStartWithSingletons(group);
    forall m | 0 <= m < |group| ensures ValidGroups(group)[m] == [group[m]] {
      assert ValidGroups(group)[..|group|][m] == Singletons(group)[m];
    }
  }

  // ---------------------------------------------------------------- the class

  class DefaultPhoneWordDictionary {
    /** Key is the encoded number, value the words with that code in insertion order. */
    var dictionary: Buckets
    /** The length of the shortest word added, 0 while there is none. */
    var shortestWordLength: int

    function Contents(): State
      reads this
    {
      State(dictionary, shortestWordLength)
    }

    constructor ()
      ensures dictionary == map[] && shortestWordLength == 0
      ensures WellFormed(Contents())
    {
      dictionary := map[];
      shortestWordLength := 0;
    }

    /** The same update as the current dictionary's: refused words change nothing. */
    method AddNewWord(word: Option<string>) returns (added: bool)
      modifies this
      ensures added <==> AddWord(old(Contents()), word).Some?
      ensures Contents() == if added then AddWord(old(Contents()), word).value else old(Contents())
      ensures added ==> EncodedKey(word.value).Some? && Contains(EncodedKey(word.value).value)
      ensures WellFormed(old(Contents())) ==> WellFormed(Contents())
    {
      ghost var s0 := Contents();
      if word.None? || word.value == [] {
        return false;
      }
      var upper := ToUpperCase(word.value);
      var code := Encode(upper);
      if code.Failure? {
        return false;
      }
      var encoded := IntToString(code.value);
      if encoded !in dictionary {
        assert [] + [upper] == [upper];
        dictionary := dictionary[encoded := [upper]];
      } else {
        var words := dictionary[encoded];
        dictionary := dictionary[encoded := words + [upper]];
      }
      if GetShortestWordLength() == 0 {
        SetShortestWordLength(|upper|);
      } else if |upper| < shortestWordLength {
        SetShortestWordLength(|upper|);
      }
      added := true;
      assert EncodedKey(upper) == Some(encoded);
      assert dictionary == AppendWord(s0.buckets, encoded, upper);
      assert shortestWordLength == NextShortest(s0.shortest, |upper|);
      AddWordEffect(s0, word);
      if WellFormed(s0) {
        AddWordKeepsWellFormed(s0, word);
      }
    }

    predicate Contains(encodedNumber: string)
      reads this
    {
      encodedNumber in dictionary
    }

    method SetShortestWordLength(length: int)
      modifies this
      ensures shortestWordLength == length && dictionary == old(dictionary)
    {
      shortestWordLength := length;
    }

    function GetShortestWordLength(): int
      reads this
    {
      shortestWordLength
    }

    /** `findAllPossibleWords`: the same search as the current dictionary's. */
    method FindAllPossibleWords(encodedOriginalString: string) returns (result: seq<SubString>)
      requires shortestWordLength >= 0
      ensures result == AllRuns(dictionary, encodedOriginalString, shortestWordLength as nat)
    {
      result := FindAll(dictionary, encodedOriginalString, shortestWordLength as nat);
    }

    /** `constructPossibleWords`: the group is grouped again and every sub-group expanded, filtered and formatted. */
    method ConstructPossibleWords(originalEncodedString: string, subStrings: seq<SubString>) returns (possibleWords: seq<string>)
      requires Fits(dictionary, originalEncodedString, subStrings)
      ensures possibleWords == GroupWords(dictionary, originalEncodedString, subStrings)
    {
      GroupsFit(dictionary, originalEncodedString, subStrings);
      var groupOfPossibleWords := GroupPossibleEncodedString(subStrings);
      possibleWords := ConcatWords(dictionary, originalEncodedString, groupOfPossibleWords);
    }

    /** `findPhonewords`: runs, then groups, then `constructPossibleWords` on every group, concatenated. */
    method FindPhonewords(encodedNumber: string) returns (possibleWords: seq<string>)
      requires WellFormed(Contents()) && ShortWords(dictionary)
      ensures possibleWords == Phonewords(Contents(), encodedNumber)
    {
      var subStrings := FindAllPossibleWords(encodedNumber);
      var groupsOfPossibleWords := GroupPossibleEncodedString(subStrings);
      ghost var all := AllGroupWords(Contents(), encodedNumber);
      possibleWords := [];
      var k := 0;
      while k < |groupsOfPossibleWords|
        invariant 0 <= k <= |groupsOfPossibleWords|
        invariant possibleWords == Flatten(all[..k])
      {
        FlattenStep(all, k);
        var possibleWordsInGroup := ConstructPossibleWords(encodedNumber, groupsOfPossibleWords[k]);
        possibleWords := possibleWords + possibleWordsInGroup;
        k := k + 1;
      }
      assert all[..k] == all;
    }
  }
}

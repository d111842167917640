/**
 * From patterns to phonewords, shared by both dictionaries: a pattern's
 * rows are expanded, the rows with two adjacent digits are dropped, and the
 * rest are dash-formatted inline; the words of several patterns are
 * concatenated in pattern order.
 */
module Construction {
  import opened JavaLang
  import opened SubStrings
  import opened Patterns
  import opened Lexicon
  import opened SubStringSearch
  import opened Grouping
  import opened Expansion
  import opened InlineFormat
  import Formatter
  import PhonewordSyntaxChecker

  /** Every row is as long as the number, so every member's run lies inside it. */
  lemma FitsInRange(b: Buckets, number: string, p: seq<SubString>, row: string)
    requires Fits(b, number, p) && |row| == |number|
    ensures Formatter.InRange(row, p)
  {
  }

  /** What row `i` contributes: its inline formatting when it has no two adjacent digits, else nothing. */
  function RowWords(b: Buckets, number: string, p: seq<SubString>, i: nat): (r: seq<string>)
    requires Fits(b, number, p)
    ensures |r| <= 1
  {
    var row := Row(b, number, p, |p|, i);
    FitsInRange(b, number, p, row);
    if PhonewordSyntaxChecker.IsValid(row) then [InlineFormatSpec(row, p)] else []
  }

  /** Lists joined in order. */
  function Flatten<T>(ss: seq<seq<T>>): seq<T>
  {
    if ss == [] then [] else Flatten(ss[..|ss| - 1]) + ss[|ss| - 1]
  }

  lemma {:induction false} FlattenHas<T>(ss: seq<seq<T>>, i: nat, w: T)
    requires i < |ss| && w in ss[i]
    ensures w in Flatten(ss)
  {
    if i < |ss| - 1 {
      var init := ss[..|ss| - 1];
      assert init[i] == ss[i];
      FlattenHas(init, i, w);
    }
  }

  lemma {:induction false} FlattenFrom<T>(ss: seq<seq<T>>, w: T) returns (i: nat)
    requires w in Flatten(ss)
    ensures i < |ss| && w in ss[i]
  {
    var init := ss[..|ss| - 1];
    if w in Flatten(init) {
      i := FlattenFrom(init, w);
      assert init[i] == ss[i];
    } else {
      i := |ss| - 1;
    }
  }

  lemma {:induction false} FlattenAtMostOne<T>(ss: seq<seq<T>>)
    requires forall i :: 0 <= i < |ss| ==> |ss[i]| <= 1
    ensures |Flatten(ss)| <= |ss|
  {
    if ss != [] {
      FlattenAtMostOne(ss[..|ss| - 1]);
    }
  }

  lemma FlattenStep<T>(ss: seq<seq<T>>, i: nat)
    requires i < |ss|
    ensures Flatten(ss[..i + 1]) == Flatten(ss[..i]) + ss[i]
  {
    assert ss[..i + 1][..i] == ss[..i];
  }

  /** What every row contributes, in row order. */
  function AllRowWords(b: Buckets, number: string, p: seq<SubString>): (r: seq<seq<string>>)
    requires Fits(b, number, p)
    ensures |r| == Product(b, p)
    ensures forall i :: 0 <= i < |r| ==> r[i] == RowWords(b, number, p, i)
  {
    seq(Product(b, p), i requires 0 <= i => RowWords(b, number, p, i))
  }

  /** `constructPossibleWordsPerPattern` (and one group of `constructPossibleWords`): the formatted valid rows in row order. */
  function PatternWords(b: Buckets, number: string, p: seq<SubString>): seq<string>
    requires Fits(b, number, p)
  {
    Flatten(AllRowWords(b, number, p))
  }

  method ConstructPossibleWordsPerPattern(b: Buckets, originalEncodedString: string, pattern: seq<SubString>)
    returns (possibleWords: seq<string>)
    requires Fits(b, originalEncodedString, pattern)
    ensures possibleWords == PatternWords(b, originalEncodedString, pattern)
  {
    var rows := Expand(b, originalEncodedString, pattern);
    ghost var contributions := AllRowWords(b, originalEncodedString, pattern);
    possibleWords := [];
    var i := 0;
    while i < |rows|
      invariant 0 <= i <= |rows| == |contributions|
      invariant possibleWords == Flatten(contributions[..i])
    {
      RowWordsStep(b, originalEncodedString, pattern, contributions, i);
      possibleWords := AddRowWords(b, originalEncodedString, pattern, i, rows[i], possibleWords);
      i := i + 1;
    }
    assert contributions[..i] == contributions;
  }

  lemma RowWordsStep(b: Buckets, number: string, p: seq<SubString>, contributions: seq<seq<string>>, i: nat)
    requires Fits(b, number, p) && contributions == AllRowWords(b, number, p)
    requires i < |contributions|
    ensures Flatten(contributions[..i + 1]) == Flatten(contributions[..i]) + RowWords(b, number, p, i)
  {
    FlattenStep(contributions, i);
  }

  /** The filter-and-format step for row `i`: a valid row is formatted and appended, an invalid one dropped. */
  method AddRowWords(b: Buckets, number: string, pattern: seq<SubString>, i: nat, word: string, possibleWords0: seq<string>)
    returns (possibleWords: seq<string>)
    requires Fits(b, number, pattern) && word == Row(b, number, pattern, |pattern|, i)
    ensures possibleWords == possibleWords0 + RowWords(b, number, pattern, i)
  {
    possibleWords := possibleWords0;
    FitsInRange(b, number, pattern, word);
    if PhonewordSyntaxChecker.IsValid(word) {
      var formatted := FormatInline(word, pattern);
      possibleWords := possibleWords + [formatted];
    }
  }

  /** A pattern yields exactly the inline formatting of each of its rows that has no two adjacent digits. */
  lemma PatternWordsIff(b: Buckets, number: string, p: seq<SubString>, w: string)
    requires Fits(b, number, p)
    ensures w in PatternWords(b, number, p) <==> exists i :: 0 <= i < Product(b, p) && w in RowWords(b, number, p, i)
  {
    var ss := AllRowWords(b, number, p);
    if w in PatternWords(b, number, p) {
      var i := FlattenFrom(ss, w);
    }
    if exists i :: 0 <= i < Product(b, p) && w in RowWords(b, number, p, i) {
      var i :| 0 <= i < Product(b, p) && w in RowWords(b, number, p, i);
      FlattenHas(ss, i, w);
    }
  }

  /**
   * A pattern yields at most one word per row, and deleting the dashes of a
   * word gives back a row with no two adjacent digits.
   */
  lemma PatternWordsAreValidRows(b: Buckets, number: string, p: seq<SubString>, w: string)
    requires Fits(b, number, p)
    requires w in PatternWords(b, number, p)
    ensures |PatternWords(b, number, p)| <= Product(b, p)
    ensures exists i ::
      && 0 <= i < Product(b, p)
      && PhonewordSyntaxChecker.IsValid(Row(b, number, p, |p|, i))
      && RemoveDashes(w) == RemoveDashes(Row(b, number, p, |p|, i))
  {
    var ss := AllRowWords(b, number, p);
    FlattenAtMostOne(ss);
    var i := FlattenFrom(ss, w);
    var row := Row(b, number, p, |p|, i);
    FitsInRange(b, number, p, row);
    InlineOnlyInsertsDashes(row, p);
  }

  // ---------------------------------------------------------------- several patterns

  predicate AllFit(b: Buckets, number: string, ps: seq<seq<SubString>>)
  {
    forall k :: 0 <= k < |ps| ==> Fits(b, number, ps[k])
  }

  /** What every pattern yields, in pattern order. */
  function AllPatternWords(b: Buckets, number: string, ps: seq<seq<SubString>>): (r: seq<seq<string>>)
    requires AllFit(b, number, ps)
    ensures |r| == |ps|
    ensures forall k :: 0 <= k < |r| ==> r[k] == PatternWords(b, number, ps[k])
  {
    seq(|ps|, k requires 0 <= k < |ps| => PatternWords(b, number, ps[k]))
  }

  /** The words of every pattern, concatenated in pattern order. */
  function WordsOfPatterns(b: Buckets, number: string, ps: seq<seq<SubString>>): seq<string>
    requires AllFit(b, number, ps)
  {
    Flatten(AllPatternWords(b, number, ps))
  }

  /** The map-and-concatenate over the patterns. */
  method ConcatWords(b: Buckets, number: string, patterns: seq<seq<SubString>>) returns (possibleWords: seq<string>)
    requires AllFit(b, number, patterns)
    ensures possibleWords == WordsOfPatterns(b, number, patterns)
  {
    ghost var all := AllPatternWords(b, number, patterns);
    possibleWords := [];
    var k := 0;
    while k < |patterns|
      invariant 0 <= k <= |patterns|
      invariant possibleWords == Flatten(all[..k])
    {
      FlattenStep(all, k);
      var lstWords := ConstructPossibleWordsPerPattern(b, number, patterns[k]);
      possibleWords := possibleWords + lstWords;
      k := k + 1;
    }
    assert all[..k] == all;
  }

  /** A word is returned for several patterns exactly when some pattern yields it. */
  lemma WordsOfPatternsIff(b: Buckets, number: string, ps: seq<seq<SubString>>, w: string)
    requires AllFit(b, number, ps)
    ensures w in WordsOfPatterns(b, number, ps) <==> exists k :: 0 <= k < |ps| && w in PatternWords(b, number, ps[k])
  {
    var all := AllPatternWords(b, number, ps);
    if w in WordsOfPatterns(b, number, ps) {
      var k := FlattenFrom(all, w);
    }
    if exists k :: 0 <= k < |ps| && w in PatternWords(b, number, ps[k]) {
      var k :| 0 <= k < |ps| && w in PatternWords(b, number, ps[k]);
      FlattenHas(all, k, w);
    }
  }

  // ---------------------------------------------------------------- the found runs fit

  /** A key run of a well-formed dictionary of short words can be spliced by every word of its bucket. */
  lemma RunFits(s: State, number: string, x: SubString)
    requires WellFormed(s) && ShortWords(s.buckets)
    requires IsRun(number, x) && x.value in s.buckets
    ensures MemberFits(s.buckets, number, x)
  {
    var words := s.buckets[x.value];
    assert Stored(words[0], x.value);
    ShortStoredWordFitsKey(words[0], x.value);
    forall j | 0 <= j < |words| ensures |words[j]| == x.end - x.start + 1 {
      assert Stored(words[j], x.value);
      ShortStoredWordFitsKey(words[j], x.value);
    }
  }

  /** A pattern made of found runs fits the expansion. */
  lemma PatternOfRunsFits(s: State, number: string, runs: seq<SubString>, p: seq<SubString>)
    requires WellFormed(s) && ShortWords(s.buckets)
    requires KeyRuns(s.buckets, number, runs)
    requires forall x :: x in p ==> x in runs
    ensures Fits(s.buckets, number, p)
  {
    forall k | 0 <= k < |p| ensures MemberFits(s.buckets, number, p[k]) {
      assert p[k] in runs;
      RunFits(s, number, p[k]);
    }
  }
}

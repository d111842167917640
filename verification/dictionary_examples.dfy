/**
 * The current dictionary's documented examples, worked out on the model:
 * the dictionaries the examples fill, the runs found in their numbers, how
 * many valid patterns those runs give and which phonewords come out.
 */
module DictionaryExamples {
  import opened Wrappers
  import opened JavaLang
  import opened SubStrings
  import opened Patterns
  import opened Lexicon
  import opened PhoneWordEncoder
  import opened SubStringSearch
  import opened Grouping
  import opened Expansion
  import opened Construction
  import opened CurrentDictionary

  // ---------------------------------------------------------------- the dictionaries

  function Empty(): State
  {
    State(map[], 0)
  }

  /** The decimal text of `ddd` for a single digit `d`. */
  lemma Decimal3(d: nat)
    requires 2 <= d <= 9
    ensures IntToString(111 * d) == [DigitChar(d), DigitChar(d), DigitChar(d)]
  {
    assert (111 * d) / 10 == 11 * d && (111 * d) % 10 == d;
    assert (11 * d) / 10 == d && (11 * d) % 10 == d;
    assert NatToDecimal(11 * d) == NatToDecimal(d) + [DigitChar(d)];
    assert NatToDecimal(111 * d) == NatToDecimal(11 * d) + [DigitChar(d)];
  }

  lemma KeyOfAaa()
    ensures ToUpperCase("AAA") == "AAA" && EncodedKey("AAA") == Some("222")
  {
    var w := "aaa";
    assert ToLowerCase("AAA") == w;
    assert w[..2] == "aa" && w[..2][..1] == "a";
    assert Accumulate("a") == Success(2);
    assert Accumulate("aa") == Success(22);
    assert Accumulate(w) == Success(222);
    Decimal3(2);
  }

  lemma KeyOfBbb()
    ensures ToUpperCase("BBB") == "BBB" && EncodedKey("BBB") == Some("222")
  {
    var w := "bbb";
    assert ToLowerCase("BBB") == w;
    assert w[..2] == "bb" && w[..2][..1] == "b";
    assert Accumulate("b") == Success(2);
    assert Accumulate("bb") == Success(22);
    assert Accumulate(w) == Success(222);
    Decimal3(2);
  }

  lemma KeyOfDdd()
    ensures ToUpperCase("DDD") == "DDD" && EncodedKey("DDD") == Some("333")
  {
    var w := "ddd";
    assert ToLowerCase("DDD") == w;
    assert w[..2] == "dd" && w[..2][..1] == "d";
    assert Accumulate("d") == Success(3);
    assert Accumulate("dd") == Success(33);
    assert Accumulate(w) == Success(333);
    Decimal3(3);
  }

  /** An upper-case word with a key is stored under that key. */
  lemma AddKnownWord(s: State, w: string, key: string)
    requires w != [] && ToUpperCase(w) == w && EncodedKey(w) == Some(key)
    ensures AddWord(s, Some(w)) == Some(State(AppendWord(s.buckets, key, w), NextShortest(s.shortest, |w|)))
  {
  }

  /** A word with a new key starts a bucket of its own. */
  lemma AppendNewKey(b: Buckets, key: string, w: string)
    requires key !in b
    ensures AppendWord(b, key, w) == b[key := [w]]
  {
    assert [] + [w] == [w];
  }

  /** A word with a present key joins the end of its bucket. */
  lemma AppendOldKey(b: Buckets, key: string, w: string)
    requires key in b
    ensures AppendWord(b, key, w) == b[key := b[key] + [w]]
  {
  }

  /** Importing one more accepted line applies `addNewWord` to the state so far. */
  lemma AddWordsLast(s: State, lines: seq<Option<string>>, line: Option<string>, after: State)
    requires AddWord(AddWords(s, lines), line) == Some(after)
    ensures AddWords(s, lines + [line]) == after
  {
    assert (lines + [line])[..|lines|] == lines;
  }

  lemma AddAaa(s: State)
    requires "222" !in s.buckets
    ensures AddWord(s, Some("AAA")) == Some(State(s.buckets["222" := ["AAA"]], NextShortest(s.shortest, 3)))
  {
    KeyOfAaa();
    AddKnownWord(s, "AAA", "222");
    AppendNewKey(s.buckets, "222", "AAA");
  }

  lemma AddBbb(s: State)
    requires "222" in s.buckets
    ensures AddWord(s, Some("BBB")) == Some(State(s.buckets["222" := s.buckets["222"] + ["BBB"]], NextShortest(s.shortest, 3)))
  {
    KeyOfBbb();
    AddKnownWord(s, "BBB", "222");
    AppendOldKey(s.buckets, "222", "BBB");
  }

  lemma AddDdd(s: State)
    requires "333" !in s.buckets
    ensures AddWord(s, Some("DDD")) == Some(State(s.buckets["333" := ["DDD"]], NextShortest(s.shortest, 3)))
  {
    KeyOfDdd();
    AddKnownWord(s, "DDD", "333");
    AppendNewKey(s.buckets, "333", "DDD");
  }

  /** Adding "AAA" and then "DDD" to a new dictionary. */
  lemma AaaDdd(lines: seq<Option<string>>)
    requires lines == [Some("AAA"), Some("DDD")]
    ensures AddWords(Empty(), lines) == State(map["222" := ["AAA"], "333" := ["DDD"]], 3)
  {
    var s1 := State(map["222" := ["AAA"]], 3);
    AddAaa(Empty());
    AddWordsLast(Empty(), [], lines[0], s1);
    assert "333" != "222" by { assert "333"[0] != "222"[0]; }
    AddDdd(s1);
    assert [] + [lines[0]] == lines[..1] && lines[..1] + [lines[1]] == lines;
    AddWordsLast(Empty(), lines[..1], lines[1], State(map["222" := ["AAA"], "333" := ["DDD"]], 3));
  }

  lemma AaaBbb(lines: seq<Option<string>>)
    requires lines == [Some("AAA"), Some("BBB")]
    ensures AddWords(Empty(), lines) == State(map["222" := ["AAA", "BBB"]], 3)
  {
    var s1 := State(map["222" := ["AAA"]], 3);
    AddAaa(Empty());
    AddWordsLast(Empty(), [], lines[0], s1);
    AddBbb(s1);
    assert s1.buckets["222" := s1.buckets["222"] + ["BBB"]] == map["222" := ["AAA", "BBB"]] by {
      assert ["AAA"] + ["BBB"] == ["AAA", "BBB"];
    }
    assert [] + [lines[0]] == lines[..1] && lines[..1] + [lines[1]] == lines;
    AddWordsLast(Empty(), lines[..1], lines[1], State(map["222" := ["AAA", "BBB"]], 3));
  }

  /** Adding "AAA", "BBB" and then "DDD" to a new dictionary. */
  lemma AaaBbbDdd(lines: seq<Option<string>>)
    requires lines == [Some("AAA"), Some("BBB"), Some("DDD")]
    ensures AddWords(Empty(), lines) == State(map["222" := ["AAA", "BBB"], "333" := ["DDD"]], 3)
  {
    var s2 := State(map["222" := ["AAA", "BBB"]], 3);
    AaaBbb(lines[..2]);
    assert "333" != "222" by { assert "333"[0] != "222"[0]; }
    AddDdd(s2);
    assert lines[..2] + [lines[2]] == lines;
    AddWordsLast(Empty(), lines[..2], lines[2], State(map["222" := ["AAA", "BBB"], "333" := ["DDD"]], 3));
  }

  // ---------------------------------------------------------------- runs

  /** With "AAA" and "DDD" stored, "22223333" holds "222" at 0 and 1 and "333" at 4 and 5. */
  lemma RunsOfAaaDdd(b: Buckets, number: string)
    requires b == map["222" := ["AAA"], "333" := ["DDD"]] && number == "22223333"
    ensures AllRuns(b, number, 3) == [SubString(number, "222", 0, 2), SubString(number, "222", 1, 3),
                                      SubString(number, "333", 4, 6), SubString(number, "333", 5, 7)]
  {
    assert forall k :: k in b ==> |k| == 3;
    AllBelowSkips(b, number, 3, 4, 9);
    OfLengthOf22223333(b, number);
    assert AllBelow(b, number, 3, 4) == OfLength(b, number, 3);
  }

  lemma OfLengthOf22223333(b: Buckets, number: string)
    requires b == map["222" := ["AAA"], "333" := ["DDD"]] && number == "22223333"
    ensures OfLength(b, number, 3) == [SubString(number, "222", 0, 2), SubString(number, "222", 1, 3),
                                       SubString(number, "333", 4, 6), SubString(number, "333", 5, 7)]
  {
    assert number[0..3] == "222" && number[1..4] == "222" && number[4..7] == "333" && number[5..8] == "333";
    assert number[2..5] !in b by { assert number[2..5][2] == '3' && number[2..5][0] == '2'; }
    assert number[3..6] !in b by { assert number[3..6][0] == '2' && number[3..6][1] == '3'; }
    var r0, r1, r2, r3 := RunAt(number, 0, 3), RunAt(number, 1, 3), RunAt(number, 4, 3), RunAt(number, 5, 3);
    assert OfLengthBelow(b, number, 3, 1) == [r0];
    assert OfLengthBelow(b, number, 3, 2) == [r0, r1];
    assert OfLengthBelow(b, number, 3, 3) == [r0, r1];
    assert OfLengthBelow(b, number, 3, 4) == [r0, r1];
    assert OfLengthBelow(b, number, 3, 5) == [r0, r1, r2];
    assert OfLengthBelow(b, number, 3, 6) == [r0, r1, r2, r3];
  }

  // ---------------------------------------------------------------- candidates of few runs

  /** Over distinct runs, window start `j - 1` adds its group when the window fits ... */
  lemma AnchorFull(ss: seq<SubString>, n: nat, i: nat, j: nat)
    requires Distinct(ss) && 2 <= n && i < |ss| && i + 1 < j <= |ss| && j + n - 2 <= |ss|
    ensures AnchorGroups(ss, n, i, j) == AnchorGroups(ss, n, i, j - 1) + [[ss[i]] + ss[j - 1..j + n - 2]]
  {
    GroupDistinct(ss, i, j - 1, n);
  }

  /** ... and nothing when it does not. */
  lemma AnchorShort(ss: seq<SubString>, n: nat, i: nat, j: nat)
    requires Distinct(ss) && 2 <= n && i < |ss| && i + 1 < j <= |ss| && j + n - 2 > |ss|
    ensures AnchorGroups(ss, n, i, j) == AnchorGroups(ss, n, i, j - 1)
  {
    GroupDistinct(ss, i, j - 1, n);
  }

  /** The pairs anchored at the first run of four ... */
  lemma PairsFromFirst(ss: seq<SubString>)
    requires Distinct(ss) && |ss| == 4
    ensures AnchorGroups(ss, 2, 0, 4) == [[ss[0], ss[1]], [ss[0], ss[2]], [ss[0], ss[3]]]
  {
    assert ss[1..2] == [ss[1]] && ss[2..3] == [ss[2]] && ss[3..4] == [ss[3]];
    assert [ss[0]] + ss[1..2] == [ss[0], ss[1]] && [ss[0]] + ss[2..3] == [ss[0], ss[2]] && [ss[0]] + ss[3..4] == [ss[0], ss[3]];
    assert AnchorGroups(ss, 2, 0, 1) == [];
    AnchorFull(ss, 2, 0, 2);
    AnchorFull(ss, 2, 0, 3);
    AnchorFull(ss, 2, 0, 4);
  }

  /** ... at the second and third ... */
  lemma PairsFromMiddle(ss: seq<SubString>)
    requires Distinct(ss) && |ss| == 4
    ensures AnchorGroups(ss, 2, 1, 4) == [[ss[1], ss[2]], [ss[1], ss[3]]]
    ensures AnchorGroups(ss, 2, 2, 4) == [[ss[2], ss[3]]]
  {
    assert ss[2..3] == [ss[2]] && ss[3..4] == [ss[3]];
    assert [ss[1]] + ss[2..3] == [ss[1], ss[2]] && [ss[1]] + ss[3..4] == [ss[1], ss[3]] && [ss[2]] + ss[3..4] == [ss[2], ss[3]];
    assert AnchorGroups(ss, 2, 1, 2) == [] && AnchorGroups(ss, 2, 2, 3) == [];
    AnchorFull(ss, 2, 1, 3);
    AnchorFull(ss, 2, 1, 4);
    AnchorFull(ss, 2, 2, 4);
  }

  /** ... and all six pairs of four distinct runs, in the order the loops build them. */
  lemma PairsOfFour(ss: seq<SubString>)
    requires Distinct(ss) && |ss| == 4
    ensures SizeGroups(ss, 2, 4) == [[ss[0], ss[1]], [ss[0], ss[2]], [ss[0], ss[3]], [ss[1], ss[2]], [ss[1], ss[3]], [ss[2], ss[3]]]
  {
    PairsFromFirst(ss);
    PairsFromMiddle(ss);
    assert AnchorGroups(ss, 2, 3, 4) == [];
    assert SizeGroups(ss, 2, 1) == AnchorGroups(ss, 2, 0, 4);
    assert SizeGroups(ss, 2, 2) == SizeGroups(ss, 2, 1) + AnchorGroups(ss, 2, 1, 4);
    assert SizeGroups(ss, 2, 3) == SizeGroups(ss, 2, 2) + AnchorGroups(ss, 2, 2, 4);
  }

  lemma TriplesFromFirst(ss: seq<SubString>)
    requires Distinct(ss) && |ss| == 4
    ensures AnchorGroups(ss, 3, 0, 4) == [[ss[0], ss[1], ss[2]], [ss[0], ss[2], ss[3]]]
  {
    assert ss[1..3] == [ss[1], ss[2]] && ss[2..4] == [ss[2], ss[3]];
    assert [ss[0]] + ss[1..3] == [ss[0], ss[1], ss[2]] && [ss[0]] + ss[2..4] == [ss[0], ss[2], ss[3]];
    assert AnchorGroups(ss, 3, 0, 1) == [];
    AnchorFull(ss, 3, 0, 2);
    assert AnchorGroups(ss, 3, 0, 2) == [[ss[0], ss[1], ss[2]]];
    AnchorFull(ss, 3, 0, 3);
    assert AnchorGroups(ss, 3, 0, 3) == [[ss[0], ss[1], ss[2]], [ss[0], ss[2], ss[3]]];
    AnchorShort(ss, 3, 0, 4);
  }

  lemma TriplesOfFour(ss: seq<SubString>)
    requires Distinct(ss) && |ss| == 4
    ensures SizeGroups(ss, 3, 4) == [[ss[0], ss[1], ss[2]], [ss[0], ss[2], ss[3]], [ss[1], ss[2], ss[3]]]
  {
    TriplesFromFirst(ss);
    assert ss[2..4] == [ss[2], ss[3]] && [ss[1]] + ss[2..4] == [ss[1], ss[2], ss[3]];
    assert AnchorGroups(ss, 3, 1, 2) == [] && AnchorGroups(ss, 3, 2, 3) == [];
    AnchorFull(ss, 3, 1, 3);
    AnchorShort(ss, 3, 1, 4);
    assert AnchorGroups(ss, 3, 1, 4) == [[ss[1], ss[2], ss[3]]];
    AnchorShort(ss, 3, 2, 4);
    assert AnchorGroups(ss, 3, 2, 4) == [];
    assert AnchorGroups(ss, 3, 3, 4) == [];
    assert SizeGroups(ss, 3, 1) == [[ss[0], ss[1], ss[2]], [ss[0], ss[2], ss[3]]];
    assert SizeGroups(ss, 3, 2) == SizeGroups(ss, 3, 1) + [[ss[1], ss[2], ss[3]]];
    assert SizeGroups(ss, 3, 3) == SizeGroups(ss, 3, 2);
  }

  lemma WholeOfFour(ss: seq<SubString>)
    requires Distinct(ss) && |ss| == 4
    ensures SizeGroups(ss, 4, 4) == [ss]
  {
    assert [ss[0]] + ss[1..4] == ss;
    assert AnchorGroups(ss, 4, 0, 1) == [] && AnchorGroups(ss, 4, 1, 2) == [] && AnchorGroups(ss, 4, 2, 3) == [];
    AnchorFull(ss, 4, 0, 2);
    AnchorShort(ss, 4, 0, 3);
    AnchorShort(ss, 4, 0, 4);
    assert AnchorGroups(ss, 4, 0, 4) == [ss];
    AnchorShort(ss, 4, 1, 3);
    AnchorShort(ss, 4, 1, 4);
    AnchorShort(ss, 4, 2, 4);
    assert AnchorGroups(ss, 4, 3, 4) == [];
    assert SizeGroups(ss, 4, 1) == [ss];
    assert SizeGroups(ss, 4, 2) == [ss];
    assert SizeGroups(ss, 4, 3) == [ss];
  }

  /** Two distinct runs give the two singletons and then the pair. */
  lemma CandidatesOfTwo(ss: seq<SubString>)
    requires Distinct(ss) && |ss| == 2
    ensures Candidates(ss) == [[ss[0]], [ss[1]], [ss[0], ss[1]]]
  {
    assert Singletons(ss) == [[ss[0]], [ss[1]]];
    GroupDistinct(ss, 0, 1, 2);
    assert ss[1..2] == [ss[1]] && Min(2, 2) == 2;
    assert Group(ss, 0, 1, 2) == [ss[0], ss[1]];
    assert AnchorGroups(ss, 2, 0, 2) == [[ss[0], ss[1]]];
    assert AnchorGroups(ss, 2, 1, 2) == [];
    assert SizeGroups(ss, 2, 1) == [[ss[0], ss[1]]];
    assert GroupsBelow(ss, 3) == [[ss[0], ss[1]]];
  }

  /** Four distinct runs give their pairs, then their triples, then all four together. */
  lemma GroupsOfFour(ss: seq<SubString>)
    requires Distinct(ss) && |ss| == 4
    ensures GroupsBelow(ss, 5) == SizeGroups(ss, 2, 4) + SizeGroups(ss, 3, 4) + SizeGroups(ss, 4, 4)
  {
    assert GroupsBelow(ss, 2) == [];
    assert GroupsBelow(ss, 3) == [] + SizeGroups(ss, 2, 4);
    assert GroupsBelow(ss, 4) == GroupsBelow(ss, 3) + SizeGroups(ss, 3, 4);
  }

  // ---------------------------------------------------------------- valid patterns

  /** A group with two different overlapping runs fails `isValid` ... */
  lemma Rejected(g: seq<SubString>, i: nat, j: nat)
    requires i < |g| && j < |g| && g[i] != g[j] && ConflictWith(g[i], g[j])
    ensures !IsValid(g)
  {
    IsValidIff(g);
  }

  /** ... and a pair of runs apart passes it. */
  lemma PairAccepted(x: SubString, y: SubString)
    requires !ConflictWith(x, y) && !ConflictWith(y, x)
    ensures IsValid([x, y])
  {
    IsValidIff([x, y]);
  }

  /** Removing related entries changes nothing when no two entries are related. */
  lemma {:induction false} DedupUnrelated<T>(dup: (T, T) -> bool, s: seq<T>)
    requires forall k, l :: 0 <= k < |s| && 0 <= l < |s| && k != l ==> !dup(s[k], s[l])
    ensures Dedup(dup, s) == s
    decreases |s|
  {
    if s != [] {
      TailUnrelated(dup, s);
      RemoveRelatedNone(dup, s[0], s[1..]);
      DedupUnrelated(dup, s[1..]);
      assert [s[0]] + s[1..] == s;
    }
  }

  /** The four runs of "22223333": "222" at 0 and 1, "333" at 4 and 5. */
  predicate RunsOf22223333(ss: seq<SubString>)
  {
    ss == [SubString("22223333", "222", 0, 2), SubString("22223333", "222", 1, 3),
           SubString("22223333", "333", 4, 6), SubString("22223333", "333", 5, 7)]
  }

  /** Of their pairs, the two sharing digits are dropped ... */
  lemma ValidPairsOf22223333(ss: seq<SubString>)
    requires RunsOf22223333(ss)
    ensures Distinct(ss)
    ensures ValidOnly(SizeGroups(ss, 2, 4)) == [[ss[0], ss[2]], [ss[0], ss[3]], [ss[1], ss[2]], [ss[1], ss[3]]]
  {
    PairsOfFour(ss);
    Rejected([ss[0], ss[1]], 0, 1);
    PairAccepted(ss[0], ss[2]);
    PairAccepted(ss[0], ss[3]);
    PairAccepted(ss[1], ss[2]);
    PairAccepted(ss[1], ss[3]);
    Rejected([ss[2], ss[3]], 0, 1);
    var pairs := SizeGroups(ss, 2, 4);
    assert ValidOnly(pairs[5..]) == [];
    assert ValidOnly(pairs[4..]) == [[ss[1], ss[3]]];
    assert ValidOnly(pairs[3..]) == [[ss[1], ss[2]], [ss[1], ss[3]]];
    assert ValidOnly(pairs[2..]) == [[ss[0], ss[3]], [ss[1], ss[2]], [ss[1], ss[3]]];
    assert ValidOnly(pairs[1..]) == [[ss[0], ss[2]], [ss[0], ss[3]], [ss[1], ss[2]], [ss[1], ss[3]]];
  }

  /** ... and every larger group holds two of them. */
  lemma NoLargerGroupsOf22223333(ss: seq<SubString>)
    requires RunsOf22223333(ss)
    ensures Distinct(ss)
    ensures ValidOnly(SizeGroups(ss, 3, 4) + SizeGroups(ss, 4, 4)) == []
  {
    TriplesOfFour(ss);
    WholeOfFour(ss);
    var triples := SizeGroups(ss, 3, 4);
    Rejected(triples[0], 0, 1);
    Rejected(triples[1], 1, 2);
    Rejected(triples[2], 1, 2);
    Rejected(ss, 0, 1);
    assert ValidOnly(triples[2..]) == [];
    assert ValidOnly(triples[1..]) == [];
    assert ValidOnly([ss]) == [];
    ValidOnlyAppend(triples, [ss]);
  }

  /** The overlap filter keeps the four singletons and the four pairs of runs apart ... */
  lemma ValidOnlyOf22223333(ss: seq<SubString>)
    requires RunsOf22223333(ss)
    ensures ValidOnly(Candidates(ss)) == [[ss[0]], [ss[1]], [ss[2]], [ss[3]],
                                          [ss[0], ss[2]], [ss[0], ss[3]], [ss[1], ss[2]], [ss[1], ss[3]]]
  {
    ValidPairsOf22223333(ss);
    NoLargerGroupsOf22223333(ss);
    GroupsOfFour(ss);
    ValidOnlyCandidates(ss);
    AppendAssoc(SizeGroups(ss, 2, 4), SizeGroups(ss, 3, 4), SizeGroups(ss, 4, 4));
    ValidOnlyAppend(SizeGroups(ss, 2, 4), SizeGroups(ss, 3, 4) + SizeGroups(ss, 4, 4));
    assert Singletons(ss) == [[ss[0]], [ss[1]], [ss[2]], [ss[3]]];
  }

  /** ... none of which equals another, so the equality-based removal keeps all eight. */
  lemma ValidPatternsOf22223333(ss: seq<SubString>)
    requires RunsOf22223333(ss)
    ensures ValidPatterns(ss) == [[ss[0]], [ss[1]], [ss[2]], [ss[3]],
                                  [ss[0], ss[2]], [ss[0], ss[3]], [ss[1], ss[2]], [ss[1], ss[3]]]
  {
    ValidOnlyOf22223333(ss);
    var v := ValidOnly(Candidates(ss));
    forall k, l | 0 <= k < |v| && 0 <= l < |v| && k != l ensures !SamePattern(v[k], v[l]) {
      if |v[k]| == |v[l]| {
        assert v[k][0].start != v[l][0].start || v[k][|v[k]| - 1].start != v[l][|v[l]| - 1].start;
      }
    }
    DedupUnrelated(SamePattern, v);
  }

  /** Two distinct runs give both singletons, and the pair too when they do not overlap. */
  lemma ValidPatternsOfTwo(ss: seq<SubString>)
    requires Distinct(ss) && |ss| == 2
    ensures ConflictWith(ss[0], ss[1]) ==> ValidPatterns(ss) == [[ss[0]], [ss[1]]]
    ensures !ConflictWith(ss[0], ss[1]) ==> ValidPatterns(ss) == [[ss[0]], [ss[1]], [ss[0], ss[1]]]
  {
    ValidOnlyOfTwo(ss);
    UnrelatedOfTwo(ValidOnly(Candidates(ss)), ss[0], ss[1]);
  }

  lemma ValidOnlyOfTwo(ss: seq<SubString>)
    requires Distinct(ss) && |ss| == 2
    ensures ConflictWith(ss[0], ss[1]) ==> ValidOnly(Candidates(ss)) == [[ss[0]], [ss[1]]]
    ensures !ConflictWith(ss[0], ss[1]) ==> ValidOnly(Candidates(ss)) == [[ss[0]], [ss[1]], [ss[0], ss[1]]]
  {
    CandidatesOfTwo(ss);
    IsValidIff([ss[0]]);
    IsValidIff([ss[1]]);
    var c := Candidates(ss);
    assert c[1..] == [[ss[1]], [ss[0], ss[1]]] && c[2..] == [[ss[0], ss[1]]] && c[3..] == [];
    if ConflictWith(ss[0], ss[1]) {
      Rejected([ss[0], ss[1]], 0, 1);
      assert ValidOnly(c[2..]) == [];
      assert ValidOnly(c[1..]) == [[ss[1]]];
    } else {
      ConflictSymmetric(ss[0], ss[1]);
      PairAccepted(ss[0], ss[1]);
      assert ValidOnly(c[2..]) == [[ss[0], ss[1]]];
      assert ValidOnly(c[1..]) == [[ss[1]], [ss[0], ss[1]]];
    }
  }

  /** Two different singletons and their pair have pairwise different members, so the dedup keeps them all. */
  lemma UnrelatedOfTwo(v: seq<seq<SubString>>, x: SubString, y: SubString)
    requires x != y && (v == [[x], [y]] || v == [[x], [y], [x, y]])
    ensures Dedup(SamePattern, v) == v
  {
    forall k, l | 0 <= k < |v| && 0 <= l < |v| && k != l ensures !SamePattern(v[k], v[l]) {
      if |v[k]| == |v[l]| {
        assert v[k][0] != v[l][0];
      }
    }
    DedupUnrelated(SamePattern, v);
  }

  /** With "AAA" and "BBB" under "222" and "DDD" under "333", "222333" holds "222" at 0 and "333" at 3. */
  lemma RunsOfAaaBbbDdd(b: Buckets, number: string)
    requires b == map["222" := ["AAA", "BBB"], "333" := ["DDD"]] && number == "222333"
    ensures AllRuns(b, number, 3) == [SubString(number, "222", 0, 2), SubString(number, "333", 3, 5)]
  {
    assert forall k :: k in b ==> |k| == 3;
    AllBelowSkips(b, number, 3, 4, 7);
    assert number[0..3] == "222" && number[3..6] == "333";
    assert number[1..4] !in b by { assert number[1..4][2] == '3' && number[1..4][0] == '2'; }
    assert number[2..5] !in b by { assert number[2..5][1] == '3' && number[2..5][0] == '2'; }
    var r0, r1 := RunAt(number, 0, 3), RunAt(number, 3, 3);
    assert OfLengthBelow(b, number, 3, 1) == [r0];
    assert OfLengthBelow(b, number, 3, 2) == [r0];
    assert OfLengthBelow(b, number, 3, 3) == [r0];
    assert OfLengthBelow(b, number, 3, 4) == [r0, r1];
    assert AllBelow(b, number, 3, 4) == OfLength(b, number, 3);
  }

  /** "222333" gives three patterns: "222" alone, "333" alone, and both. */
  lemma ValidPatternsOf222333(ss: seq<SubString>)
    requires ss == [SubString("222333", "222", 0, 2), SubString("222333", "333", 3, 5)]
    ensures ValidPatterns(ss) == [[ss[0]], [ss[1]], [ss[0], ss[1]]]
  {
    ValidPatternsOfTwo(ss);
  }

  /** With "STAR" under "7827" and "WARS" under "9277", "782792771" holds "7827" at 0 and "9277" at 4 ... */
  lemma RunsOfStarWars(b: Buckets, number: string)
    requires b == map["7827" := ["STAR"], "9277" := ["WARS"]] && number == "782792771"
    ensures AllRuns(b, number, 4) == [SubString(number, "7827", 0, 3), SubString(number, "9277", 4, 7)]
  {
    assert forall k :: k in b ==> |k| == 4;
    AllBelowSkips(b, number, 4, 5, 10);
    assert number[0..4] == "7827" && number[4..8] == "9277";
    assert number[1..5] !in b by { assert number[1..5][0] == '8'; }
    assert number[2..6] !in b by { assert number[2..6][0] == '2'; }
    assert number[3..7] !in b by { assert number[3..7][0] == '7' && number[3..7][1] == '9'; }
    assert number[5..9] !in b by { assert number[5..9][0] == '2'; }
    var r0, r1 := RunAt(number, 0, 4), RunAt(number, 4, 4);
    assert OfLengthBelow(b, number, 4, 1) == [r0];
    assert OfLengthBelow(b, number, 4, 2) == [r0];
    assert OfLengthBelow(b, number, 4, 3) == [r0];
    assert OfLengthBelow(b, number, 4, 4) == [r0];
    assert OfLengthBelow(b, number, 4, 5) == [r0, r1];
    assert OfLengthBelow(b, number, 4, 6) == [r0, r1];
    assert AllBelow(b, number, 4, 5) == OfLength(b, number, 4);
  }

  /** ... which do not overlap, so three patterns are found. */
  lemma PatternCountOfStarWars(b: Buckets, number: string)
    requires b == map["7827" := ["STAR"], "9277" := ["WARS"]] && number == "782792771"
    ensures |ValidPatterns(AllRuns(b, number, 4))| == 3
  {
    RunsOfStarWars(b, number);
    ValidPatternsOfTwo(AllRuns(b, number, 4));
  }

  /** With "KIT" under "548" and "KITTY" under "54889", "54889" holds "548" at 0 and "54889" at 0 ... */
  lemma RunsOfKitKitty(b: Buckets, number: string)
    requires b == map["548" := ["KIT"], "54889" := ["KITTY"]] && number == "54889"
    ensures AllRuns(b, number, 3) == [SubString(number, "548", 0, 2), SubString(number, "54889", 0, 4)]
  {
    assert number[0..3] == "548" && number[0..5] == number;
    assert "548" != "54889";
    assert number[1..4] !in b by { assert number[1..4][0] == '4'; }
    assert number[2..5] !in b by { assert number[2..5][0] == '8'; }
    assert forall k :: k in b ==> |k| != 4;
    NoKeyOfLength(b, number, 4, 2);
    var r0, r1 := RunAt(number, 0, 3), RunAt(number, 0, 5);
    assert OfLengthBelow(b, number, 3, 1) == [r0];
    assert OfLengthBelow(b, number, 3, 3) == [r0];
    assert OfLengthBelow(b, number, 5, 1) == [r1];
    assert AllBelow(b, number, 3, 4) == OfLength(b, number, 3);
    assert AllBelow(b, number, 3, 5) == AllBelow(b, number, 3, 4);
  }

  /** ... which overlap, so only the two singletons are found. */
  lemma PatternCountOfKitKitty(b: Buckets, number: string)
    requires b == map["548" := ["KIT"], "54889" := ["KITTY"]] && number == "54889"
    ensures |ValidPatterns(AllRuns(b, number, 3))| == 2
  {
    RunsOfKitKitty(b, number);
    ValidPatternsOfTwo(AllRuns(b, number, 3));
  }

  /** The runs of "22223333" give eight patterns. */
  lemma PatternCountOf22223333(b: Buckets, number: string)
    requires b == map["222" := ["AAA"], "333" := ["DDD"]] && number == "22223333"
    ensures |ValidPatterns(AllRuns(b, number, 3))| == 8
  {
    RunsOfAaaDdd(b, number);
    ValidPatternsOf22223333(AllRuns(b, number, 3));
  }

  /** With "AAA" and "BBB" under "222" and "DDD" under "333", "122213331" holds "222" at 1 and "333" at 5. */
  lemma RunsOf122213331(b: Buckets, number: string)
    requires b == map["222" := ["AAA", "BBB"], "333" := ["DDD"]] && number == "122213331"
    ensures AllRuns(b, number, 3) == [SubString(number, "222", 1, 3), SubString(number, "333", 5, 7)]
  {
    assert forall k :: k in b ==> |k| == 3;
    AllBelowSkips(b, number, 3, 4, 10);
    OfLengthOf122213331(b, number);
    assert AllBelow(b, number, 3, 4) == OfLength(b, number, 3);
  }

  lemma OfLengthOf122213331(b: Buckets, number: string)
    requires b == map["222" := ["AAA", "BBB"], "333" := ["DDD"]] && number == "122213331"
    ensures OfLength(b, number, 3) == [SubString(number, "222", 1, 3), SubString(number, "333", 5, 7)]
  {
    assert number[1..4] == "222" && number[5..8] == "333";
    assert number[0..3] !in b by { assert number[0..3][0] == '1'; }
    assert number[2..5] !in b by { assert number[2..5][2] == '1'; }
    assert number[3..6] !in b by { assert number[3..6][1] == '1'; }
    assert number[4..7] !in b by { assert number[4..7][0] == '1'; }
    assert number[6..9] !in b by { assert number[6..9][2] == '1'; }
    var r0, r1 := RunAt(number, 1, 3), RunAt(number, 5, 3);
    assert OfLengthBelow(b, number, 3, 1) == [];
    assert OfLengthBelow(b, number, 3, 2) == [r0];
    assert OfLengthBelow(b, number, 3, 3) == [r0];
    assert OfLengthBelow(b, number, 3, 4) == [r0];
    assert OfLengthBelow(b, number, 3, 5) == [r0];
    assert OfLengthBelow(b, number, 3, 6) == [r0, r1];
    assert OfLengthBelow(b, number, 3, 7) == [r0, r1];
  }

  /** "122213331" gives three patterns: "222" alone, "333" alone, and both. */
  lemma ValidPatternsOf122213331(ss: seq<SubString>)
    requires ss == [SubString("122213331", "222", 1, 3), SubString("122213331", "333", 5, 7)]
    ensures ValidPatterns(ss) == [[ss[0]], [ss[1]], [ss[0], ss[1]]]
  {
    ValidPatternsOfTwo(ss);
  }
}

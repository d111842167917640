/**
 * The current dictionary's documented lookups, worked out on the model: the
 * row every valid pattern yields, whether it survives the adjacent-digit
 * check, how it is formatted, and the phonewords that come out.
 */
module PhonewordExamples {
  import opened Wrappers
  import opened JavaLang
  import opened SubStrings
  import opened Lexicon
  import opened SubStringSearch
  import opened Grouping
  import opened Expansion
  import opened Construction
  import opened InlineFormat
  import opened CurrentDictionary
  import opened DictionaryExamples
  import Formatter
  import PhonewordSyntaxChecker

  // ---------------------------------------------------------------- text helpers

  /** A left-to-right search for "--". */
  function HasDoubleDash(s: string): bool
  {
    |s| >= 2 && ((s[0] == '-' && s[1] == '-') || HasDoubleDash(s[1..]))
  }

  lemma {:induction false} NoDoubleDashScan(s: string)
    requires !HasDoubleDash(s)
    ensures NoDoubleDash(s)
  {
    if |s| >= 2 {
      NoDoubleDashScan(s[1..]);
      forall i | 1 <= i < |s| - 1 ensures !(s[i] == '-' && s[i + 1] == '-') {
        assert s[i] == s[1..][i - 1] && s[i + 1] == s[1..][i];
      }
    }
  }

  /** A prefix without "--" that does not end in a dash is left alone by the collapse. */
  lemma {:induction false} CollapsePrefix(a: string, s: string)
    requires NoDoubleDash(a) && (a == [] || a[|a| - 1] != '-')
    ensures CollapseDoubleDash(a + s) == a + CollapseDoubleDash(s)
  {
    if a != [] {
      var t := a + s;
      assert t[0] == a[0] && t[1..] == a[1..] + s;
      if |a| >= 2 {
        assert t[1] == a[1] && !(a[0] == '-' && a[1] == '-');
      } else {
        assert t[0] == a[|a| - 1];
      }
      assert NoDoubleDash(a[1..]) by {
        forall i | 0 <= i < |a[1..]| - 1 ensures !(a[1..][i] == '-' && a[1..][i + 1] == '-') {
          assert a[1..][i] == a[i + 1] && a[1..][i + 1] == a[i + 2];
        }
      }
      CollapsePrefix(a[1..], s);
      assert !(|t| >= 2 && t[0] == '-' && t[1] == '-');
      assert CollapseDoubleDash(t) == [t[0]] + CollapseDoubleDash(t[1..]);
      assert CollapseDoubleDash(t) == [a[0]] + CollapseDoubleDash(a[1..] + s);
      assert [a[0]] + (a[1..] + CollapseDoubleDash(s)) == a + CollapseDoubleDash(s);
    } else {
      assert a + s == s;
    }
  }

  /** "--" between two pieces without "--", the first not ending and the second not starting with a dash, becomes "-". */
  lemma CollapseOneDouble(a: string, c: string)
    requires !HasDoubleDash(a) && a != [] && a[|a| - 1] != '-'
    requires !HasDoubleDash(c)
    ensures CollapseDoubleDash(a + "--" + c) == a + "-" + c
  {
    NoDoubleDashScan(a);
    NoDoubleDashScan(c);
    assert a + "--" + c == a + ("--" + c);
    CollapsePrefix(a, "--" + c);
    assert ("--" + c)[2..] == c;
    CollapseIdentity(c);
  }

  /** Two texts without "--" joined where at most one side has a dash have none either. */
  lemma NoDoubleDashJoin(x: string, y: string)
    requires NoDoubleDash(x) && NoDoubleDash(y)
    requires x == [] || y == [] || x[|x| - 1] != '-' || y[0] != '-'
    ensures NoDoubleDash(x + y)
  {
    var z := x + y;
    forall i | 0 <= i < |z| - 1 ensures !(z[i] == '-' && z[i + 1] == '-') {
      if i + 1 < |x| {
        assert z[i] == x[i] && z[i + 1] == x[i + 1];
      } else if i >= |x| {
        assert z[i] == y[i - |x|] && z[i + 1] == y[i + 1 - |x|];
      }
    }
  }

  /** The checker's scan is the `matches(".*\\d\\d.*")` test on text without line terminators. */
  lemma Refused(s: string)
    requires !PhonewordSyntaxChecker.HasLineTerminator(s) && PhonewordSyntaxChecker.ScanAdjacentDigits(s)
    ensures !PhonewordSyntaxChecker.IsValid(s)
  {
  }

  // ---------------------------------------------------------------- one word per key

  lemma {:induction false} ProductOfOneWordKeys(b: Buckets, p: seq<SubString>)
    requires forall k :: 0 <= k < |p| ==> p[k].value in b && |b[p[k].value]| == 1
    ensures Product(b, p) == 1
  {
    if p != [] {
      ProductOfOneWordKeys(b, p[..|p| - 1]);
    }
  }

  /** With one word per key a pattern has a single row, and yields what that row yields. */
  lemma OneRow(b: Buckets, number: string, p: seq<SubString>)
    requires Fits(b, number, p)
    requires forall k :: 0 <= k < |p| ==> |b[p[k].value]| == 1
    ensures PatternWords(b, number, p) == RowWords(b, number, p, 0)
  {
    ProductOfOneWordKeys(b, p);
    var all := AllRowWords(b, number, p);
    assert all == [RowWords(b, number, p, 0)];
    assert all[..0] == [];
    assert Flatten(all) == Flatten(all[..0]) + all[0];
  }

  /** A pattern of two keys with two and one words has two rows. */
  lemma TwoRows(b: Buckets, number: string, p: seq<SubString>)
    requires Fits(b, number, p) && |p| == 2 && |b[p[0].value]| == 2 && |b[p[1].value]| == 1
    ensures PatternWords(b, number, p) == RowWords(b, number, p, 0) + RowWords(b, number, p, 1)
  {
    ProductOfTwoAndOne(b, p);
    var all := AllRowWords(b, number, p);
    assert all == [RowWords(b, number, p, 0), RowWords(b, number, p, 1)];
    FlattenOfTwo(all);
  }

  lemma ProductOfTwoAndOne(b: Buckets, p: seq<SubString>)
    requires |p| == 2 && p[0].value in b && p[1].value in b && |b[p[0].value]| == 2 && |b[p[1].value]| == 1
    ensures Product(b, p) == 2
  {
    assert p[..1][..0] == [];
    assert Product(b, p[..1]) == 1 * 2;
  }

  lemma FlattenOfTwo<T>(all: seq<seq<T>>)
    requires |all| == 2
    ensures Flatten(all) == all[0] + all[1]
  {
    assert all[..1][..0] == [] && all[..1] == [all[0]];
    assert Flatten(all[..1]) == Flatten(all[..1][..0]) + all[0];
  }

  /** The row of a one-member pattern: the member's word spliced into the number. */
  lemma RowOfOne(b: Buckets, number: string, x: SubString, i: nat)
    requires Fits(b, number, [x]) && MemberFits(b, number, x)
    ensures Row(b, number, [x], 1, i) == ReplaceSubString(number, x, b[x.value][i % |b[x.value]|])
  {
  }

  /** The row of a two-member pattern: the first member's word spliced in, then the second's. */
  lemma RowOfPair(b: Buckets, number: string, x: SubString, y: SubString, i: nat)
    requires Fits(b, number, [x, y]) && MemberFits(b, number, x) && MemberFits(b, number, y)
    ensures Row(b, number, [x, y], 2, i) ==
      ReplaceSubString(ReplaceSubString(number, x, b[x.value][i % |b[x.value]|]), y, b[y.value][i % |b[y.value]|])
  {
    assert Row(b, number, [x, y], 1, i) == ReplaceSubString(number, x, b[x.value][i % |b[x.value]|]);
  }

  /**
   * A step of the walk whose split point falls between `p` and `t` puts a
   * dash there; the two forms below keep the text nested to the right, so
   * that each step finds the next split point without re-associating.
   */
  lemma Insert(p: string, t: string, i: int, right: bool)
    requires 0 < i < |p + t| - 1 && |p| == (if right then i + 1 else i)
    ensures InlineStep(p + t, i, right) == p + ("-" + t)
  {
    var v := p + t;
    if right {
      assert v[..i + 1] == p && v[i + 1..] == t;
    } else {
      assert v[..i] == p && v[i..] == t;
    }
  }

  lemma InsertAfter(q: string, u: string, t: string, i: int, right: bool)
    requires 0 < i < |q + u + t| - 1 && |q + u| == (if right then i + 1 else i)
    ensures InlineStep(q + u + t, i, right) == q + (u + ("-" + t))
  {
    Insert(q + u, t, i, right);
  }

  lemma InsertWithin(q: string, u: string, t: string, i: int, right: bool)
    requires 0 < i < |q + (u + t)| - 1 && |q + u| == (if right then i + 1 else i)
    ensures InlineStep(q + (u + t), i, right) == q + (u + ("-" + t))
  {
    assert q + (u + t) == q + u + t;
    Insert(q + u, t, i, right);
  }

  /** Four steps of the walk, each given by its own result. */
  lemma WalkOfFour(w: string, idx: seq<int>, v1: string, v2: string, v3: string, v4: string)
    requires |idx| == 4 && Formatter.IndexesIn(idx, |w|)
    requires v1 == InlineStep(w, idx[0], true)
    requires idx[1] < |v1| && v2 == InlineStep(v1, idx[1], false)
    requires idx[2] < |v2| && v3 == InlineStep(v2, idx[2], true)
    requires idx[3] < |v3| && v4 == InlineStep(v3, idx[3], false)
    ensures InlineWalk(w, idx, 4) == v4
  {
    assert InlineWalk(w, idx, 1) == v1;
    assert InlineWalk(w, idx, 2) == v2;
    assert InlineWalk(w, idx, 3) == v3;
  }

  /** The inline formatting is the collapse of the walk over the boundaries. */
  lemma FormatOfWalk(w: string, p: seq<SubString>, v: string)
    requires Formatter.InRange(w, p) && Formatter.IndexesIn(TreeSetIndexes(p), |w|)
    requires InlineWalk(w, TreeSetIndexes(p), |TreeSetIndexes(p)|) == v
    ensures InlineFormatSpec(w, p) == CollapseDoubleDash(v)
  {
  }

  /** A row with two adjacent digits contributes nothing ... */
  lemma RefusedRow(b: Buckets, number: string, p: seq<SubString>, i: nat, row: string)
    requires Fits(b, number, p) && Row(b, number, p, |p|, i) == row
    requires !PhonewordSyntaxChecker.HasLineTerminator(row) && PhonewordSyntaxChecker.ScanAdjacentDigits(row)
    ensures RowWords(b, number, p, i) == []
  {
  }

  /** ... and any other row contributes its inline formatting. */
  lemma AcceptedRow(b: Buckets, number: string, p: seq<SubString>, i: nat, row: string, word: string)
    requires Fits(b, number, p) && Row(b, number, p, |p|, i) == row
    requires !PhonewordSyntaxChecker.ScanAdjacentDigits(row)
    requires Formatter.InRange(row, p) && InlineFormatSpec(row, p) == word
    ensures RowWords(b, number, p, i) == [word]
  {
  }

  // ---------------------------------------------------------------- "22223333" with "AAA" and "DDD"

  predicate AaaDddBuckets(b: Buckets)
  {
    b == map["222" := ["AAA"], "333" := ["DDD"]]
  }

  /** Splicing "AAA" at `x` and then "DDD" at `y` into "22223333". */
  lemma SplicedOf22223333(number: string, x: SubString, y: SubString, row: string)
    requires number == "22223333" && 0 <= x.start && x.end == x.start + 2 < y.start && y.end == y.start + 2 < 8
    requires row == ReplaceSubString(ReplaceSubString(number, x, "AAA"), y, "DDD")
    ensures row == number[..x.start] + "AAA" + number[x.end + 1..y.start] + "DDD" + number[y.end + 1..]
  {
    var first := ReplaceSubString(number, x, "AAA");
    assert first[..y.start] == number[..x.start] + "AAA" + number[x.end + 1..y.start];
    assert first[y.end + 1..] == number[y.end + 1..];
  }

  /** The row of each run alone ... */
  lemma SingletonRowOf22223333(b: Buckets, number: string, ss: seq<SubString>, k: nat)
    requires AaaDddBuckets(b) && number == "22223333" && RunsOf22223333(ss) && k < 4
    ensures Fits(b, number, [ss[k]])
    ensures Row(b, number, [ss[k]], 1, 0) == ["AAA23333", "2AAA3333", "2222DDD3", "22223DDD"][k]
  {
    var w := if k < 2 then "AAA" else "DDD";
    RowOfOne(b, number, ss[k], 0);
    var row := Row(b, number, [ss[k]], 1, 0);
    assert row == number[..ss[k].start] + w + number[ss[k].end + 1..];
    if k == 0 {
      assert number[..0] == "" && number[3..] == "23333";
    } else if k == 1 {
      assert number[..1] == "2" && number[4..] == "3333";
    } else if k == 2 {
      assert number[..4] == "2222" && number[7..] == "3";
    } else {
      assert number[..5] == "22223" && number[8..] == "";
    }
  }

  /** ... leaves two digits side by side: no word. */
  lemma SingletonWordsOf22223333(b: Buckets, number: string, ss: seq<SubString>, k: nat)
    requires AaaDddBuckets(b) && number == "22223333" && RunsOf22223333(ss) && k < 4
    ensures Fits(b, number, [ss[k]])
    ensures PatternWords(b, number, [ss[k]]) == []
  {
    if k == 0 {
      FirstSingletonsRefused();
      RefusedSingletonOf22223333(b, number, ss, k, "AAA23333");
    } else if k == 1 {
      FirstSingletonsRefused();
      RefusedSingletonOf22223333(b, number, ss, k, "2AAA3333");
    } else if k == 2 {
      LastSingletonsRefused();
      RefusedSingletonOf22223333(b, number, ss, k, "2222DDD3");
    } else {
      LastSingletonsRefused();
      RefusedSingletonOf22223333(b, number, ss, k, "22223DDD");
    }
  }

  lemma FirstSingletonsRefused()
    ensures PhonewordSyntaxChecker.ScanAdjacentDigits("AAA23333") && !PhonewordSyntaxChecker.HasLineTerminator("AAA23333")
    ensures PhonewordSyntaxChecker.ScanAdjacentDigits("2AAA3333") && !PhonewordSyntaxChecker.HasLineTerminator("2AAA3333")
  {
  }

  lemma LastSingletonsRefused()
    ensures PhonewordSyntaxChecker.ScanAdjacentDigits("2222DDD3") && !PhonewordSyntaxChecker.HasLineTerminator("2222DDD3")
    ensures PhonewordSyntaxChecker.ScanAdjacentDigits("22223DDD") && !PhonewordSyntaxChecker.HasLineTerminator("22223DDD")
  {
  }

  lemma RefusedSingletonOf22223333(b: Buckets, number: string, ss: seq<SubString>, k: nat, row: string)
    requires AaaDddBuckets(b) && number == "22223333" && RunsOf22223333(ss) && k < 4
    requires row == ["AAA23333", "2AAA3333", "2222DDD3", "22223DDD"][k]
    requires !PhonewordSyntaxChecker.HasLineTerminator(row) && PhonewordSyntaxChecker.ScanAdjacentDigits(row)
    ensures Fits(b, number, [ss[k]])
    ensures PatternWords(b, number, [ss[k]]) == []
  {
    SingletonRowOf22223333(b, number, ss, k);
    RefusedOneRow(b, number, [ss[k]], row);
  }

  /** A pattern with one word per key whose one row has two adjacent digits yields nothing. */
  lemma RefusedOneRow(b: Buckets, number: string, p: seq<SubString>, row: string)
    requires Fits(b, number, p) && forall k :: 0 <= k < |p| ==> |b[p[k].value]| == 1
    requires Row(b, number, p, |p|, 0) == row
    requires !PhonewordSyntaxChecker.HasLineTerminator(row) && PhonewordSyntaxChecker.ScanAdjacentDigits(row)
    ensures PatternWords(b, number, p) == []
  {
    OneRow(b, number, p);
    RefusedRow(b, number, p, 0, row);
  }

  /** The row of two runs: "AAA" spliced at the first, "DDD" at the second. */
  lemma PairRowOf22223333(b: Buckets, number: string, ss: seq<SubString>, i: nat, j: nat, row: string)
    requires AaaDddBuckets(b) && number == "22223333" && RunsOf22223333(ss) && i < 2 <= j < 4
    requires row == number[..ss[i].start] + "AAA" + number[ss[i].end + 1..ss[j].start] + "DDD" + number[ss[j].end + 1..]
    ensures Fits(b, number, [ss[i], ss[j]])
    ensures Row(b, number, [ss[i], ss[j]], 2, 0) == row
  {
    RowOfPair(b, number, ss[i], ss[j], 0);
    SplicedOf22223333(number, ss[i], ss[j], Row(b, number, [ss[i], ss[j]], 2, 0));
  }

  /** "222" at 0 with "333" at 4: "AAA2DDD3", formatted "AAA-2-DDD-3". */
  lemma FirstThirdWordsOf22223333(b: Buckets, number: string, ss: seq<SubString>)
    requires AaaDddBuckets(b) && number == "22223333" && RunsOf22223333(ss)
    ensures Fits(b, number, [ss[0], ss[2]])
    ensures PatternWords(b, number, [ss[0], ss[2]]) == ["AAA-2-DDD-3"]
  {
    var p, row := [ss[0], ss[2]], "AAA2DDD3";
    assert number[..0] == "" && number[3..4] == "2" && number[7..] == "3";
    PairRowOf22223333(b, number, ss, 0, 2, row);
    OneRow(b, number, p);
    PairRowsAccepted();
    InlineExample(row, p);
    AcceptedRow(b, number, p, 0, row, "AAA-2-DDD-3");
  }

  /** "222" at 0 with "333" at 5: "AAA23DDD" has "23". */
  lemma FirstFourthWordsOf22223333(b: Buckets, number: string, ss: seq<SubString>)
    requires AaaDddBuckets(b) && number == "22223333" && RunsOf22223333(ss)
    ensures Fits(b, number, [ss[0], ss[3]])
    ensures PatternWords(b, number, [ss[0], ss[3]]) == []
  {
    var p, row := [ss[0], ss[3]], "AAA23DDD";
    assert number[..0] == "" && number[8..] == "";
    assert number[3..5] == "23" by { assert number[3] == '2' && number[4] == '3'; }
    PairRowOf22223333(b, number, ss, 0, 3, row);
    OneRow(b, number, p);
    PairRowRefused();
    RefusedRow(b, number, p, 0, row);
  }

  /** "222" at 1 with "333" at 4: "2AAADDD3", formatted "2-AAA-DDD-3". */
  lemma SecondThirdWordsOf22223333(b: Buckets, number: string, ss: seq<SubString>)
    requires AaaDddBuckets(b) && number == "22223333" && RunsOf22223333(ss)
    ensures Fits(b, number, [ss[1], ss[2]])
    ensures PatternWords(b, number, [ss[1], ss[2]]) == ["2-AAA-DDD-3"]
  {
    var p, row := [ss[1], ss[2]], "2AAADDD3";
    assert number[..1] == "2" && number[4..4] == "" && number[7..] == "3";
    PairRowOf22223333(b, number, ss, 1, 2, row);
    OneRow(b, number, p);
    PairRowsAccepted();
    SecondThirdFormat(row, p);
    AcceptedRow(b, number, p, 0, row, "2-AAA-DDD-3");
  }

  /** "222" at 1 with "333" at 5: "2AAA3DDD", formatted "2-AAA-3-DDD". */
  lemma SecondFourthWordsOf22223333(b: Buckets, number: string, ss: seq<SubString>)
    requires AaaDddBuckets(b) && number == "22223333" && RunsOf22223333(ss)
    ensures Fits(b, number, [ss[1], ss[3]])
    ensures PatternWords(b, number, [ss[1], ss[3]]) == ["2-AAA-3-DDD"]
  {
    var p, row := [ss[1], ss[3]], "2AAA3DDD";
    assert number[..1] == "2" && number[8..] == "";
    assert number[4..5] == "3" by { assert number[4] == '3'; }
    PairRowOf22223333(b, number, ss, 1, 3, row);
    OneRow(b, number, p);
    PairRowsAccepted();
    SecondFourthFormat(row, p);
    AcceptedRow(b, number, p, 0, row, "2-AAA-3-DDD");
  }

  lemma PairRowsAccepted()
    ensures !PhonewordSyntaxChecker.ScanAdjacentDigits("AAA2DDD3")
    ensures !PhonewordSyntaxChecker.ScanAdjacentDigits("2AAADDD3") && !PhonewordSyntaxChecker.ScanAdjacentDigits("2AAA3DDD")
  {
  }

  lemma PairRowRefused()
    ensures PhonewordSyntaxChecker.ScanAdjacentDigits("AAA23DDD") && !PhonewordSyntaxChecker.HasLineTerminator("AAA23DDD")
  {
  }

  /** What each of the eight patterns of "22223333" yields. */
  lemma PatternWordsOf22223333(b: Buckets, number: string, ss: seq<SubString>, ps: seq<seq<SubString>>)
    requires AaaDddBuckets(b) && number == "22223333" && RunsOf22223333(ss)
    requires ps == [[ss[0]], [ss[1]], [ss[2]], [ss[3]], [ss[0], ss[2]], [ss[0], ss[3]], [ss[1], ss[2]], [ss[1], ss[3]]]
    ensures AllFit(b, number, ps)
    ensures AllPatternWords(b, number, ps) == [[], [], [], [], ["AAA-2-DDD-3"], [], ["2-AAA-DDD-3"], ["2-AAA-3-DDD"]]
  {
    var ws: seq<seq<string>> := [[], [], [], [], ["AAA-2-DDD-3"], [], ["2-AAA-DDD-3"], ["2-AAA-3-DDD"]];
    forall k | 0 <= k < 8 ensures Fits(b, number, ps[k]) && PatternWords(b, number, ps[k]) == ws[k] {
      if k < 4 {
        SingletonWordsOf22223333(b, number, ss, k);
      } else if k == 4 {
        FirstThirdWordsOf22223333(b, number, ss);
      } else if k == 5 {
        FirstFourthWordsOf22223333(b, number, ss);
      } else if k == 6 {
        SecondThirdWordsOf22223333(b, number, ss);
      } else {
        SecondFourthWordsOf22223333(b, number, ss);
      }
    }
    AllPatternWordsAre(b, number, ps, ws);
  }

  lemma AllPatternWordsAre(b: Buckets, number: string, ps: seq<seq<SubString>>, ws: seq<seq<string>>)
    requires |ps| == |ws| && forall k :: 0 <= k < |ps| ==> Fits(b, number, ps[k]) && PatternWords(b, number, ps[k]) == ws[k]
    ensures AllFit(b, number, ps) && AllPatternWords(b, number, ps) == ws
  {
  }

  /** Joining four empty lists, one word, an empty list and two words. */
  lemma FlattenOfEight(all: seq<seq<string>>, x: string, y: string, z: string)
    requires all == [[], [], [], [], [x], [], [y], [z]]
    ensures Flatten(all) == [x, y, z]
  {
    FlattenStep(all, 0);
    FlattenStep(all, 1);
    FlattenStep(all, 2);
    FlattenStep(all, 3);
    assert all[..0] == [];
    assert Flatten(all[..4]) == [];
    FlattenStep(all, 4);
    FlattenStep(all, 5);
    FlattenStep(all, 6);
    FlattenStep(all, 7);
    assert all[..8] == all;
  }

  /** The dictionary holding "AAA" under "222" and "DDD" under "333" keeps its invariant. */
  lemma AaaDddWellFormed(s: State)
    requires AaaDddBuckets(s.buckets) && s.shortest == 3
    ensures WellFormed(s) && ShortWords(s.buckets)
  {
    var b := s.buckets;
    KeyOfAaa();
    KeyOfDdd();
    forall k, i | k in b && 0 <= i < |b[k]| ensures b[k] != [] && |b[k][i]| == 3 && Stored(b[k][i], k) {
      assert k == "222" || k == "333";
    }
    assert "222" in b && |b["222"][0]| == 3;
  }

  /** The lookup on the dictionary holding "AAA" under "222" and "DDD" under "333". */
  lemma LookupOf22223333(s: State, number: string)
    requires AaaDddBuckets(s.buckets) && s.shortest == 3 && number == "22223333"
    ensures WellFormed(s) && ShortWords(s.buckets)
    ensures Phonewords(s, number) == ["AAA-2-DDD-3", "2-AAA-DDD-3", "2-AAA-3-DDD"]
  {
    AaaDddWellFormed(s);
    var b := s.buckets;
    RunsOfAaaDdd(b, number);
    var ss := AllRuns(b, number, 3);
    ValidPatternsOf22223333(ss);
    PatternWordsOf22223333(b, number, ss, ValidPatterns(ss));
    FlattenOfEight(AllPatternWords(b, number, ValidPatterns(ss)), "AAA-2-DDD-3", "2-AAA-DDD-3", "2-AAA-3-DDD");
  }

  /**
   * With "AAA" and "DDD" added to a new dictionary, looking up "22223333"
   * gives "AAA-2-DDD-3", "2-AAA-DDD-3" and "2-AAA-3-DDD", in that order.
   */
  lemma PhonewordsOf22223333(lines: seq<Option<string>>, number: string)
    requires lines == [Some("AAA"), Some("DDD")] && number == "22223333"
    ensures WellFormed(AddWords(Empty(), lines)) && ShortWords(AddWords(Empty(), lines).buckets)
    ensures Phonewords(AddWords(Empty(), lines), number) == ["AAA-2-DDD-3", "2-AAA-DDD-3", "2-AAA-3-DDD"]
  {
    AaaDdd(lines);
    LookupOf22223333(AddWords(Empty(), lines), number);
  }

  // ---------------------------------------------------------------- the inline formatting of those rows

  /** The boundaries of `p`, each once and largest first, are `s`. */
  lemma IndexesOfPair(p: seq<SubString>, s: seq<int>)
    requires |p| == 2 && |s| == 4
    requires s == [p[1].end, p[1].start, p[0].end, p[0].start] && StrictlyDescending(s)
    ensures TreeSetIndexes(p) == s
  {
    assert p[1..][1..] == [];
    assert Formatter.Bounds(p) == [p[0].start, p[0].end, p[1].start, p[1].end];
    TreeSetOrderUnique(p, s);
  }

  lemma SecondThirdFormat(w: string, p: seq<SubString>)
    requires w == "2AAADDD3"
    requires p == [SubString("22223333", "222", 1, 3), SubString("22223333", "333", 4, 6)]
    ensures Formatter.InRange(w, p) && InlineFormatSpec(w, p) == "2-AAA-DDD-3"
  {
    var idx := [6, 4, 3, 1];
    IndexesOfPair(p, idx);
    SecondThirdText();
    AdjacentInsideWalk("2", "AAA", "DDD", "3", idx);
    FormatOfWalk(w, p, "2-AAA" + "--" + "DDD-3");
    CollapseOneDouble("2-AAA", "DDD-3");
  }

  lemma SecondThirdText()
    ensures "2AAADDD3" == "2" + "AAA" + "DDD" + "3"
    ensures "2" + "-" + "AAA" + "--" + "DDD" + "-" + "3" == "2-AAA" + "--" + "DDD-3"
    ensures "2-AAA" + "-" + "DDD-3" == "2-AAA-DDD-3"
    ensures !HasDoubleDash("2-AAA") && "2-AAA"[4] != '-' && !HasDoubleDash("DDD-3")
  {
  }

  /** The walk over two adjacent words between single digits: the dashes that meet between the words double. */
  lemma AdjacentInsideWalk(x: string, a: string, d: string, z: string, idx: seq<int>)
    requires |x| == 1 && |z| == 1 && |a| == 3 && |d| == 3 && idx == [6, 4, 3, 1]
    ensures Formatter.IndexesIn(idx, |x + a + d + z|)
    ensures InlineWalk(x + a + d + z, idx, 4) == x + "-" + a + "--" + d + "-" + z
  {
    var t1 := "-" + z;
    var t2 := "-" + (d + t1);
    InsertAfter(x + a, d, z, 6, true);
    InsertAfter(x, a, d + t1, 4, false);
    InsertWithin(x, a, t2, 3, true);
    Insert(x, a + ("-" + t2), 1, false);
    WalkOfFour(x + a + d + z, idx, x + a + (d + t1), x + (a + t2), x + (a + ("-" + t2)), x + ("-" + (a + ("-" + t2))));
  }

  lemma SecondFourthFormat(w: string, p: seq<SubString>)
    requires w == "2AAA3DDD"
    requires p == [SubString("22223333", "222", 1, 3), SubString("22223333", "333", 5, 7)]
    ensures Formatter.InRange(w, p) && InlineFormatSpec(w, p) == "2-AAA-3-DDD"
  {
    var idx := [7, 5, 3, 1];
    IndexesOfPair(p, idx);
    SecondFourthText();
    SplitAtEndWalk("2", "AAA", "3", "DDD", idx);
    FormatOfWalk(w, p, "2-AAA-3-DDD");
    CollapseIdentity("2-AAA-3-DDD");
  }

  lemma SecondFourthText()
    ensures "2AAA3DDD" == "2" + "AAA" + "3" + "DDD"
    ensures "2" + "-" + "AAA" + "-" + "3" + "-" + "DDD" == "2-AAA-3-DDD"
    ensures NoDoubleDash("2-AAA-3-DDD")
  {
    assert NoDoubleDash("2-") && NoDoubleDash("AAA") && NoDoubleDash("-3-") && NoDoubleDash("DDD");
    NoDoubleDashJoin("2-", "AAA");
    NoDoubleDashJoin("2-AAA", "-3-");
    NoDoubleDashJoin("2-AAA-3-", "DDD");
  }

  /** The walk over a digit, a word, a digit and a word that ends the text: its last boundary gets no dash. */
  lemma SplitAtEndWalk(x: string, a: string, y: string, d: string, idx: seq<int>)
    requires |x| == 1 && |y| == 1 && |a| == 3 && |d| == 3 && idx == [7, 5, 3, 1]
    ensures Formatter.IndexesIn(idx, |x + a + y + d|)
    ensures InlineWalk(x + a + y + d, idx, 4) == x + "-" + a + "-" + y + "-" + d
  {
    var w := x + a + y + d;
    var t1 := "-" + d;
    var t2 := "-" + (y + t1);
    InsertAfter(x + a, y, d, 5, false);
    InsertAfter(x, a, y + t1, 3, true);
    Insert(x, a + t2, 1, false);
    WalkOfFour(w, idx, w, x + a + (y + t1), x + (a + t2), x + ("-" + (a + t2)));
  }

  // ---------------------------------------------------------------- "222333" with "AAA", "BBB" and "DDD"

  /** A one-member pattern whose key holds two words has two rows. */
  lemma OneKeyTwoRows(b: Buckets, number: string, p: seq<SubString>)
    requires Fits(b, number, p) && |p| == 1 && |b[p[0].value]| == 2
    ensures PatternWords(b, number, p) == RowWords(b, number, p, 0) + RowWords(b, number, p, 1)
  {
    assert p[..0] == [];
    assert Product(b, p) == Product(b, p[..0]) * 2 && Product(b, p[..0]) == 1;
    var all := AllRowWords(b, number, p);
    assert all == [RowWords(b, number, p, 0), RowWords(b, number, p, 1)];
    assert all[..1][..0] == [] && all[..1] == [all[0]];
    assert Flatten(all[..1]) == Flatten(all[..1][..0]) + all[0];
    assert Flatten(all) == Flatten(all[..1]) + all[1];
  }

  predicate AaaBbbDddBuckets(b: Buckets)
  {
    b == map["222" := ["AAA", "BBB"], "333" := ["DDD"]]
  }

  /** "222" alone: "AAA333" and "BBB333" both have "33". */
  lemma FirstWordsOf222333(b: Buckets, number: string, x: SubString)
    requires AaaBbbDddBuckets(b) && number == "222333" && x == SubString(number, "222", 0, 2)
    ensures Fits(b, number, [x])
    ensures PatternWords(b, number, [x]) == []
  {
    assert number[3..] == "333";
    RowOfOne(b, number, x, 0);
    RowOfOne(b, number, x, 1);
    assert PhonewordSyntaxChecker.ScanAdjacentDigits("AAA333") && !PhonewordSyntaxChecker.HasLineTerminator("AAA333");
    assert PhonewordSyntaxChecker.ScanAdjacentDigits("BBB333") && !PhonewordSyntaxChecker.HasLineTerminator("BBB333");
    RefusedRow(b, number, [x], 0, "AAA333");
    RefusedRow(b, number, [x], 1, "BBB333");
    OneKeyTwoRows(b, number, [x]);
  }

  /** "333" alone: "222DDD" has "22". */
  lemma SecondWordsOf222333(b: Buckets, number: string, y: SubString)
    requires AaaBbbDddBuckets(b) && number == "222333" && y == SubString(number, "333", 3, 5)
    ensures Fits(b, number, [y])
    ensures PatternWords(b, number, [y]) == []
  {
    assert number[..3] == "222" && number[6..] == "";
    RowOfOne(b, number, y, 0);
    assert PhonewordSyntaxChecker.ScanAdjacentDigits("222DDD") && !PhonewordSyntaxChecker.HasLineTerminator("222DDD");
    RefusedOneRow(b, number, [y], "222DDD");
  }

  /** Both runs: row `i` splices the `i`-th word of "222" and then "DDD". */
  lemma PairRowOf222333(b: Buckets, number: string, x: SubString, y: SubString, i: nat, row: string)
    requires AaaBbbDddBuckets(b) && number == "222333" && i < 2
    requires x == SubString(number, "222", 0, 2) && y == SubString(number, "333", 3, 5)
    requires row == ["AAA", "BBB"][i] + "DDD"
    ensures Fits(b, number, [x, y])
    ensures Row(b, number, [x, y], 2, i) == row
  {
    var w := ["AAA", "BBB"][i];
    assert number[..0] == "" && number[3..] == "333";
    RowOfPair(b, number, x, y, i);
    assert (w + "333")[..3] == w;
  }

  /** The row `w` + "DDD" is formatted `w` + "-DDD". */
  lemma PairWordOf222333(b: Buckets, number: string, x: SubString, y: SubString, i: nat, row: string, word: string)
    requires AaaBbbDddBuckets(b) && number == "222333" && i < 2
    requires x == SubString(number, "222", 0, 2) && y == SubString(number, "333", 3, 5)
    requires row == ["AAA", "BBB"][i] + "DDD" && word == ["AAA", "BBB"][i] + "-DDD"
    requires !PhonewordSyntaxChecker.ScanAdjacentDigits(row)
    ensures Fits(b, number, [x, y])
    ensures RowWords(b, number, [x, y], i) == [word]
  {
    var w := ["AAA", "BBB"][i];
    PairRowOf222333(b, number, x, y, i, row);
    AdjacentFormat(row, w, "DDD", [x, y]);
    AcceptedRow(b, number, [x, y], i, row, word);
  }

  /** Both runs: rows "AAADDD" and "BBBDDD", formatted "AAA-DDD" and "BBB-DDD". */
  lemma PairWordsOf222333(b: Buckets, number: string, x: SubString, y: SubString)
    requires AaaBbbDddBuckets(b) && number == "222333"
    requires x == SubString(number, "222", 0, 2) && y == SubString(number, "333", 3, 5)
    ensures Fits(b, number, [x, y])
    ensures PatternWords(b, number, [x, y]) == ["AAA-DDD", "BBB-DDD"]
  {
    assert !PhonewordSyntaxChecker.ScanAdjacentDigits("AAADDD") && !PhonewordSyntaxChecker.ScanAdjacentDigits("BBBDDD");
    PairWordOf222333(b, number, x, y, 0, "AAADDD", "AAA-DDD");
    PairWordOf222333(b, number, x, y, 1, "BBBDDD", "BBB-DDD");
    TwoRows(b, number, [x, y]);
  }

  /** Two three-letter words side by side, marked at 0-2 and 3-5, are joined by one dash. */
  lemma AdjacentFormat(w: string, a: string, d: string, p: seq<SubString>)
    requires w == a + d && |a| == 3 && |d| == 3
    requires !HasDoubleDash(a) && a[2] != '-' && !HasDoubleDash(d)
    requires |p| == 2 && p[0].start == 0 && p[0].end == 2 && p[1].start == 3 && p[1].end == 5
    ensures Formatter.InRange(w, p) && InlineFormatSpec(w, p) == a + "-" + d
  {
    var idx := [5, 3, 2, 0];
    IndexesOfPair(p, idx);
    AdjacentWalk(a, d, idx);
    FormatOfWalk(w, p, a + "--" + d);
    CollapseOneDouble(a, d);
  }

  /** The walk over two adjacent words that fill the text: only the dashes that meet between them. */
  lemma AdjacentWalk(a: string, d: string, idx: seq<int>)
    requires |a| == 3 && |d| == 3 && idx == [5, 3, 2, 0]
    ensures Formatter.IndexesIn(idx, |a + d|)
    ensures InlineWalk(a + d, idx, 4) == a + "--" + d
  {
    var v := a + ("-" + ("-" + d));
    Insert(a, d, 3, false);
    Insert(a, "-" + d, 2, true);
    WalkOfFour(a + d, idx, a + d, a + ("-" + d), v, v);
  }

  /** Joining two empty lists and two words. */
  lemma FlattenOfThree(all: seq<seq<string>>, x: string, y: string)
    requires all == [[], [], [x, y]]
    ensures Flatten(all) == [x, y]
  {
    FlattenStep(all, 0);
    FlattenStep(all, 1);
    FlattenStep(all, 2);
    assert all[..0] == [] && all[..3] == all;
  }

  /** The dictionary holding "AAA" and "BBB" under "222" and "DDD" under "333" keeps its invariant. */
  lemma AaaBbbDddWellFormed(s: State)
    requires AaaBbbDddBuckets(s.buckets) && s.shortest == 3
    ensures WellFormed(s) && ShortWords(s.buckets)
  {
    var b := s.buckets;
    AaaBbbDddStored(b);
    forall k, i | k in b && 0 <= i < |b[k]| ensures b[k] != [] && |b[k][i]| == 3 {
      assert k == "222" || k == "333";
    }
    assert "222" in b && |b["222"][0]| == 3;
  }

  lemma AaaBbbDddStored(b: Buckets)
    requires AaaBbbDddBuckets(b)
    ensures forall k, i :: k in b && 0 <= i < |b[k]| ==> Stored(b[k][i], k)
  {
    KeyOfAaa();
    KeyOfBbb();
    KeyOfDdd();
    assert Stored("AAA", "222") && Stored("BBB", "222") && Stored("DDD", "333");
    forall k, i | k in b && 0 <= i < |b[k]| ensures Stored(b[k][i], k) {
      assert k == "222" || k == "333";
    }
  }

  /** What each of the three patterns of "222333" yields. */
  lemma PatternWordsOf222333(b: Buckets, number: string, ss: seq<SubString>, ps: seq<seq<SubString>>)
    requires AaaBbbDddBuckets(b) && number == "222333"
    requires ss == [SubString(number, "222", 0, 2), SubString(number, "333", 3, 5)]
    requires ps == [[ss[0]], [ss[1]], [ss[0], ss[1]]]
    ensures AllFit(b, number, ps)
    ensures AllPatternWords(b, number, ps) == [[], [], ["AAA-DDD", "BBB-DDD"]]
  {
    var ws: seq<seq<string>> := [[], [], ["AAA-DDD", "BBB-DDD"]];
    forall k | 0 <= k < 3 ensures Fits(b, number, ps[k]) && PatternWords(b, number, ps[k]) == ws[k] {
      if k == 0 {
        FirstWordsOf222333(b, number, ss[0]);
      } else if k == 1 {
        SecondWordsOf222333(b, number, ss[1]);
      } else {
        PairWordsOf222333(b, number, ss[0], ss[1]);
      }
    }
    AllPatternWordsAre(b, number, ps, ws);
  }

  /** The lookup on the dictionary holding "AAA" and "BBB" under "222" and "DDD" under "333". */
  lemma LookupOf222333(s: State, number: string)
    requires AaaBbbDddBuckets(s.buckets) && s.shortest == 3 && number == "222333"
    ensures WellFormed(s) && ShortWords(s.buckets)
    ensures Phonewords(s, number) == ["AAA-DDD", "BBB-DDD"]
  {
    AaaBbbDddWellFormed(s);
    var b := s.buckets;
    RunsOfAaaBbbDdd(b, number);
    var ss := AllRuns(b, number, 3);
    ValidPatternsOf222333(ss);
    PatternWordsOf222333(b, number, ss, ValidPatterns(ss));
    FlattenOfThree(AllPatternWords(b, number, ValidPatterns(ss)), "AAA-DDD", "BBB-DDD");
  }

  /**
   * With "AAA", "BBB" and "DDD" added to a new dictionary, looking up
   * "222333" gives "AAA-DDD" and "BBB-DDD", in that order.
   */
  lemma PhonewordsOf222333(lines: seq<Option<string>>, number: string)
    requires lines == [Some("AAA"), Some("BBB"), Some("DDD")] && number == "222333"
    ensures WellFormed(AddWords(Empty(), lines)) && ShortWords(AddWords(Empty(), lines).buckets)
    ensures Phonewords(AddWords(Empty(), lines), number) == ["AAA-DDD", "BBB-DDD"]
  {
    AaaBbbDdd(lines);
    LookupOf222333(AddWords(Empty(), lines), number);
  }

  // ---------------------------------------------------------------- "122213331" with "AAA", "BBB" and "DDD"

  /** The pieces of "122213331" around its runs. */
  lemma PiecesOf122213331(number: string)
    requires number == "122213331"
    ensures number[..1] == "1" && number[4..] == "13331" && number[..5] == "12221" && number[8..] == "1"
  {
    assert number[..1] == "1" by { assert number[0] == '1'; }
    assert number[4..] == "13331" by {
      assert number[4] == '1' && number[5] == '3' && number[6] == '3' && number[7] == '3' && number[8] == '1';
    }
    assert number[..5] == "12221" by {
      assert number[0] == '1' && number[1] == '2' && number[2] == '2' && number[3] == '2' && number[4] == '1';
    }
    assert number[8..] == "1" by { assert number[8] == '1'; }
  }

  /** "222" alone: "1AAA13331" and "1BBB13331" both have "33". */
  lemma FirstWordsOf122213331(b: Buckets, number: string, x: SubString)
    requires AaaBbbDddBuckets(b) && number == "122213331" && x == SubString(number, "222", 1, 3)
    ensures Fits(b, number, [x])
    ensures PatternWords(b, number, [x]) == []
  {
    FirstRowsOf122213331(b, number, x);
    FirstRowsRefused();
    RefusedRow(b, number, [x], 0, "1AAA13331");
    RefusedRow(b, number, [x], 1, "1BBB13331");
    OneKeyTwoRows(b, number, [x]);
  }

  lemma FirstRowsOf122213331(b: Buckets, number: string, x: SubString)
    requires AaaBbbDddBuckets(b) && number == "122213331" && x == SubString(number, "222", 1, 3)
    ensures Fits(b, number, [x])
    ensures Row(b, number, [x], 1, 0) == "1AAA13331" && Row(b, number, [x], 1, 1) == "1BBB13331"
  {
    PiecesOf122213331(number);
    RowOfOne(b, number, x, 0);
    RowOfOne(b, number, x, 1);
  }

  /** "1AAA13331" and "1BBB13331" have two digits side by side. */
  lemma FirstRowsRefused()
    ensures PhonewordSyntaxChecker.ScanAdjacentDigits("1AAA13331") && !PhonewordSyntaxChecker.HasLineTerminator("1AAA13331")
    ensures PhonewordSyntaxChecker.ScanAdjacentDigits("1BBB13331") && !PhonewordSyntaxChecker.HasLineTerminator("1BBB13331")
  {
  }

  /** "333" alone: "12221DDD1" has "12". */
  lemma SecondWordsOf122213331(b: Buckets, number: string, y: SubString)
    requires AaaBbbDddBuckets(b) && number == "122213331" && y == SubString(number, "333", 5, 7)
    ensures Fits(b, number, [y])
    ensures PatternWords(b, number, [y]) == []
  {
    PiecesOf122213331(number);
    RowOfOne(b, number, y, 0);
    assert PhonewordSyntaxChecker.ScanAdjacentDigits("12221DDD1") && !PhonewordSyntaxChecker.HasLineTerminator("12221DDD1");
    RefusedOneRow(b, number, [y], "12221DDD1");
  }

  /** Both runs: row `i` is "1" + the `i`-th word of "222" + "1DDD1" ... */
  lemma PairRowOf122213331(b: Buckets, number: string, x: SubString, y: SubString, i: nat, a: string)
    requires AaaBbbDddBuckets(b) && number == "122213331" && i < 2 && a == b["222"][i]
    requires x == SubString(number, "222", 1, 3) && y == SubString(number, "333", 5, 7)
    ensures Fits(b, number, [x, y])
    ensures Row(b, number, [x, y], 2, i) == "1" + a + "1" + "DDD" + "1"
  {
    PiecesOf122213331(number);
    RowOfPair(b, number, x, y, i);
    var first := "1" + a + "13331";
    assert first[..5] == "1" + a + "1" && first[8..] == "1";
  }

  /** ... formatted with a dash at every boundary that is not the first or last letter. */
  lemma MiddleDigitFormat(w: string, a: string, d: string, p: seq<SubString>)
    requires w == "1" + a + "1" + d + "1" && |a| == 3 && |d| == 3
    requires |p| == 2 && p[0].start == 1 && p[0].end == 3 && p[1].start == 5 && p[1].end == 7
    requires '-' !in a && '-' !in d
    ensures Formatter.InRange(w, p) && InlineFormatSpec(w, p) == "1-" + a + "-1-" + d + "-1"
  {
    var idx := [7, 5, 3, 1];
    IndexesOfPair(p, idx);
    MiddleDigitWalk("1", a, "1", d, "1", idx);
    var v := "1" + ("-" + (a + ("-" + ("1" + ("-" + (d + ("-" + "1")))))));
    assert v == "1-" + a + "-1-" + d + "-1";
    FormatOfWalk(w, p, v);
    MiddleDigitNoDoubleDash(a, d);
  }

  /** The walk over a word, a digit and a word between single digits: a dash at each of the four joins. */
  lemma MiddleDigitWalk(x: string, a: string, y: string, d: string, z: string, idx: seq<int>)
    requires |x| == 1 && |y| == 1 && |z| == 1 && |a| == 3 && |d| == 3 && idx == [7, 5, 3, 1]
    ensures Formatter.IndexesIn(idx, |x + a + y + d + z|)
    ensures InlineWalk(x + a + y + d + z, idx, 4) == x + ("-" + (a + ("-" + (y + ("-" + (d + ("-" + z)))))))
  {
    var t1 := "-" + z;
    var t2 := "-" + (d + t1);
    var t3 := "-" + (y + t2);
    var v := x + ("-" + (a + t3));
    InsertAfter(x + a + y, d, z, 7, true);
    InsertAfter(x + a, y, d + t1, 5, false);
    InsertAfter(x, a, y + t2, 3, true);
    Insert(x, a + t3, 1, false);
    WalkOfFour(x + a + y + d + z, idx, x + a + y + (d + t1), x + a + (y + t2), x + (a + t3), v);
  }

  lemma MiddleDigitNoDoubleDash(a: string, d: string)
    requires |a| == 3 && |d| == 3 && '-' !in a && '-' !in d
    ensures CollapseDoubleDash("1-" + a + "-1-" + d + "-1") == "1-" + a + "-1-" + d + "-1"
  {
    assert NoDoubleDash(a) && NoDoubleDash(d);
    assert NoDoubleDash("1-") && NoDoubleDash("-1-") && NoDoubleDash("-1");
    assert a[|a| - 1] != '-' && a[0] != '-' && d[|d| - 1] != '-' && d[0] != '-';
    NoDoubleDashJoin("1-", a);
    NoDoubleDashJoin("1-" + a, "-1-");
    NoDoubleDashJoin("1-" + a + "-1-", d);
    NoDoubleDashJoin("1-" + a + "-1-" + d, "-1");
    CollapseIdentity("1-" + a + "-1-" + d + "-1");
  }

  /** Row `i` of both runs yields "1-" + its word of "222" + "-1-DDD-1". */
  lemma PairWordOf122213331(b: Buckets, number: string, x: SubString, y: SubString, i: nat, a: string)
    requires AaaBbbDddBuckets(b) && number == "122213331" && i < 2 && a == b["222"][i]
    requires x == SubString(number, "222", 1, 3) && y == SubString(number, "333", 5, 7)
    requires !PhonewordSyntaxChecker.ScanAdjacentDigits("1" + a + "1" + "DDD" + "1") && '-' !in a
    ensures Fits(b, number, [x, y])
    ensures RowWords(b, number, [x, y], i) == ["1-" + a + "-1-" + "DDD" + "-1"]
  {
    PairRowOf122213331(b, number, x, y, i, a);
    MiddleDigitFormat("1" + a + "1" + "DDD" + "1", a, "DDD", [x, y]);
    AcceptedRow(b, number, [x, y], i, "1" + a + "1" + "DDD" + "1", "1-" + a + "-1-" + "DDD" + "-1");
  }

  /** Both runs: "1-AAA-1-DDD-1" and "1-BBB-1-DDD-1". */
  lemma PairWordsOf122213331(b: Buckets, number: string, x: SubString, y: SubString)
    requires AaaBbbDddBuckets(b) && number == "122213331"
    requires x == SubString(number, "222", 1, 3) && y == SubString(number, "333", 5, 7)
    ensures Fits(b, number, [x, y])
    ensures PatternWords(b, number, [x, y]) == ["1-AAA-1-DDD-1", "1-BBB-1-DDD-1"]
  {
    MiddleDigitRowAaa();
    MiddleDigitRowBbb();
    PairWordOf122213331(b, number, x, y, 0, "AAA");
    PairWordOf122213331(b, number, x, y, 1, "BBB");
    TwoRows(b, number, [x, y]);
  }

  /** "1AAA1DDD1" has no two digits side by side and "AAA" no dash ... */
  lemma MiddleDigitRowAaa()
    ensures !PhonewordSyntaxChecker.ScanAdjacentDigits("1" + "AAA" + "1" + "DDD" + "1") && '-' !in "AAA"
    ensures "1-" + "AAA" + "-1-" + "DDD" + "-1" == "1-AAA-1-DDD-1"
  {
    assert "1" + "AAA" + "1" + "DDD" + "1" == "1AAA1DDD1";
    assert !PhonewordSyntaxChecker.ScanAdjacentDigits("1AAA1DDD1");
  }

  /** ... and neither do "1BBB1DDD1" and "BBB". */
  lemma MiddleDigitRowBbb()
    ensures !PhonewordSyntaxChecker.ScanAdjacentDigits("1" + "BBB" + "1" + "DDD" + "1") && '-' !in "BBB"
    ensures "1-" + "BBB" + "-1-" + "DDD" + "-1" == "1-BBB-1-DDD-1"
  {
    assert "1" + "BBB" + "1" + "DDD" + "1" == "1BBB1DDD1";
    assert !PhonewordSyntaxChecker.ScanAdjacentDigits("1BBB1DDD1");
  }

  /** What each of the three patterns of "122213331" yields. */
  lemma PatternWordsOf122213331(b: Buckets, number: string, ss: seq<SubString>, ps: seq<seq<SubString>>)
    requires AaaBbbDddBuckets(b) && number == "122213331"
    requires ss == [SubString(number, "222", 1, 3), SubString(number, "333", 5, 7)]
    requires ps == [[ss[0]], [ss[1]], [ss[0], ss[1]]]
    ensures AllFit(b, number, ps)
    ensures AllPatternWords(b, number, ps) == [[], [], ["1-AAA-1-DDD-1", "1-BBB-1-DDD-1"]]
  {
    var ws: seq<seq<string>> := [[], [], ["1-AAA-1-DDD-1", "1-BBB-1-DDD-1"]];
    forall k | 0 <= k < 3 ensures Fits(b, number, ps[k]) && PatternWords(b, number, ps[k]) == ws[k] {
      if k == 0 {
        FirstWordsOf122213331(b, number, ss[0]);
      } else if k == 1 {
        SecondWordsOf122213331(b, number, ss[1]);
      } else {
        PairWordsOf122213331(b, number, ss[0], ss[1]);
      }
    }
    AllPatternWordsAre(b, number, ps, ws);
  }

  /** The lookup of "122213331" on the dictionary holding "AAA" and "BBB" under "222" and "DDD" under "333". */
  lemma LookupOf122213331(s: State, number: string)
    requires AaaBbbDddBuckets(s.buckets) && s.shortest == 3 && number == "122213331"
    ensures WellFormed(s) && ShortWords(s.buckets)
    ensures Phonewords(s, number) == ["1-AAA-1-DDD-1", "1-BBB-1-DDD-1"]
  {
    AaaBbbDddWellFormed(s);
    var b := s.buckets;
    RunsOf122213331(b, number);
    var ss := AllRuns(b, number, 3);
    ValidPatternsOf122213331(ss);
    PatternWordsOf122213331(b, number, ss, ValidPatterns(ss));
    FlattenOfThree(AllPatternWords(b, number, ValidPatterns(ss)), "1-AAA-1-DDD-1", "1-BBB-1-DDD-1");
  }

  /**
   * With "AAA", "BBB" and "DDD" added to a new dictionary, looking up
   * "122213331" gives "1-AAA-1-DDD-1" and "1-BBB-1-DDD-1", in that order.
   */
  lemma PhonewordsOf122213331(lines: seq<Option<string>>, number: string)
    requires lines == [Some("AAA"), Some("BBB"), Some("DDD")] && number == "122213331"
    ensures WellFormed(AddWords(Empty(), lines)) && ShortWords(AddWords(Empty(), lines).buckets)
    ensures Phonewords(AddWords(Empty(), lines), number) == ["1-AAA-1-DDD-1", "1-BBB-1-DDD-1"]
  {
    AaaBbbDdd(lines);
    LookupOf122213331(AddWords(Empty(), lines), number);
  }

  // ---------------------------------------------------------------- single patterns

  /** The boundaries of a one-member pattern over two or more digits, largest first. */
  lemma IndexesOfOne(p: seq<SubString>, s: seq<int>)
    requires |p| == 1 && p[0].start < p[0].end && s == [p[0].end, p[0].start]
    ensures TreeSetIndexes(p) == s
  {
    assert p[1..] == [];
    assert Formatter.Bounds(p) == [p[0].start, p[0].end];
    TreeSetOrderUnique(p, s);
  }

  /** A word marked at 1 to |m| between two single digits gets a dash on each side. */
  lemma SurroundedFormat(w: string, c: string, m: string, d: string, p: seq<SubString>)
    requires w == c + m + d && |c| == 1 && |d| == 1 && |m| >= 2
    requires |p| == 1 && p[0].start == 1 && p[0].end == |m|
    requires !HasDoubleDash(c + "-" + m + "-" + d)
    ensures Formatter.InRange(w, p) && InlineFormatSpec(w, p) == c + "-" + m + "-" + d
  {
    var idx := [|m|, 1];
    IndexesOfOne(p, idx);
    SurroundedWalk(c, m, d, idx);
    FormatOfWalk(w, p, c + "-" + m + "-" + d);
    NoDoubleDashScan(c + "-" + m + "-" + d);
    CollapseIdentity(c + "-" + m + "-" + d);
  }

  /** The walk over a word between two single letters: a dash on each side of the word. */
  lemma SurroundedWalk(c: string, m: string, d: string, idx: seq<int>)
    requires |c| == 1 && |d| == 1 && |m| >= 2 && idx == [|m|, 1]
    ensures Formatter.IndexesIn(idx, |c + m + d|)
    ensures InlineWalk(c + m + d, idx, 2) == c + "-" + m + "-" + d
  {
    InsertAfter(c, m, d, |m|, true);
    Insert(c, m + ("-" + d), 1, false);
    assert InlineWalk(c + m + d, idx, 1) == c + (m + ("-" + d));
  }

  /** Row `i` of a four-digit key found between two single digits, formatted with a dash on each side. */
  lemma SurroundedRow(b: Buckets, number: string, x: SubString, k: string, ws: seq<string>, i: nat, row: string, word: string)
    requires |number| == 6 && number[1..5] == k && b == map[k := ws] && |ws| == 2 && |ws[0]| == 4 && |ws[1]| == 4
    requires x == SubString(number, k, 1, 4) && i < 2
    requires row == number[..1] + ws[i] + number[5..] && word == number[..1] + "-" + ws[i] + "-" + number[5..]
    requires !PhonewordSyntaxChecker.ScanAdjacentDigits(row) && !HasDoubleDash(word)
    ensures Fits(b, number, [x])
    ensures RowWords(b, number, [x], i) == [word]
  {
    RowOfOne(b, number, x, i);
    SurroundedFormat(row, number[..1], ws[i], number[5..], [x]);
    AcceptedRow(b, number, [x], i, row, word);
  }

  /** "1ADGJ1" and "1BEHK1" have no two digits side by side, and their formatted words no "--". */
  lemma AdgjBehkRowsAccepted()
    ensures !PhonewordSyntaxChecker.ScanAdjacentDigits("1ADGJ1") && !PhonewordSyntaxChecker.ScanAdjacentDigits("1BEHK1")
    ensures !HasDoubleDash("1-ADGJ-1") && !HasDoubleDash("1-BEHK-1")
  {
  }

  /** "1AAAA1" and "1BBBB1" have no two digits side by side, and their formatted words no "--". */
  lemma AaaaBbbbRowsAccepted()
    ensures !PhonewordSyntaxChecker.ScanAdjacentDigits("1AAAA1") && !PhonewordSyntaxChecker.ScanAdjacentDigits("1BBBB1")
    ensures !HasDoubleDash("1-AAAA-1") && !HasDoubleDash("1-BBBB-1")
  {
  }

  /** Both rows of a four-digit key with two words, found between two single digits. */
  lemma SurroundedWords(b: Buckets, number: string, x: SubString, k: string, ws: seq<string>)
    requires |number| == 6 && number[1..5] == k && b == map[k := ws] && |ws| == 2 && |ws[0]| == 4 && |ws[1]| == 4
    requires x == SubString(number, k, 1, 4)
    requires !PhonewordSyntaxChecker.ScanAdjacentDigits(number[..1] + ws[0] + number[5..])
    requires !PhonewordSyntaxChecker.ScanAdjacentDigits(number[..1] + ws[1] + number[5..])
    requires !HasDoubleDash(number[..1] + "-" + ws[0] + "-" + number[5..])
    requires !HasDoubleDash(number[..1] + "-" + ws[1] + "-" + number[5..])
    ensures Fits(b, number, [x])
    ensures PatternWords(b, number, [x]) ==
      [number[..1] + "-" + ws[0] + "-" + number[5..], number[..1] + "-" + ws[1] + "-" + number[5..]]
  {
    SurroundedRow(b, number, x, k, ws, 0, number[..1] + ws[0] + number[5..], number[..1] + "-" + ws[0] + "-" + number[5..]);
    SurroundedRow(b, number, x, k, ws, 1, number[..1] + ws[1] + number[5..], number[..1] + "-" + ws[1] + "-" + number[5..]);
    OneKeyTwoRows(b, number, [x]);
  }

  /** The pattern "2345" at 1-4 of "123451" with "ADGJ" and "BEHK": "1-ADGJ-1" and "1-BEHK-1". */
  lemma PatternWordsOfAdgjBehk(b: Buckets, number: string, x: SubString)
    requires b == map["2345" := ["ADGJ", "BEHK"]] && number == "123451"
    requires x == SubString(number, "2345", 1, 4)
    ensures Fits(b, number, [x])
    ensures PatternWords(b, number, [x]) == ["1-ADGJ-1", "1-BEHK-1"]
  {
    assert number[..1] == "1" && number[1..5] == "2345" && number[5..] == "1";
    assert "1" + "ADGJ" + "1" == "1ADGJ1" && "1" + "BEHK" + "1" == "1BEHK1";
    assert "1" + "-" + "ADGJ" + "-" + "1" == "1-ADGJ-1" && "1" + "-" + "BEHK" + "-" + "1" == "1-BEHK-1";
    AdgjBehkRowsAccepted();
    SurroundedWords(b, number, x, "2345", ["ADGJ", "BEHK"]);
  }

  /** The pattern "2222" at 1-4 of "122221" with "AAAA" and "BBBB": "1-AAAA-1" and "1-BBBB-1". */
  lemma PatternWordsOfAaaaBbbb(b: Buckets, number: string, x: SubString)
    requires b == map["2222" := ["AAAA", "BBBB"]] && number == "122221"
    requires x == SubString(number, "2222", 1, 4)
    ensures Fits(b, number, [x])
    ensures PatternWords(b, number, [x]) == ["1-AAAA-1", "1-BBBB-1"]
  {
    assert number[..1] == "1" && number[1..5] == "2222" && number[5..] == "1";
    assert "1" + "AAAA" + "1" == "1AAAA1" && "1" + "BBBB" + "1" == "1BBBB1";
    assert "1" + "-" + "AAAA" + "-" + "1" == "1-AAAA-1" && "1" + "-" + "BBBB" + "-" + "1" == "1-BBBB-1";
    AaaaBbbbRowsAccepted();
    SurroundedWords(b, number, x, "2222", ["AAAA", "BBBB"]);
  }

  /** "KITTY" over 0-4 of "1154889" leaves "KITTY89": two digits side by side, no word. */
  lemma PatternWordsOfKitty89(b: Buckets, number: string, x: SubString)
    requires b == map["54889" := ["KITTY"]] && number == "1154889"
    requires x == SubString(number, "54889", 0, 4)
    ensures Fits(b, number, [x])
    ensures PatternWords(b, number, [x]) == []
  {
    assert number[..0] == "" && number[5..] == "89";
    RowOfOne(b, number, x, 0);
    assert PhonewordSyntaxChecker.ScanAdjacentDigits("KITTY89") && !PhonewordSyntaxChecker.HasLineTerminator("KITTY89");
    RefusedOneRow(b, number, [x], "KITTY89");
  }

  /** "1KITTY" with "KITTY" marked at 1-5 is formatted "1-KITTY": the last index gets no dash. */
  lemma OneKittyFormat(w: string, p: seq<SubString>)
    requires w == "1KITTY" && |p| == 1 && p[0].start == 1 && p[0].end == 5
    ensures Formatter.InRange(w, p) && InlineFormatSpec(w, p) == "1-KITTY"
  {
    var idx := [5, 1];
    IndexesOfOne(p, idx);
    OneKittyText();
    OneLetterFirstWalk("1", "KITTY", idx);
    FormatOfWalk(w, p, "1-KITTY");
    CollapseIdentity("1-KITTY");
  }

  lemma OneKittyText()
    ensures "1KITTY" == "1" + "KITTY" && "1" + "-" + "KITTY" == "1-KITTY"
    ensures NoDoubleDash("1-KITTY")
  {
    NoDoubleDashScan("1-KITTY");
  }

  /** The walk over one letter and a word that ends the text: a dash after the letter only. */
  lemma OneLetterFirstWalk(c: string, m: string, idx: seq<int>)
    requires |c| == 1 && |m| >= 2 && idx == [|m|, 1]
    ensures Formatter.IndexesIn(idx, |c + m|)
    ensures InlineWalk(c + m, idx, 2) == c + "-" + m
  {
    Insert(c, m, 1, false);
    assert InlineWalk(c + m, idx, 1) == c + m;
  }

  /** "KITTY" over 1-5 of "154889" gives "1KITTY", formatted "1-KITTY". */
  lemma PatternWordsOf1Kitty(b: Buckets, number: string, x: SubString)
    requires b == map["54889" := ["KITTY"]] && number == "154889"
    requires x == SubString(number, "54889", 1, 5)
    ensures Fits(b, number, [x])
    ensures PatternWords(b, number, [x]) == ["1-KITTY"]
  {
    assert number[..1] == "1" && number[6..] == "";
    RowOfOne(b, number, x, 0);
    OneRow(b, number, [x]);
    assert !PhonewordSyntaxChecker.ScanAdjacentDigits("1KITTY");
    OneKittyFormat("1KITTY", [x]);
    AcceptedRow(b, number, [x], 0, "1KITTY", "1-KITTY");
  }

  /**
   * "A" over 0-0 of "23" gives the row "A3". Its one boundary is index 0,
   * which the inline formatting skips, so the word stays "A3".
   */
  lemma PatternWordsOfA3(b: Buckets, number: string, x: SubString)
    requires b == map["2" := ["A"]] && number == "23"
    requires x == SubString(number, "2", 0, 0)
    ensures Fits(b, number, [x])
    ensures PatternWords(b, number, [x]) == ["A3"]
  {
    assert number[..0] == "" && number[1..] == "3";
    RowOfOne(b, number, x, 0);
    OneRow(b, number, [x]);
    assert !PhonewordSyntaxChecker.ScanAdjacentDigits("A3");
    A3Format("A3", [x]);
    AcceptedRow(b, number, [x], 0, "A3", "A3");
  }

  /** A word marked at 0-0 has the one boundary 0, which the walk skips. */
  lemma A3Format(w: string, p: seq<SubString>)
    requires w == "A3" && |p| == 1 && p[0].start == 0 && p[0].end == 0
    ensures Formatter.InRange(w, p) && InlineFormatSpec(w, p) == "A3"
  {
    assert p[1..] == [];
    assert Formatter.Bounds(p) == [0, 0];
    TreeSetOrderUnique(p, [0]);
    assert InlineWalk(w, [0], 1) == w;
    FormatOfWalk(w, p, w);
    NoDoubleDashScan(w);
    CollapseIdentity(w);
  }

  /** "STAR" at 0-3 and "WARS" at 4-7 of "782792771" give the row "STARWARS1" ... */
  lemma StarWarsRow(b: Buckets, number: string, x: SubString, y: SubString)
    requires b == map["7827" := ["STAR"], "9277" := ["WARS"]] && number == "782792771"
    requires x == SubString(number, "7827", 0, 3) && y == SubString(number, "9277", 4, 7)
    ensures Fits(b, number, [x, y])
    ensures Row(b, number, [x, y], 2, 0) == "STARWARS1"
  {
    assert number[..0] == "" && number[4..] == "92771";
    RowOfPair(b, number, x, y, 0);
    var first := "STAR92771";
    assert first[..4] == "STAR" && first[8..] == "1";
  }

  /** ... formatted "STAR-WARS-1": the dashes that meet at 3|4 collapse into one. */
  lemma StarWarsFormat(w: string, p: seq<SubString>)
    requires w == "STARWARS1" && |p| == 2
    requires p[0].start == 0 && p[0].end == 3 && p[1].start == 4 && p[1].end == 7
    ensures Formatter.InRange(w, p) && InlineFormatSpec(w, p) == "STAR-WARS-1"
  {
    var idx := [7, 4, 3, 0];
    IndexesOfPair(p, idx);
    StarWarsText();
    AdjacentFromStartWalk("STAR", "WARS", "1", idx);
    FormatOfWalk(w, p, "STAR" + "--" + "WARS-1");
    CollapseOneDouble("STAR", "WARS-1");
  }

  lemma StarWarsText()
    ensures "STARWARS1" == "STAR" + "WARS" + "1"
    ensures "STAR" + "--" + "WARS" + "-" + "1" == "STAR" + "--" + "WARS-1"
    ensures "STAR" + "-" + "WARS-1" == "STAR-WARS-1"
    ensures !HasDoubleDash("STAR") && "STAR"[3] != '-' && !HasDoubleDash("WARS-1")
  {
  }

  /** The walk over two adjacent words from the start and one more letter: the first boundary gets no dash. */
  lemma AdjacentFromStartWalk(a: string, d: string, z: string, idx: seq<int>)
    requires |a| == 4 && |d| == 4 && |z| == 1 && idx == [7, 4, 3, 0]
    ensures Formatter.IndexesIn(idx, |a + d + z|)
    ensures InlineWalk(a + d + z, idx, 4) == a + "--" + d + "-" + z
  {
    var t1 := "-" + z;
    var t2 := "-" + (d + t1);
    InsertAfter(a, d, z, 7, true);
    Insert(a, d + t1, 4, false);
    Insert(a, t2, 3, true);
    WalkOfFour(a + d + z, idx, a + (d + t1), a + t2, a + ("-" + t2), a + ("-" + t2));
  }

  /** The pattern of "STAR" and "WARS" in "782792771" yields "STAR-WARS-1" alone. */
  lemma PatternWordsOfStarWars(b: Buckets, number: string, x: SubString, y: SubString)
    requires b == map["7827" := ["STAR"], "9277" := ["WARS"]] && number == "782792771"
    requires x == SubString(number, "7827", 0, 3) && y == SubString(number, "9277", 4, 7)
    ensures Fits(b, number, [x, y])
    ensures PatternWords(b, number, [x, y]) == ["STAR-WARS-1"]
  {
    StarWarsRow(b, number, x, y);
    OneRow(b, number, [x, y]);
    assert !PhonewordSyntaxChecker.ScanAdjacentDigits("STARWARS1");
    StarWarsFormat("STARWARS1", [x, y]);
    AcceptedRow(b, number, [x, y], 0, "STARWARS1", "STAR-WARS-1");
  }
}

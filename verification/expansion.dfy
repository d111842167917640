/**
 * The expansion of one pattern into candidate words, shared by both
 * dictionaries: as many rows as the product of the pattern's bucket sizes,
 * each starting as the phone number, and then, member by member, the
 * member's run spliced over with one of its bucket's words in every row.
 * The rows are walked in blocks as long as the member's bucket, so row `i`
 * receives word `i mod W` of a bucket of `W` words, for every member alike.
 */
module Expansion {
  import opened SubStrings
  import opened Patterns
  import opened Lexicon

  // ---------------------------------------------------------------- splicing

  /** `replaceSubString`: the text before the run's start, then the new text, then the text after the run's end. */
  function ReplaceSubString(s: string, sub: SubString, newString: string): (r: string)
    requires 0 <= sub.start <= |s| && 0 <= sub.end + 1 <= |s|
    ensures |r| == sub.start + |newString| + (|s| - (sub.end + 1))
  {
    s[..sub.start] + newString + s[sub.end + 1..]
  }

  /**
   * Splicing a text exactly as long as the run keeps the length; the run's
   * positions then read the new text and every other position is unchanged.
   */
  lemma ReplaceAt(s: string, sub: SubString, newString: string)
    requires 0 <= sub.start && sub.end < |s| && |newString| == sub.end - sub.start + 1
    ensures |ReplaceSubString(s, sub, newString)| == |s|
    ensures forall x :: 0 <= x < |s| ==>
      ReplaceSubString(s, sub, newString)[x] == if Covers(sub, x) then newString[x - sub.start] else s[x]
  {
    var r := ReplaceSubString(s, sub, newString);
    forall x | 0 <= x < |s|
      ensures r[x] == if Covers(sub, x) then newString[x - sub.start] else s[x]
    {
      if x < sub.start {
        assert r[x] == s[..sub.start][x];
      } else if x <= sub.end {
        assert r[x] == (s[..sub.start] + newString)[x];
      } else {
        assert r[x] == s[sub.end + 1..][x - sub.start - |newString|];
      }
    }
  }

  lemma ReplaceExample()
    ensures ReplaceSubString("22223333", SubString("22223333", "222", 1, 3), "ABC") == "2ABC3333"
  {
    assert "22223333"[..1] == "2";
    assert "22223333"[4..] == "3333";
  }

  // ---------------------------------------------------------------- rows

  /**
   * A member the expansion can splice: its value is a key with words, its
   * run lies inside the number, and every word of its bucket is exactly as
   * long as the run, so splicing keeps every row as long as the number.
   */
  predicate MemberFits(b: Buckets, number: string, s: SubString)
  {
    && s.value in b && b[s.value] != []
    && 0 <= s.start <= s.end < |number|
    && (forall j :: 0 <= j < |b[s.value]| ==> |b[s.value][j]| == s.end - s.start + 1)
  }

  predicate Fits(b: Buckets, number: string, p: seq<SubString>)
  {
    forall k :: 0 <= k < |p| ==> MemberFits(b, number, p[k])
  }

  /** The number of rows: the product of the members' bucket sizes. */
  function Product(b: Buckets, p: seq<SubString>): nat
    requires forall k :: 0 <= k < |p| ==> p[k].value in b
  {
    if p == [] then 1 else Product(b, p[..|p| - 1]) * |b[p[|p| - 1].value]|
  }

  /** Row `i` once the first `m` members are spliced: member `k` contributes word `i mod W` of its `W` words. */
  function Row(b: Buckets, number: string, p: seq<SubString>, m: nat, i: nat): (r: string)
    requires Fits(b, number, p) && m <= |p|
    ensures |r| == |number|
  {
    if m == 0 then number
    else
      var sub := p[m - 1];
      var words := b[sub.value];
      var prev := Row(b, number, p, m - 1, i);
      ReplaceAt(prev, sub, words[i % |words|]);
      ReplaceSubString(prev, sub, words[i % |words|])
  }

  /** All rows of the expansion. */
  function Rows(b: Buckets, number: string, p: seq<SubString>): (r: seq<string>)
    requires Fits(b, number, p)
    ensures |r| == Product(b, p)
    ensures forall i :: 0 <= i < |r| ==> r[i] == Row(b, number, p, |p|, i)
  {
    seq(Product(b, p), i requires 0 <= i => Row(b, number, p, |p|, i))
  }

  // ---------------------------------------------------------------- block arithmetic

  lemma BlockFits(c: nat, blocks: nat, w: nat)
    requires c * w < blocks * w
    ensures c * w + w <= blocks * w
  {
    if c >= blocks {
      MulMono(blocks, c, w);
    }
    MulMono(c + 1, blocks, w);
  }

  lemma MulMono(a: nat, b: nat, w: nat)
    requires a <= b
    ensures a * w <= b * w
  {
  }

  /** Position `j` of block `c` of `w` rows is row `c * w + j`, and `(c * w + j) mod w == j`. */
  lemma ModBlock(c: nat, w: nat, j: nat)
    requires j < w
    ensures (c * w + j) % w == j
  {
    var x := c * w + j;
    var q, r := x / w, x % w;
    assert x == q * w + r;
    if q > c {
      MulMono(c + 1, q, w);
    } else if q < c {
      MulMono(q + 1, c, w);
    }
  }

  // ---------------------------------------------------------------- the loops

  /** The product of the bucket sizes, accumulated member by member as the stream's reduce does. */
  method CountRows(b: Buckets, pattern: seq<SubString>) returns (noOfPossibleWords: nat)
    requires forall k :: 0 <= k < |pattern| ==> pattern[k].value in b
    ensures noOfPossibleWords == Product(b, pattern)
  {
    noOfPossibleWords := 1;
    var k := 0;
    while k < |pattern|
      invariant 0 <= k <= |pattern|
      invariant noOfPossibleWords == Product(b, pattern[..k])
    {
      assert pattern[..k + 1][..k] == pattern[..k];
      noOfPossibleWords := noOfPossibleWords * |b[pattern[k].value]|;
      k := k + 1;
    }
    assert pattern[..k] == pattern;
  }

  /** The rows form `blocks` blocks as long as member `m`'s bucket: the count is a product that has that size as a factor. */
  lemma {:induction false} ProductHasFactor(b: Buckets, p: seq<SubString>, m: nat) returns (blocks: nat)
    requires forall k :: 0 <= k < |p| ==> p[k].value in b
    requires m < |p|
    ensures Product(b, p) == blocks * |b[p[m].value]|
  {
    var last := |p| - 1;
    var init := p[..last];
    if m == last {
      blocks := Product(b, init);
    } else {
      assert init[m] == p[m];
      var q := ProductHasFactor(b, init, m);
      blocks := q * |b[p[last].value]|;
    }
  }

  /** The first `i` rows have member `m` spliced in, the rest are still as they were. */
  predicate SplicedUpTo(b: Buckets, number: string, pattern: seq<SubString>, m: nat, rows0: seq<string>, rows: seq<string>, i: nat)
    requires Fits(b, number, pattern) && m < |pattern|
  {
    && |rows| == |rows0| && i <= |rows|
    && (forall x :: 0 <= x < i ==> rows[x] == Row(b, number, pattern, m + 1, x))
    && (forall x :: i <= x < |rows| ==> rows[x] == rows0[x])
  }

  /** Splicing word `i mod W` into row `i` extends the spliced prefix by one row. */
  lemma SpliceNext(b: Buckets, number: string, pattern: seq<SubString>, m: nat, rows0: seq<string>, rows: seq<string>, i: nat, j: nat, newRow: string)
    requires Fits(b, number, pattern) && m < |pattern|
    requires forall x :: 0 <= x < |rows0| ==> rows0[x] == Row(b, number, pattern, m, x)
    requires SplicedUpTo(b, number, pattern, m, rows0, rows, i) && i < |rows|
    requires j < |b[pattern[m].value]| && i % |b[pattern[m].value]| == j
    requires newRow == ReplaceSubString(Row(b, number, pattern, m, i), pattern[m], b[pattern[m].value][j])
    ensures SplicedUpTo(b, number, pattern, m, rows0, rows[i := newRow], i + 1)
  {
    assert rows[i] == Row(b, number, pattern, m, i);
  }

  /** The splice of member `m` into every row, block by block, row `i` taking word `i mod W`. */
  method SpliceMember(b: Buckets, number: string, pattern: seq<SubString>, m: nat, rows0: seq<string>, ghost blocks: nat)
    returns (rows: seq<string>)
    requires Fits(b, number, pattern) && m < |pattern|
    requires |rows0| == blocks * |b[pattern[m].value]|
    requires forall i :: 0 <= i < |rows0| ==> rows0[i] == Row(b, number, pattern, m, i)
    ensures |rows| == |rows0|
    ensures forall i :: 0 <= i < |rows| ==> rows[i] == Row(b, number, pattern, m + 1, i)
  {
    var subString := pattern[m];
    var dictionaryWords := b[subString.value];
    rows := rows0;
    var i := 0;
    ghost var c := 0;
    while i < |rows|
      invariant c <= blocks && i == c * |dictionaryWords|
      invariant SplicedUpTo(b, number, pattern, m, rows0, rows, i)
    {
      BlockFits(c, blocks, |dictionaryWords|);
      var j := 0;
      while j < |dictionaryWords|
        invariant 0 <= j <= |dictionaryWords| && i == c * |dictionaryWords| + j
        invariant SplicedUpTo(b, number, pattern, m, rows0, rows, i)
      {
        var correspondingWord := dictionaryWords[j];
        ModBlock(c, |dictionaryWords|, j);
        var newStr := ReplaceSubString(rows[i], subString, correspondingWord);
        SpliceNext(b, number, pattern, m, rows0, rows, i, j, newStr);
        rows := rows[i := newStr];
        j := j + 1;
        i := i + 1;
      }
      c := c + 1;
    }
  }

  /** The expansion: `Product` copies of the number, then every member spliced in, in pattern order. */
  method Expand(b: Buckets, number: string, pattern: seq<SubString>) returns (rows: seq<string>)
    requires Fits(b, number, pattern)
    ensures rows == Rows(b, number, pattern)
  {
    var noOfPossibleWords := CountRows(b, pattern);
    rows := [];
    while |rows| < noOfPossibleWords
      invariant |rows| <= noOfPossibleWords
      invariant forall x :: 0 <= x < |rows| ==> rows[x] == number
    {
      rows := rows + [number];
    }
    var m := 0;
    while m < |pattern|
      invariant 0 <= m <= |pattern|
      invariant |rows| == noOfPossibleWords
      invariant forall x :: 0 <= x < |rows| ==> rows[x] == Row(b, number, pattern, m, x)
    {
      ghost var blocks := ProductHasFactor(b, pattern, m);
      rows := SpliceMember(b, number, pattern, m, rows, blocks);
      m := m + 1;
    }
  }

  // ---------------------------------------------------------------- what a row holds

  /**
   * With members that do not overlap, row `i` holds, in every member's run,
   * word `i mod W` of that member's bucket, and keeps the number's own
   * character everywhere else.
   */
  lemma {:induction false} RowContents(b: Buckets, number: string, p: seq<SubString>, m: nat, i: nat, x: int)
    requires Fits(b, number, p) && NoConflicts(p) && m <= |p|
    requires 0 <= x < |number|
    ensures forall k :: 0 <= k < m && Covers(p[k], x) ==>
      Row(b, number, p, m, i)[x] == b[p[k].value][i % |b[p[k].value]|][x - p[k].start]
    ensures (forall k :: 0 <= k < m ==> !Covers(p[k], x)) ==> Row(b, number, p, m, i)[x] == number[x]
  {
    if m > 0 {
      RowContents(b, number, p, m - 1, i, x);
      RowContentsStep(b, number, p, m, i, x);
    }
  }

  /** Splicing member `m - 1` over what the first `m - 1` members left keeps the description of every position. */
  lemma RowContentsStep(b: Buckets, number: string, p: seq<SubString>, m: nat, i: nat, x: int)
    requires Fits(b, number, p) && NoConflicts(p) && 0 < m <= |p|
    requires 0 <= x < |number|
    requires forall k :: 0 <= k < m - 1 && Covers(p[k], x) ==>
      Row(b, number, p, m - 1, i)[x] == b[p[k].value][i % |b[p[k].value]|][x - p[k].start]
    requires (forall k :: 0 <= k < m - 1 ==> !Covers(p[k], x)) ==> Row(b, number, p, m - 1, i)[x] == number[x]
    ensures forall k :: 0 <= k < m && Covers(p[k], x) ==>
      Row(b, number, p, m, i)[x] == b[p[k].value][i % |b[p[k].value]|][x - p[k].start]
    ensures (forall k :: 0 <= k < m ==> !Covers(p[k], x)) ==> Row(b, number, p, m, i)[x] == number[x]
  {
    var sub := p[m - 1];
    var words := b[sub.value];
    var prev := Row(b, number, p, m - 1, i);
    var w := words[i % |words|];
    ReplaceAtPoint(prev, sub, w, x);
    if Covers(sub, x) {
      forall k | 0 <= k < m - 1 && Covers(p[k], x)
        ensures p[k] == sub
      {
        ConflictIffSharedPosition(p[k], sub);
      }
    }
  }

  lemma ReplaceAtPoint(s: string, sub: SubString, newString: string, x: int)
    requires 0 <= sub.start && sub.end < |s| && |newString| == sub.end - sub.start + 1
    requires 0 <= x < |s|
    ensures |ReplaceSubString(s, sub, newString)| == |s|
    ensures ReplaceSubString(s, sub, newString)[x] == if Covers(sub, x) then newString[x - sub.start] else s[x]
  {
    ReplaceAt(s, sub, newString);
  }

  /**
   * The rows are not every combination of words: with a bucket "2" of two
   * words and two 1-digit members on "22", the four rows are AA, BB, AA, BB
   * and "AB" never appears.
   */
  lemma RowsRepeat(b: Buckets, p: seq<SubString>)
    requires b == map["2" := ["A", "B"]]
    requires p == [SubString("22", "2", 0, 0), SubString("22", "2", 1, 1)]
    ensures Fits(b, "22", p)
    ensures Product(b, p) == 4
    ensures Rows(b, "22", p) == ["AA", "BB", "AA", "BB"]
  {
    RepeatProduct(b, p);
    var r := Rows(b, "22", p);
    forall i | 0 <= i < 4 ensures r[i] == if i % 2 == 0 then "AA" else "BB" {
      RepeatRow(b, p, i, i % 2);
    }
  }

  lemma RepeatProduct(b: Buckets, p: seq<SubString>)
    requires b == map["2" := ["A", "B"]]
    requires p == [SubString("22", "2", 0, 0), SubString("22", "2", 1, 1)]
    ensures forall k :: 0 <= k < |p| ==> p[k].value in b
    ensures Product(b, p) == 4
  {
    var p1 := p[..1];
    assert p1 == [p[0]] && p1[..0] == [];
    assert Product(b, p1) == Product(b, []) * |b["2"]| == 2;
  }

  /** Row `i` of the example takes word `i mod 2` for both members. */
  lemma RepeatRow(b: Buckets, p: seq<SubString>, i: nat, j: nat)
    requires b == map["2" := ["A", "B"]]
    requires p == [SubString("22", "2", 0, 0), SubString("22", "2", 1, 1)]
    requires j == i % 2
    ensures Fits(b, "22", p)
    ensures Row(b, "22", p, 2, i) == if j == 0 then "AA" else "BB"
  {
    var first := if j == 0 then "A" else "B";
    assert Row(b, "22", p, 0, i) == "22";
    assert "22"[..0] == [] && "22"[1..] == "2";
    assert Row(b, "22", p, 1, i) == first + "2";
    assert (first + "2")[..1] == first;
  }
}

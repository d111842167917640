/**
 * The standalone dash formatter: given a candidate word (the number with
 * dictionary words spliced in) and the pattern of spliced runs, it puts a
 * dash right of every run's end and left of every run's start, walking the
 * boundaries from the highest index down, and finally replaces "--" by "-".
 */
module Formatter {
  import opened JavaLang
  import opened SubStrings
  import opened DashLayout

  // ---------------------------------------------------------------- boundary list

  /** The start and then the end of every member, in member order; 1-letter members give a duplicate. */
  function Bounds(p: seq<SubString>): (r: seq<int>)
    ensures |r| == 2 * |p|
  {
    if p == [] then [] else [p[0].start, p[0].end] + Bounds(p[1..])
  }

  /** Member `k` contributes its start at position 2k and its end at 2k+1 of the list. */
  lemma {:induction false} BoundsAt(p: seq<SubString>, k: nat)
    requires k < |p|
    ensures Bounds(p)[2 * k] == p[k].start && Bounds(p)[2 * k + 1] == p[k].end
  {
    if k > 0 {
      BoundsAt(p[1..], k - 1);
      assert Bounds(p)[2 * k] == Bounds(p[1..])[2 * (k - 1)];
      assert Bounds(p)[2 * k + 1] == Bounds(p[1..])[2 * (k - 1) + 1];
    }
  }

  lemma {:induction false} BoundsAppend(p: seq<SubString>, m: SubString)
    ensures Bounds(p + [m]) == Bounds(p) + [m.start, m.end]
  {
    if p == [] {
      assert [m][1..] == [];
    } else {
      assert (p + [m])[1..] == p[1..] + [m];
      BoundsAppend(p[1..], m);
    }
  }

  /** Every member lies inside the word. */
  predicate InRange(word: string, p: seq<SubString>)
  {
    forall k :: 0 <= k < |p| ==> 0 <= p[k].start < |word| && 0 <= p[k].end < |word|
  }

  predicate IndexesIn(s: seq<int>, n: int)
  {
    forall k :: 0 <= k < |s| ==> 0 <= s[k] < n
  }

  lemma {:induction false} BoundsIn(word: string, p: seq<SubString>)
    requires InRange(word, p)
    ensures IndexesIn(Bounds(p), |word|)
  {
    var b := Bounds(p);
    forall i | 0 <= i < |b| ensures 0 <= b[i] < |word| {
      var k := i / 2;
      BoundsAt(p, k);
      assert i == 2 * k || i == 2 * k + 1;
    }
  }

  // ---------------------------------------------------------------- descending sort

  predicate Descending(s: seq<int>)
  {
    forall i, j :: 0 <= i < j < |s| ==> s[i] >= s[j]
  }

  function InsertDescending(x: int, s: seq<int>): (r: seq<int>)
    requires Descending(s)
    ensures Descending(r)
    ensures multiset(r) == multiset(s) + multiset{x}
  {
    if s == [] || x >= s[0] then [x] + s
    else
      var t := InsertDescending(x, s[1..]);
      assert s == [s[0]] + s[1..];
      BelowHead(x, s, t);
      [s[0]] + t
  }

  lemma BelowHead(x: int, s: seq<int>, t: seq<int>)
    requires Descending(s) && s != [] && x < s[0]
    requires multiset(t) == multiset(s[1..]) + multiset{x}
    ensures forall j :: 0 <= j < |t| ==> t[j] <= s[0]
  {
    forall j | 0 <= j < |t| ensures t[j] <= s[0] {
      assert t[j] in multiset(t);
      if t[j] != x {
        assert t[j] in multiset(s[1..]);
        var i :| 0 <= i < |s[1..]| && s[1..][i] == t[j];
        assert s[i + 1] == t[j];
      }
    }
  }

  /**
   * The descending sort the walk runs on. It keeps duplicate indices, so a
   * 1-letter member still gives two boundaries.
   */
  function SortDescending(s: seq<int>): (r: seq<int>)
    ensures Descending(r)
    ensures multiset(r) == multiset(s)
  {
    if s == [] then []
    else
      assert s == [s[0]] + s[1..];
      InsertDescending(s[0], SortDescending(s[1..]))
  }

  /** A descending order of a multiset of indices is unique. */
  lemma {:induction false} DescendingUnique(a: seq<int>, b: seq<int>)
    requires Descending(a) && Descending(b)
    requires multiset(a) == multiset(b)
    ensures a == b
  {
    if a != [] {
      assert |b| == |multiset(b)| == |multiset(a)| == |a|;
      HeadsEqual(a, b);
      TailMultiset(a);
      TailMultiset(b);
      DescendingUnique(a[1..], b[1..]);
    } else {
      assert |b| == |multiset(b)| == 0;
    }
  }

  /** Two descending orders of the same multiset start with its largest element. */
  lemma HeadsEqual(a: seq<int>, b: seq<int>)
    requires Descending(a) && Descending(b)
    requires multiset(a) == multiset(b) && a != [] && b != []
    ensures a[0] == b[0]
  {
    assert a[0] in multiset(b);
    assert b[0] in multiset(a);
    var i :| 0 <= i < |b| && b[i] == a[0];
    var j :| 0 <= j < |a| && a[j] == b[0];
  }

  lemma TailMultiset(a: seq<int>)
    requires a != []
    ensures multiset(a[1..]) == multiset(a) - multiset{a[0]}
  {
    assert a == [a[0]] + a[1..];
  }

  // ---------------------------------------------------------------- the walk

  /** One step of the walk: a dash right of `index` unless it is the last index, or left of it unless it is 0. */
  function InsertDash(word: string, index: int, right: bool): (r: string)
    requires 0 <= index < |word|
    ensures |r| >= |word|
  {
    if right then
      if index != |word| - 1 then word[..index + 1] + "-" + word[index + 1..] else word
    else
      if index != 0 then word[..index] + "-" + word[index..] else word
  }

  lemma RemoveDashesOfInsert(word: string, i: int)
    requires 0 <= i <= |word|
    ensures RemoveDashes(word[..i] + "-" + word[i..]) == RemoveDashes(word)
  {
    var a, b := word[..i], word[i..];
    RemoveDashAround(a, b);
    assert a + b == word;
  }

  /** A dash between two strings disappears. */
  lemma RemoveDashAround(a: string, b: string)
    ensures RemoveDashes(a + "-" + b) == RemoveDashes(a + b)
  {
    RemoveDashesAppend(a + "-", b);
    RemoveDashesAppend(a, "-");
    RemoveDashesAppend(a, b);
    RemoveSingleDash();
  }

  lemma RemoveSingleDash()
    ensures RemoveDashes("-") == []
  {
    assert "-"[1..] == [];
  }

  predicate Even(n: nat)
  {
    n % 2 == 0
  }

  lemma EvenNext(n: nat)
    ensures Even(n + 1) == !Even(n)
  {
  }

  /**
   * The text after the first `n` steps of the walk over `indexes`: the flag
   * starts at "right" and flips after every boundary, so step `k` (from 0)
   * inserts on the right exactly when `k` is even.
   */
  function Walk(word: string, indexes: seq<int>, n: nat): (r: string)
    requires n <= |indexes| && IndexesIn(indexes, |word|)
    ensures |r| >= |word|
  {
    if n == 0 then word else InsertDash(Walk(word, indexes, n - 1), indexes[n - 1], Even(n - 1))
  }

  /** Every step of the walk only inserts a dash. */
  lemma {:induction false} WalkKeepsLetters(word: string, indexes: seq<int>, n: nat)
    requires n <= |indexes| && IndexesIn(indexes, |word|)
    ensures RemoveDashes(Walk(word, indexes, n)) == RemoveDashes(word)
  {
    if n > 0 {
      WalkKeepsLetters(word, indexes, n - 1);
      var before := Walk(word, indexes, n - 1);
      var i := indexes[n - 1];
      if Even(n - 1) && i != |before| - 1 {
        RemoveDashesOfInsert(before, i + 1);
      } else if !Even(n - 1) && i != 0 {
        RemoveDashesOfInsert(before, i);
      }
    }
  }

  /** The sorted boundaries lie inside the word as the unsorted ones do. */
  lemma SortedIn(s: seq<int>, n: int)
    requires IndexesIn(s, n)
    ensures IndexesIn(SortDescending(s), n)
  {
    var r := SortDescending(s);
    forall k | 0 <= k < |r| ensures 0 <= r[k] < n {
      assert r[k] in multiset(s);
    }
  }

  /** What `format` returns: the whole walk over the sorted boundaries, then "--" replaced by "-". */
  function FormatSpec(word: string, p: seq<SubString>): string
    requires InRange(word, p)
  {
    BoundsIn(word, p);
    SortedIn(Bounds(p), |word|);
    var sorted := SortDescending(Bounds(p));
    CollapseDoubleDash(Walk(word, sorted, |sorted|))
  }

  method Format(word: string, pattern: seq<SubString>) returns (formatted: string)
    requires InRange(word, pattern)
    ensures formatted == FormatSpec(word, pattern)
  {
    var dashIndexes := Bounds(pattern);
    dashIndexes := SortDescending(dashIndexes);

    BoundsIn(word, pattern);
    SortedIn(Bounds(pattern), |word|);
    var current := word;
    var rightDash := true;
    var i := 0;
    while i < |dashIndexes|
      invariant 0 <= i <= |dashIndexes|
      invariant current == Walk(word, dashIndexes, i)
      invariant rightDash == Even(i)
    {
      var dashIndex := dashIndexes[i];
      if rightDash {
        if dashIndex != |current| - 1 {
          current := current[..dashIndex + 1] + "-" + current[dashIndex + 1..];
        }
      } else {
        if dashIndex != 0 {
          current := current[..dashIndex] + "-" + current[dashIndex..];
        }
      }
      EvenNext(i);
      rightDash := !rightDash;
      i := i + 1;
    }
    formatted := CollapseDoubleDash(current);
  }

  // ---------------------------------------------------------------- general properties

  /** Formatting only inserts and merges dashes: deleting every '-' gives the word's own letters back. */
  lemma FormatOnlyInsertsDashes(word: string, p: seq<SubString>)
    requires InRange(word, p)
    ensures RemoveDashes(FormatSpec(word, p)) == RemoveDashes(word)
  {
    BoundsIn(word, p);
    SortedIn(Bounds(p), |word|);
    var sorted := SortDescending(Bounds(p));
    WalkKeepsLetters(word, sorted, |sorted|);
    CollapseKeepsNonDashes(Walk(word, sorted, |sorted|));
  }

  /** An empty pattern leaves a word without "--" unchanged. */
  lemma FormatEmptyPattern(word: string)
    requires NoDoubleDash(word)
    ensures FormatSpec(word, []) == word
  {
    CollapseIdentity(word);
  }
}

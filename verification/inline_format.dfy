/**
 * The dash formatting both dictionaries do inline after expansion. Unlike
 * the standalone formatter it collects the boundaries in a `TreeSet` with a
 * reversed comparator, so every index is visited once, from the largest
 * down, and it skips the first and the last index of the current word
 * whichever side the flag points to; the flag still flips on a skipped
 * index. At the end "--" is replaced by "-".
 */
module InlineFormat {
  import opened JavaLang
  import opened SubStrings
  import Formatter

  predicate StrictlyDescending(s: seq<int>)
  {
    forall i, j :: 0 <= i < j < |s| ==> s[i] > s[j]
  }

  /** A descending list with repeated entries dropped. */
  function DropRepeats(s: seq<int>): (r: seq<int>)
    requires Formatter.Descending(s)
    ensures StrictlyDescending(r)
    ensures forall x :: x in r <==> x in s
  {
    if |s| <= 1 then s
    else
      var rest := DropRepeats(s[1..]);
      assert forall x :: x in s <==> x == s[0] || x in s[1..];
      if s[0] == s[1] then rest
      else
        assert forall k :: 0 <= k < |rest| ==> rest[k] in s[1..];
        [s[0]] + rest
  }

  /** The sorted boundaries hold the same indices as the unsorted ones. */
  lemma SortedSameIndexes(s: seq<int>)
    ensures forall x :: x in Formatter.SortDescending(s) <==> x in s
  {
    var r := Formatter.SortDescending(s);
    forall x ensures x in r <==> x in s {
      assert x in r <==> x in multiset(r);
      assert x in s <==> x in multiset(s);
    }
  }

  /** The iteration order of the `TreeSet` of every member's start and end: each index once, largest first. */
  function TreeSetIndexes(p: seq<SubString>): (r: seq<int>)
    ensures StrictlyDescending(r)
    ensures forall x :: x in r <==> x in Formatter.Bounds(p)
  {
    SortedSameIndexes(Formatter.Bounds(p));
    DropRepeats(Formatter.SortDescending(Formatter.Bounds(p)))
  }

  /** A set of indices has only one strictly descending listing. */
  lemma {:induction false} StrictlyDescendingUnique(a: seq<int>, b: seq<int>)
    requires StrictlyDescending(a) && StrictlyDescending(b)
    requires forall x :: x in a <==> x in b
    ensures a == b
  {
    if a != [] {
      assert a[0] in a;
      assert b != [];
      assert b[0] in b;
      HeadIsLargest(b, a[0]);
      HeadIsLargest(a, b[0]);
      forall x ensures x in a[1..] <==> x in b[1..] {
        if x in a[1..] {
          var i :| 0 <= i < |a[1..]| && a[1..][i] == x;
          assert x < a[0] && x in b;
        }
        if x in b[1..] {
          var i :| 0 <= i < |b[1..]| && b[1..][i] == x;
          assert x < b[0] && x in a;
        }
      }
      StrictlyDescendingUnique(a[1..], b[1..]);
    }
  }

  lemma HeadIsLargest(a: seq<int>, x: int)
    requires StrictlyDescending(a) && x in a
    ensures x <= a[0]
  {
    var i :| 0 <= i < |a| && a[i] == x;
    assert i == 0 || a[0] > a[i];
  }

  /** Any strictly descending listing of the boundaries is the one the walk visits. */
  lemma TreeSetOrderUnique(p: seq<SubString>, s: seq<int>)
    requires StrictlyDescending(s)
    requires forall x :: x in s <==> x in Formatter.Bounds(p)
    ensures s == TreeSetIndexes(p)
  {
    StrictlyDescendingUnique(s, TreeSetIndexes(p));
  }

  // ---------------------------------------------------------------- the walk

  /** One step: nothing at the first or last index of the current word, else a dash right or left of `index`. */
  function InlineStep(word: string, index: int, right: bool): (r: string)
    requires 0 <= index < |word|
    ensures |r| >= |word|
  {
    if index == |word| - 1 || index == 0 then word
    else if right then word[..index + 1] + "-" + word[index + 1..]
    else word[..index] + "-" + word[index..]
  }

  /** The word after the first `n` boundaries; the flag starts at "right" and flips at every boundary. */
  function InlineWalk(word: string, indexes: seq<int>, n: nat): (r: string)
    requires n <= |indexes| && Formatter.IndexesIn(indexes, |word|)
    ensures |r| >= |word|
  {
    if n == 0 then word else InlineStep(InlineWalk(word, indexes, n - 1), indexes[n - 1], Formatter.Even(n - 1))
  }

  lemma TreeSetIn(word: string, p: seq<SubString>)
    requires Formatter.InRange(word, p)
    ensures Formatter.IndexesIn(TreeSetIndexes(p), |word|)
  {
    Formatter.BoundsIn(word, p);
    var r := TreeSetIndexes(p);
    forall k | 0 <= k < |r| ensures 0 <= r[k] < |word| {
      var b := Formatter.Bounds(p);
      assert r[k] in b;
    }
  }

  /** What the inline formatting gives for one valid candidate. */
  function InlineFormatSpec(word: string, p: seq<SubString>): string
    requires Formatter.InRange(word, p)
  {
    TreeSetIn(word, p);
    var indexes := TreeSetIndexes(p);
    CollapseDoubleDash(InlineWalk(word, indexes, |indexes|))
  }

  method FormatInline(word: string, pattern: seq<SubString>) returns (formatted: string)
    requires Formatter.InRange(word, pattern)
    ensures formatted == InlineFormatSpec(word, pattern)
  {
    var dashIndexes := TreeSetIndexes(pattern);
    TreeSetIn(word, pattern);
    var current := word;
    var rightDash := true;
    var i := 0;
    while i < |dashIndexes|
      invariant 0 <= i <= |dashIndexes|
      invariant current == InlineWalk(word, dashIndexes, i)
      invariant rightDash == Formatter.Even(i)
    {
      var dashIndex := dashIndexes[i];
      InlineWalkNext(word, dashIndexes, i, current);
      if dashIndex == |current| - 1 {
        rightDash := !rightDash;
        i := i + 1;
        continue;
      } else if dashIndex == 0 {
        rightDash := !rightDash;
        i := i + 1;
        continue;
      }
      if rightDash {
        current := current[..dashIndex + 1] + "-" + current[dashIndex + 1..];
      } else {
        current := current[..dashIndex] + "-" + current[dashIndex..];
      }
      rightDash := !rightDash;
      i := i + 1;
    }
    formatted := CollapseDoubleDash(current);
  }

  /** The walk's next text is one more step on the current one, and the flag flips. */
  lemma InlineWalkNext(word: string, indexes: seq<int>, i: nat, current: string)
    requires i < |indexes| && Formatter.IndexesIn(indexes, |word|)
    requires current == InlineWalk(word, indexes, i)
    ensures 0 <= indexes[i] < |current|
    ensures InlineWalk(word, indexes, i + 1) == InlineStep(current, indexes[i], Formatter.Even(i))
    ensures indexes[i] == |current| - 1 || indexes[i] == 0 ==> InlineWalk(word, indexes, i + 1) == current
    ensures indexes[i] != |current| - 1 && indexes[i] != 0 && Formatter.Even(i) ==>
      InlineWalk(word, indexes, i + 1) == current[..indexes[i] + 1] + "-" + current[indexes[i] + 1..]
    ensures indexes[i] != |current| - 1 && indexes[i] != 0 && !Formatter.Even(i) ==>
      InlineWalk(word, indexes, i + 1) == current[..indexes[i]] + "-" + current[indexes[i]..]
    ensures Formatter.Even(i + 1) == !Formatter.Even(i)
  {
    Formatter.EvenNext(i);
  }

  // ---------------------------------------------------------------- properties

  lemma {:induction false} InlineWalkKeepsLetters(word: string, indexes: seq<int>, n: nat)
    requires n <= |indexes| && Formatter.IndexesIn(indexes, |word|)
    ensures RemoveDashes(InlineWalk(word, indexes, n)) == RemoveDashes(word)
  {
    if n > 0 {
      InlineWalkKeepsLetters(word, indexes, n - 1);
      var before := InlineWalk(word, indexes, n - 1);
      var i := indexes[n - 1];
      if i != |before| - 1 && i != 0 {
        if Formatter.Even(n - 1) {
          Formatter.RemoveDashesOfInsert(before, i + 1);
        } else {
          Formatter.RemoveDashesOfInsert(before, i);
        }
      }
    }
  }

  /** The inline formatting only inserts and merges dashes. */
  lemma InlineOnlyInsertsDashes(word: string, p: seq<SubString>)
    requires Formatter.InRange(word, p)
    ensures RemoveDashes(InlineFormatSpec(word, p)) == RemoveDashes(word)
  {
    TreeSetIn(word, p);
    var indexes := TreeSetIndexes(p);
    InlineWalkKeepsLetters(word, indexes, |indexes|);
    CollapseKeepsNonDashes(InlineWalk(word, indexes, |indexes|));
  }

  /**
   * The two formatters disagree on a 1-letter member at the start: the
   * standalone one gives "A-3", the inline one visits index 0 once, skips it
   * as the first index and leaves "A3".
   */
  lemma FormattersDisagree()
    ensures Formatter.InRange("A3", [SubString("23", "2", 0, 0)])
    ensures Formatter.FormatSpec("A3", [SubString("23", "2", 0, 0)]) == "A-3"
    ensures InlineFormatSpec("A3", [SubString("23", "2", 0, 0)]) == "A3"
  {
    var p := [SubString("23", "2", 0, 0)];
    assert p[1..] == [];
    assert Formatter.Bounds(p) == [0, 0];
    var sorted := Formatter.SortDescending([0, 0]);
    Formatter.DescendingUnique(sorted, [0, 0]);
    assert TreeSetIndexes(p) == [0] by {
      TreeSetOrderUnique(p, [0]);
    }
    assert Formatter.Walk("A3", [0, 0], 1) == "A-3" by {
      assert "A3"[..1] == "A" && "A3"[1..] == "3";
    }
    assert "A-3"[1..] == "-3" && "-3"[1..] == "3";
    assert "A3"[1..] == "3";
  }

  /** Two 3-letter words around single digits: "AAA2DDD3" becomes "AAA-2-DDD-3". */
  lemma InlineExample(w: string, p: seq<SubString>)
    requires w == "AAA2DDD3"
    requires p == [SubString("22223333", "222", 0, 2), SubString("22223333", "333", 4, 6)]
    ensures Formatter.InRange(w, p) && InlineFormatSpec(w, p) == "AAA-2-DDD-3"
  {
    ExampleInRange(w, p);
    ExampleIndexes();
    ExampleWalk();
    ExampleCollapse();
  }

  lemma ExampleInRange(w: string, p: seq<SubString>)
    requires |w| == 8
    requires p == [SubString("22223333", "222", 0, 2), SubString("22223333", "333", 4, 6)]
    ensures Formatter.InRange(w, p)
  {
    assert p[0].start == 0 && p[0].end == 2 && p[1].start == 4 && p[1].end == 6;
  }

  lemma ExampleIndexes()
    ensures TreeSetIndexes([SubString("22223333", "222", 0, 2), SubString("22223333", "333", 4, 6)]) == [6, 4, 2, 0]
  {
    var p := [SubString("22223333", "222", 0, 2), SubString("22223333", "333", 4, 6)];
    assert p[1..][1..] == [];
    assert Formatter.Bounds(p) == [0, 2, 4, 6];
    TreeSetOrderUnique(p, [6, 4, 2, 0]);
  }

  lemma ExampleWalk()
    ensures Formatter.IndexesIn([6, 4, 2, 0], 8)
    ensures InlineWalk("AAA2DDD3", [6, 4, 2, 0], 4) == "AAA-2-DDD-3"
  {
    var w := "AAA2DDD3";
    var idx := [6, 4, 2, 0];
    assert InlineWalk(w, idx, 1) == "AAA2DDD-3" by {
      assert w[..7] == "AAA2DDD" && w[7..] == "3";
    }
    assert InlineWalk(w, idx, 2) == "AAA2-DDD-3" by {
      assert "AAA2DDD-3"[..4] == "AAA2" && "AAA2DDD-3"[4..] == "DDD-3";
    }
    assert InlineWalk(w, idx, 3) == "AAA-2-DDD-3" by {
      assert "AAA2-DDD-3"[..3] == "AAA" && "AAA2-DDD-3"[3..] == "2-DDD-3";
    }
  }

  lemma ExampleCollapse()
    ensures CollapseDoubleDash("AAA-2-DDD-3") == "AAA-2-DDD-3"
  {
    var s := "AAA-2-DDD-3";
    forall i | 0 <= i < |s| - 1 ensures !(s[i] == '-' && s[i + 1] == '-') {
      if i < 3 {
      } else if i == 3 {
      } else if i == 4 {
      } else if i == 5 {
      } else if i < 9 {
      } else {
      }
    }
    CollapseIdentity(s);
  }
}

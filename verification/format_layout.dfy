/**
 * What the standalone formatter produces when the members lie left to right
 * without overlap: the sorted boundaries alternate end, start, end, start
 * from the right, so the walk puts one dash right of every end and one left
 * of every start, except right of an end at the last index and left of a
 * start at index 0. A gap gets at most two dashes (an end and the next
 * start), so the final replace of "--" leaves exactly one and no "--" at all.
 * The result depends only on which members the pattern has, not on their
 * order, so the same layout holds for non-overlapping members in any order.
 */
module FormatLayout {
  import opened JavaLang
  import opened SubStrings
  import opened DashLayout
  import opened Formatter

  /** Members inside a word of length `n`, listed left to right without overlap. */
  predicate LeftToRight(n: int, p: seq<SubString>)
  {
    && (forall k :: 0 <= k < |p| ==> 0 <= p[k].start <= p[k].end < n)
    && (forall k, l :: 0 <= k < l < |p| ==> p[k].end < p[l].start)
  }

  // ---------------------------------------------------------------- the sorted boundaries

  /** The boundaries from the right: the last member's end and start, then the member before it, and so on. */
  function Interleave(p: seq<SubString>): (r: seq<int>)
    ensures |r| == 2 * |p|
  {
    if p == [] then [] else [p[|p| - 1].end, p[|p| - 1].start] + Interleave(p[..|p| - 1])
  }

  lemma {:induction false} InterleaveAt(p: seq<SubString>, k: nat)
    requires k < |p|
    ensures Interleave(p)[2 * k] == p[|p| - 1 - k].end
    ensures Interleave(p)[2 * k + 1] == p[|p| - 1 - k].start
  {
    if k > 0 {
      var init := p[..|p| - 1];
      InterleaveAt(init, k - 1);
      assert Interleave(p)[2 * k] == Interleave(init)[2 * (k - 1)];
      assert Interleave(p)[2 * k + 1] == Interleave(init)[2 * (k - 1) + 1];
      assert init[|init| - 1 - (k - 1)] == p[|p| - 1 - k];
    }
  }

  lemma InterleaveDescending(n: int, p: seq<SubString>)
    requires LeftToRight(n, p)
    ensures Descending(Interleave(p))
    ensures IndexesIn(Interleave(p), n)
  {
    var r := Interleave(p);
    forall i, j | 0 <= i < j < |r| ensures r[i] >= r[j] {
      var a, b := i / 2, j / 2;
      InterleaveAt(p, a);
      InterleaveAt(p, b);
      assert i == 2 * a || i == 2 * a + 1;
      assert j == 2 * b || j == 2 * b + 1;
      if a < b {
        assert p[|p| - 1 - b].end < p[|p| - 1 - a].start;
      }
    }
    forall i | 0 <= i < |r| ensures 0 <= r[i] < n {
      var a := i / 2;
      InterleaveAt(p, a);
      assert i == 2 * a || i == 2 * a + 1;
    }
  }

  lemma {:induction false} InterleaveMultiset(p: seq<SubString>)
    ensures multiset(Interleave(p)) == multiset(Bounds(p))
  {
    if p != [] {
      var init := p[..|p| - 1];
      var m := p[|p| - 1];
      InterleaveMultiset(init);
      BoundsLast(p);
      PairMultiset(Interleave(init), Bounds(init), m.start, m.end);
    }
  }

  lemma BoundsLast(p: seq<SubString>)
    requires p != []
    ensures Bounds(p) == Bounds(p[..|p| - 1]) + [p[|p| - 1].start, p[|p| - 1].end]
  {
    assert p == p[..|p| - 1] + [p[|p| - 1]];
    BoundsAppend(p[..|p| - 1], p[|p| - 1]);
  }

  lemma PairMultiset(a: seq<int>, b: seq<int>, s: int, e: int)
    requires multiset(a) == multiset(b)
    ensures multiset([e, s] + a) == multiset(b + [s, e])
  {
  }

  /** With members left to right, the descending sort of the boundaries is the interleaving. */
  lemma SortedBounds(n: int, p: seq<SubString>)
    requires LeftToRight(n, p)
    ensures SortDescending(Bounds(p)) == Interleave(p)
  {
    InterleaveDescending(n, p);
    InterleaveMultiset(p);
    DescendingUnique(SortDescending(Bounds(p)), Interleave(p));
  }

  // ---------------------------------------------------------------- dashes per gap

  /** How many members end right before gap `g`; an end at the last index `n - 1` gets no dash. */
  function EndsBefore(n: int, q: seq<SubString>, g: int): nat
  {
    if q == [] then 0 else (if q[0].end + 1 == g && q[0].end != n - 1 then 1 else 0) + EndsBefore(n, q[1..], g)
  }

  /** How many members start at gap `g`; a start at index 0 gets no dash. */
  function StartsAt(q: seq<SubString>, g: int): nat
  {
    if q == [] then 0 else (if q[0].start == g && g != 0 then 1 else 0) + StartsAt(q[1..], g)
  }

  /** The dashes the walk puts in every gap of a word of length `n`. */
  function Gaps(n: nat, q: seq<SubString>): (r: seq<nat>)
    ensures |r| == n + 1
    ensures forall g :: 0 <= g <= n ==> r[g] == EndsBefore(n, q, g) + StartsAt(q, g)
  {
    seq(n + 1, g => EndsBefore(n, q, g) + StartsAt(q, g))
  }

  /** Members that all start after `x` put nothing in gaps up to `x`, nor right after `x`. */
  lemma {:induction false} NothingBefore(n: int, q: seq<SubString>, x: int)
    requires forall k :: 0 <= k < |q| ==> x < q[k].start <= q[k].end
    ensures forall g :: g <= x ==> StartsAt(q, g) == 0
    ensures forall g :: g <= x + 1 ==> EndsBefore(n, q, g) == 0
  {
    if q != [] {
      NothingBefore(n, q[1..], x);
    }
  }

  /** The dash right of an end `e`: one more in gap `e + 1`, none when `e` is the last index. */
  function EndBump(D: seq<nat>, e: int): (r: seq<nat>)
    requires 0 <= e < |D| - 1
    ensures |r| == |D|
    ensures forall k :: 0 <= k < |D| && k != e + 1 ==> r[k] == D[k]
  {
    if e != |D| - 2 then D[e + 1 := D[e + 1] + 1] else D
  }

  /** The dash left of a start `s`: one more in gap `s`, none when `s` is 0. */
  function StartBump(D: seq<nat>, s: int): (r: seq<nat>)
    requires 0 <= s < |D|
    ensures |r| == |D|
  {
    if s != 0 then D[s := D[s] + 1] else D
  }

  /** The gaps of `q` are those of `q[1..]` plus the first member's dashes. */
  lemma GapsStep(n: nat, q: seq<SubString>)
    requires q != [] && 0 <= q[0].start <= q[0].end < n
    ensures Gaps(n, q) == StartBump(EndBump(Gaps(n, q[1..]), q[0].end), q[0].start)
  {
  }

  /** Gaps up to and including `e` hold no dash, and none at all when `e` is the last index of the word. */
  predicate ClearThrough(D: seq<nat>, e: int)
  {
    && (forall g :: 0 <= g <= e && g < |D| ==> D[g] == 0)
    && (e == |D| - 2 ==> AllZero(D))
  }

  /** Inserting the dash right of `e` into a text clear through `e` bumps gap `e + 1`. */
  lemma EndDash(w: string, D: seq<nat>, e: int)
    requires |D| == |w| + 1 && 0 <= e < |w|
    requires ClearThrough(D, e)
    ensures InsertDash(Dashed(w, D), e, true) == Dashed(w, EndBump(D, e))
  {
    assert forall k :: 0 <= k < e + 1 ==> D[k] == 0;
    if e != |w| - 1 {
      InsertAtGap(w, D, e + 1);
    } else {
      DashedZeros(w, D);
    }
  }

  /** Inserting the dash left of `s` into a text with no dash before gap `s` bumps gap `s`. */
  lemma StartDash(w: string, D: seq<nat>, s: int)
    requires |D| == |w| + 1 && 0 <= s < |w|
    requires forall k :: 0 <= k < s ==> D[k] == 0
    ensures s < |Dashed(w, D)|
    ensures InsertDash(Dashed(w, D), s, false) == Dashed(w, StartBump(D, s))
  {
    if s != 0 {
      InsertAtGap(w, D, s);
    }
  }

  /** The member the walk handles next finds the gaps up to its end still empty. */
  lemma SuffixClear(n: nat, p: seq<SubString>, j: nat)
    requires LeftToRight(n, p) && 0 < j <= |p|
    ensures 0 <= p[|p| - j].start <= p[|p| - j].end < n
    ensures ClearThrough(Gaps(n, p[|p| - (j - 1)..]), p[|p| - j].end)
  {
    var rest := p[|p| - (j - 1)..];
    var m := p[|p| - j];
    forall k | 0 <= k < |rest| ensures m.end < rest[k].start <= rest[k].end < n {
      assert rest[k] == p[|p| - j + 1 + k];
    }
    NothingBefore(n, rest, m.end);
    assert |rest| > 0 ==> m.end < rest[0].start <= rest[0].end < n;
  }

  /** The gaps of the last `j` members are those of the last `j - 1` plus the dashes of member `|p| - j`. */
  lemma SuffixGaps(n: nat, p: seq<SubString>, j: nat)
    requires 0 < j <= |p| && 0 <= p[|p| - j].start <= p[|p| - j].end < n
    ensures Gaps(n, p[|p| - j..]) == StartBump(EndBump(Gaps(n, p[|p| - (j - 1)..]), p[|p| - j].end), p[|p| - j].start)
  {
    var q := p[|p| - j..];
    assert q[0] == p[|p| - j] && q[1..] == p[|p| - (j - 1)..];
    GapsStep(n, q);
  }

  lemma {:induction false} EvenDouble(k: nat)
    ensures Even(2 * k) && !Even(2 * k + 1)
  {
    if k > 0 {
      EvenDouble(k - 1);
      EvenNext(2 * k - 1);
    }
    EvenNext(2 * k);
  }

  /** Walk steps `a = 2k` and `a + 1 = b - 1` are the end dash and then the start dash of member `m`. */
  lemma TwoSteps(w: string, I: seq<int>, k: nat, a: nat, b: nat, D: seq<nat>, m: SubString, D2: seq<nat>)
    requires a == 2 * k && b == a + 2 && b <= |I| && IndexesIn(I, |w|)
    requires I[a] == m.end && I[b - 1] == m.start
    requires |D| == |w| + 1 && 0 <= m.start <= m.end < |w|
    requires ClearThrough(D, m.end)
    requires D2 == StartBump(EndBump(D, m.end), m.start)
    requires Walk(w, I, a) == Dashed(w, D)
    ensures Walk(w, I, b) == Dashed(w, D2)
  {
    var D1 := EndBump(D, m.end);
    EvenDouble(k);
    assert Walk(w, I, a + 1) == Dashed(w, D1) by {
      EndDash(w, D, m.end);
    }
    assert forall g :: 0 <= g < m.start ==> D1[g] == 0;
    StartDash(w, D1, m.start);
  }

  /** `I` lists the ends and starts of the members of `p` from the right, as `Interleave` does. */
  predicate ListsFromRight(I: seq<int>, p: seq<SubString>)
  {
    && |I| == 2 * |p|
    && forall k :: 0 <= k < |p| ==> I[2 * k] == p[|p| - 1 - k].end && I[2 * k + 1] == p[|p| - 1 - k].start
  }

  lemma ListsAtSuffix(I: seq<int>, p: seq<SubString>, j: nat)
    requires ListsFromRight(I, p) && 0 < j <= |p|
    ensures I[2 * (j - 1)] == p[|p| - j].end && I[2 * j - 1] == p[|p| - j].start
  {
    var k := j - 1;
    assert I[2 * k] == p[|p| - 1 - k].end;
  }

  /** Handling member `|p| - j` after the members right of it adds its dashes. */
  lemma WalkLayoutStep(w: string, I: seq<int>, p: seq<SubString>, j: nat)
    requires LeftToRight(|w|, p) && ListsFromRight(I, p) && IndexesIn(I, |w|) && 0 < j <= |p|
    requires Walk(w, I, 2 * (j - 1)) == Dashed(w, Gaps(|w|, p[|p| - (j - 1)..]))
    ensures Walk(w, I, 2 * j) == Dashed(w, Gaps(|w|, p[|p| - j..]))
  {
    SuffixClear(|w|, p, j);
    SuffixGaps(|w|, p, j);
    ListsAtSuffix(I, p, j);
    TwoSteps(w, I, j - 1, 2 * (j - 1), 2 * j, Gaps(|w|, p[|p| - (j - 1)..]), p[|p| - j], Gaps(|w|, p[|p| - j..]));
  }

  /** Before any step the text is the word, with no dashes. */
  lemma WalkLayoutBase(w: string, I: seq<int>, p: seq<SubString>, j: nat)
    requires IndexesIn(I, |w|) && j == 0
    ensures Walk(w, I, 2 * j) == Dashed(w, Gaps(|w|, p[|p| - j..]))
  {
    assert p[|p|..] == [];
    DashedZeros(w, Gaps(|w|, []));
  }

  /** The walk after the last `j` members: their dashes, and no other. */
  lemma {:induction false} WalkLayout(w: string, I: seq<int>, p: seq<SubString>, j: nat)
    requires LeftToRight(|w|, p) && ListsFromRight(I, p) && IndexesIn(I, |w|) && j <= |p|
    ensures Walk(w, I, 2 * j) == Dashed(w, Gaps(|w|, p[|p| - j..]))
  {
    if j == 0 {
      WalkLayoutBase(w, I, p, j);
    } else {
      WalkLayout(w, I, p, j - 1);
      WalkLayoutStep(w, I, p, j);
    }
  }

  /** Left to right, at most one member ends before a gap and at most one starts there. */
  lemma {:induction false} AtMostOneEach(n: int, q: seq<SubString>, g: int)
    requires LeftToRight(n, q)
    ensures EndsBefore(n, q, g) <= 1 && StartsAt(q, g) <= 1
  {
    if q != [] {
      var rest := q[1..];
      assert LeftToRight(n, rest) by {
        forall k, l | 0 <= k < l < |rest| ensures rest[k].end < rest[l].start {
          assert rest[k] == q[k + 1] && rest[l] == q[l + 1];
        }
      }
      AtMostOneEach(n, rest, g);
      forall k | 0 <= k < |rest| ensures q[0].end < rest[k].start <= rest[k].end {
        assert rest[k] == q[k + 1];
      }
      NothingBefore(n, rest, q[0].end);
    }
  }

  lemma InterleaveLists(p: seq<SubString>)
    ensures ListsFromRight(Interleave(p), p)
  {
    forall k | 0 <= k < |p| ensures Interleave(p)[2 * k] == p[|p| - 1 - k].end && Interleave(p)[2 * k + 1] == p[|p| - 1 - k].start {
      InterleaveAt(p, k);
    }
  }

  /** The whole walk over the interleaved boundaries puts the dashes of every member. */
  lemma WalkAll(w: string, p: seq<SubString>)
    requires LeftToRight(|w|, p)
    ensures IndexesIn(Interleave(p), |w|)
    ensures Walk(w, Interleave(p), 2 * |p|) == Dashed(w, Gaps(|w|, p))
  {
    InterleaveDescending(|w|, p);
    InterleaveLists(p);
    WalkLayout(w, Interleave(p), p, |p|);
    assert p[|p| - |p|..] == p;
  }

  /** Before the final replace, the formatter's text is the word with the dashes of every member. */
  lemma WalkSorted(w: string, p: seq<SubString>)
    requires LeftToRight(|w|, p)
    ensures InRange(w, p)
    ensures FormatSpec(w, p) == CollapseDoubleDash(Dashed(w, Gaps(|w|, p)))
  {
    SortedBounds(|w|, p);
    WalkAll(w, p);
  }

  /** The layout for members left to right; `FormatDisjoint` lifts it to any order. */
  lemma FormatLeftToRight(w: string, p: seq<SubString>)
    requires DashFree(w) && LeftToRight(|w|, p)
    ensures InRange(w, p)
    ensures FormatSpec(w, p) == Dashed(w, AtMostOne(Gaps(|w|, p)))
    ensures NoDoubleDash(FormatSpec(w, p))
  {
    WalkSorted(w, p);
    var D := Gaps(|w|, p);
    forall g | 0 <= g < |w| + 1 ensures D[g] <= 2 {
      AtMostOneEach(|w|, p, g);
    }
    CollapseDashed(w, D);
    NoDoubleDashDashed(w, AtMostOne(D));
  }

  // ---------------------------------------------------------------- members in any order

  /** Two runs that share no position. */
  predicate Apart(x: SubString, y: SubString)
  {
    x.end < y.start || y.end < x.start
  }

  /** Members inside a word of length `n`, no two of them overlapping, listed in any order. */
  predicate Disjoint(n: int, p: seq<SubString>)
  {
    && (forall k :: 0 <= k < |p| ==> 0 <= p[k].start <= p[k].end < n)
    && (forall k, l :: 0 <= k < l < |p| ==> Apart(p[k], p[l]))
  }

  lemma LeftToRightDisjoint(n: int, p: seq<SubString>)
    requires LeftToRight(n, p)
    ensures Disjoint(n, p)
  {
  }

  lemma {:induction false} BoundsConcat(a: seq<SubString>, b: seq<SubString>)
    ensures Bounds(a + b) == Bounds(a) + Bounds(b)
  {
    if a == [] {
      assert a + b == b;
    } else {
      assert (a + b)[1..] == a[1..] + b;
      BoundsConcat(a[1..], b);
    }
  }

  lemma {:induction false} CountsConcat(n: int, a: seq<SubString>, b: seq<SubString>, g: int)
    ensures EndsBefore(n, a + b, g) == EndsBefore(n, a, g) + EndsBefore(n, b, g)
    ensures StartsAt(a + b, g) == StartsAt(a, g) + StartsAt(b, g)
  {
    if a == [] {
      assert a + b == b;
    } else {
      assert (a + b)[1..] == a[1..] + b;
      CountsConcat(n, a[1..], b, g);
    }
  }

  /** `q` with its member at `i` taken out holds what `p` holds besides its first member. */
  lemma TakeOut(p: seq<SubString>, q: seq<SubString>, i: nat)
    requires p != [] && multiset(p) == multiset(q) && i < |q| && q[i] == p[0]
    ensures q == q[..i] + [q[i]] + q[i + 1..]
    ensures multiset(p[1..]) == multiset(q[..i] + q[i + 1..])
  {
    var a, x, b := q[..i], q[i], q[i + 1..];
    assert q == a + [x] + b;
    assert p == [x] + p[1..];
    calc {
      multiset(p[1..]);
      multiset(p) - multiset{x};
      multiset(a + [x] + b) - multiset{x};
      (multiset(a) + multiset{x} + multiset(b)) - multiset{x};
      multiset(a) + multiset(b);
      multiset(a + b);
    }
  }

  /** Taking member `x` out takes its two boundaries out. */
  lemma BoundsTakeOut(a: seq<SubString>, x: SubString, b: seq<SubString>)
    ensures multiset(Bounds(a + [x] + b)) == multiset(Bounds(a + b)) + multiset{x.start, x.end}
  {
    BoundsConcat(a + [x], b);
    BoundsConcat(a, [x]);
    BoundsConcat(a, b);
    assert Bounds([x]) == [x.start, x.end] by {
      assert [x][1..] == [];
    }
  }

  /** Members with the same multiset have boundaries with the same multiset. */
  lemma {:induction false} PermutationBounds(p: seq<SubString>, q: seq<SubString>)
    requires multiset(p) == multiset(q)
    ensures multiset(Bounds(p)) == multiset(Bounds(q))
    decreases |p|
  {
    if p == [] {
      assert |q| == |multiset(q)| == 0;
    } else {
      assert p[0] in multiset(q);
      var i :| 0 <= i < |q| && q[i] == p[0];
      TakeOut(p, q, i);
      PermutationBounds(p[1..], q[..i] + q[i + 1..]);
      BoundsTakeOut(q[..i], q[i], q[i + 1..]);
    }
  }

  /** Taking member `x` out takes its dashes out. */
  lemma CountsTakeOut(n: int, a: seq<SubString>, x: SubString, b: seq<SubString>, g: int)
    ensures EndsBefore(n, a + [x] + b, g) == EndsBefore(n, a + b, g) + EndsBefore(n, [x], g)
    ensures StartsAt(a + [x] + b, g) == StartsAt(a + b, g) + StartsAt([x], g)
  {
    CountsConcat(n, a + [x], b, g);
    CountsConcat(n, a, [x], g);
    CountsConcat(n, a, b, g);
  }

  /** Members with the same multiset put the same number of dashes in gap `g`. */
  lemma {:induction false} PermutationCounts(n: int, p: seq<SubString>, q: seq<SubString>, g: int)
    requires multiset(p) == multiset(q)
    ensures EndsBefore(n, p, g) == EndsBefore(n, q, g) && StartsAt(p, g) == StartsAt(q, g)
    decreases |p|
  {
    if p == [] {
      assert |q| == |multiset(q)| == 0;
    } else {
      assert p[0] in multiset(q);
      var i :| 0 <= i < |q| && q[i] == p[0];
      TakeOut(p, q, i);
      PermutationCounts(n, p[1..], q[..i] + q[i + 1..], g);
      CountsTakeOut(n, q[..i], q[i], q[i + 1..], g);
      assert p == [p[0]] + p[1..];
      CountsConcat(n, [p[0]], p[1..], g);
    }
  }

  /** The dashes per gap depend only on which members the pattern has. */
  lemma GapsPermutation(n: nat, p: seq<SubString>, q: seq<SubString>)
    requires multiset(p) == multiset(q)
    ensures Gaps(n, p) == Gaps(n, q)
  {
    forall g | 0 <= g <= n ensures Gaps(n, p)[g] == Gaps(n, q)[g] {
      PermutationCounts(n, p, q, g);
    }
  }

  /** The formatter's result depends only on which members the pattern has, not on their order. */
  lemma FormatPermutation(w: string, p: seq<SubString>, q: seq<SubString>)
    requires InRange(w, p) && multiset(p) == multiset(q)
    ensures InRange(w, q)
    ensures FormatSpec(w, p) == FormatSpec(w, q)
  {
    forall k | 0 <= k < |q| ensures 0 <= q[k].start < |w| && 0 <= q[k].end < |w| {
      assert q[k] in multiset(p);
      var j :| 0 <= j < |p| && p[j] == q[k];
    }
    PermutationBounds(p, q);
    DescendingUnique(SortDescending(Bounds(p)), SortDescending(Bounds(q)));
  }

  /** Inserts `x` before the first member that starts after it. */
  function InsertByStart(x: SubString, q: seq<SubString>): (r: seq<SubString>)
    ensures multiset(r) == multiset(q) + multiset{x}
  {
    if q == [] || x.start <= q[0].start then [x] + q
    else
      assert q == [q[0]] + q[1..];
      [q[0]] + InsertByStart(x, q[1..])
  }

  /** The members ordered by start. */
  function SortByStart(p: seq<SubString>): (r: seq<SubString>)
    ensures multiset(r) == multiset(p)
  {
    if p == [] then []
    else
      assert p == [p[0]] + p[1..];
      InsertByStart(p[0], SortByStart(p[1..]))
  }

  predicate StartSorted(q: seq<SubString>)
  {
    forall k, l :: 0 <= k < l < |q| ==> q[k].start <= q[l].start
  }

  lemma {:induction false} InsertSorted(x: SubString, q: seq<SubString>)
    requires StartSorted(q)
    ensures StartSorted(InsertByStart(x, q))
  {
    var r := InsertByStart(x, q);
    if q == [] || x.start <= q[0].start {
      forall k, l | 0 <= k < l < |r| ensures r[k].start <= r[l].start {
        if k == 0 && l > 1 {
          assert r[l] == q[l - 1];
        }
      }
    } else {
      var r' := InsertByStart(x, q[1..]);
      InsertSorted(x, q[1..]);
      forall k, l | 0 <= k < l < |r| ensures r[k].start <= r[l].start {
        if k == 0 {
          assert r[l] == r'[l - 1] && r'[l - 1] in multiset(r');
          if r[l] != x {
            assert r[l] in q[1..];
          }
        } else {
          assert r[k] == r'[k - 1] && r[l] == r'[l - 1];
        }
      }
    }
  }

  lemma {:induction false} SortSorted(p: seq<SubString>)
    ensures StartSorted(SortByStart(p))
  {
    if p != [] {
      SortSorted(p[1..]);
      InsertSorted(p[0], SortByStart(p[1..]));
    }
  }

  /** A run apart from every member of a disjoint list can be put in front of it. */
  lemma ConsDisjoint(n: int, h: SubString, t: seq<SubString>)
    requires Disjoint(n, t) && 0 <= h.start <= h.end < n
    requires forall y :: y in t ==> Apart(h, y)
    ensures Disjoint(n, [h] + t)
  {
    var r := [h] + t;
    forall k, l | 0 <= k < l < |r| ensures Apart(r[k], r[l]) {
      assert r[l] == t[l - 1] && t[l - 1] in t;
      if k > 0 {
        assert r[k] == t[k - 1];
      }
    }
  }

  lemma {:induction false} InsertDisjoint(n: int, x: SubString, q: seq<SubString>)
    requires Disjoint(n, q) && 0 <= x.start <= x.end < n
    requires forall y :: y in q ==> Apart(x, y)
    ensures Disjoint(n, InsertByStart(x, q))
  {
    if q == [] || x.start <= q[0].start {
      ConsDisjoint(n, x, q);
    } else {
      var rest := q[1..];
      assert Disjoint(n, rest) by {
        forall k, l | 0 <= k < l < |rest| ensures Apart(rest[k], rest[l]) {
          assert rest[k] == q[k + 1] && rest[l] == q[l + 1];
        }
      }
      forall y | y in rest ensures Apart(x, y) {
        assert y in q;
      }
      InsertDisjoint(n, x, rest);
      var r' := InsertByStart(x, rest);
      forall y | y in r' ensures Apart(q[0], y) {
        assert y in multiset(r');
        if y != x {
          var j :| 0 <= j < |rest| && rest[j] == y;
          assert y == q[j + 1];
        } else {
          assert q[0] in q;
        }
      }
      ConsDisjoint(n, q[0], r');
    }
  }

  lemma {:induction false} SortDisjoint(n: int, p: seq<SubString>)
    requires Disjoint(n, p)
    ensures Disjoint(n, SortByStart(p))
  {
    if p != [] {
      var rest := p[1..];
      assert Disjoint(n, rest) by {
        forall k, l | 0 <= k < l < |rest| ensures Apart(rest[k], rest[l]) {
          assert rest[k] == p[k + 1] && rest[l] == p[l + 1];
        }
      }
      SortDisjoint(n, rest);
      forall y | y in SortByStart(rest) ensures Apart(p[0], y) {
        assert y in multiset(SortByStart(rest));
        var j :| 0 <= j < |rest| && rest[j] == y;
        assert y == p[j + 1];
      }
      InsertDisjoint(n, p[0], SortByStart(rest));
    }
  }

  /** Non-overlapping members ordered by start lie left to right. */
  lemma SortedLeftToRight(n: int, q: seq<SubString>)
    requires Disjoint(n, q) && StartSorted(q)
    ensures LeftToRight(n, q)
  {
  }

  /** Non-overlapping members in any order can be listed left to right. */
  lemma LeftToRightOrder(n: int, p: seq<SubString>) returns (q: seq<SubString>)
    requires Disjoint(n, p)
    ensures multiset(q) == multiset(p) && LeftToRight(n, q)
  {
    q := SortByStart(p);
    SortDisjoint(n, p);
    SortSorted(p);
    SortedLeftToRight(n, q);
  }

  /** With no two members overlapping, in any order, no gap gets more than two dashes. */
  lemma GapsAtMostTwo(n: nat, p: seq<SubString>)
    requires Disjoint(n, p)
    ensures forall g :: 0 <= g < n + 1 ==> Gaps(n, p)[g] <= 2
  {
    var q := LeftToRightOrder(n, p);
    GapsPermutation(n, q, p);
    forall g | 0 <= g < n + 1 ensures Gaps(n, q)[g] <= 2 {
      AtMostOneEach(n, q, g);
    }
  }

  /**
   * For non-overlapping members in a dash-free word, listed in any order,
   * the formatter's result is the word with one dash in every gap right of
   * an end (unless it is the last index) or left of a start (unless it is
   * index 0), and has no "--".
   */
  lemma FormatDisjoint(w: string, p: seq<SubString>)
    requires DashFree(w) && Disjoint(|w|, p)
    ensures InRange(w, p)
    ensures FormatSpec(w, p) == Dashed(w, AtMostOne(Gaps(|w|, p)))
    ensures NoDoubleDash(FormatSpec(w, p))
  {
    var q := LeftToRightOrder(|w|, p);
    FormatLeftToRight(w, q);
    FormatPermutation(w, q, p);
    GapsPermutation(|w|, q, p);
  }

  lemma {:induction false} MemberCounted(n: int, q: seq<SubString>, k: nat)
    requires k < |q|
    ensures q[k].end != n - 1 ==> EndsBefore(n, q, q[k].end + 1) >= 1
    ensures q[k].start != 0 ==> StartsAt(q, q[k].start) >= 1
  {
    if k > 0 {
      MemberCounted(n, q[1..], k - 1);
    }
  }

  /** Every end but one at the last index has a dash right of it, and every start but one at 0 a dash left of it. */
  lemma DashAtEveryBoundary(w: string, p: seq<SubString>, k: nat)
    requires Disjoint(|w|, p) && k < |p|
    ensures p[k].end != |w| - 1 ==> AtMostOne(Gaps(|w|, p))[p[k].end + 1] == 1
    ensures p[k].start != 0 ==> AtMostOne(Gaps(|w|, p))[p[k].start] == 1
  {
    MemberCounted(|w|, p, k);
  }

  /** Whether gap `g` is right of the end of member `x` (not at the last index) or left of its start (not at 0). */
  predicate Boundary(n: int, x: SubString, g: int)
  {
    (x.end + 1 == g && x.end != n - 1) || (x.start == g && g != 0)
  }

  lemma {:induction false} Uncounted(n: int, q: seq<SubString>, g: int)
    requires forall k :: 0 <= k < |q| ==> !Boundary(n, q[k], g)
    ensures EndsBefore(n, q, g) == 0 && StartsAt(q, g) == 0
  {
    if q != [] {
      assert !Boundary(n, q[0], g);
      forall k | 0 <= k < |q[1..]| ensures !Boundary(n, q[1..][k], g) {
        assert q[1..][k] == q[k + 1];
      }
      Uncounted(n, q[1..], g);
    }
  }

  /** A gap that is no member's boundary gets no dash. */
  lemma NoDashAwayFromBoundaries(w: string, p: seq<SubString>, g: nat)
    requires g <= |w| && forall k :: 0 <= k < |p| ==> !Boundary(|w|, p[k], g)
    ensures AtMostOne(Gaps(|w|, p))[g] == 0
  {
    Uncounted(|w|, p, g);
  }

  // ---------------------------------------------------------------- examples

  /** "AD4" with two 1-letter members at 0 and 1 formats to "A-D-4". */
  lemma TwoOneLetterWords(w: string, p: seq<SubString>)
    requires w == "AD4" && p == [SubString("234", "2", 0, 0), SubString("234", "3", 1, 1)]
    ensures InRange(w, p) && FormatSpec(w, p) == "A-D-4"
  {
    assert p[1..] == [p[1]] && p[1..][1..] == [];
    assert DashFree(w) by {
      forall i | 0 <= i < |w| ensures w[i] != '-' {
      }
    }
    FormatDisjoint(w, p);
    var D := AtMostOne(Gaps(3, p));
    DashAtEveryBoundary(w, p, 0);
    DashAtEveryBoundary(w, p, 1);
    NoDashAwayFromBoundaries(w, p, 0);
    NoDashAwayFromBoundaries(w, p, 3);
    assert D == [0, 1, 1, 0];
    DashedAD4(w, D);
  }

  lemma DashedAD4(w: string, D: seq<nat>)
    requires w == "AD4" && D == [0, 1, 1, 0]
    ensures Dashed(w, D) == "A-D-4"
  {
    assert Dashes(1) == "-" && Dashes(0) == [];
    assert Dashed(w[1..][1..][1..], D[1..][1..][1..]) == [];
    assert Dashed(w[1..][1..], D[1..][1..]) == "-4";
    assert Dashed(w[1..], D[1..]) == "-D-4";
  }

  /** "3A" with a 1-letter member at the last index formats to "3-A". */
  lemma OneLetterAtEnd(w: string, p: seq<SubString>)
    requires w == "3A" && p == [SubString("32", "2", 1, 1)]
    ensures InRange(w, p) && FormatSpec(w, p) == "3-A"
  {
    assert p[1..] == [];
    assert DashFree(w) by {
      forall i | 0 <= i < |w| ensures w[i] != '-' {
      }
    }
    FormatDisjoint(w, p);
    var D := AtMostOne(Gaps(2, p));
    DashAtEveryBoundary(w, p, 0);
    NoDashAwayFromBoundaries(w, p, 0);
    NoDashAwayFromBoundaries(w, p, 2);
    assert D == [0, 1, 0];
    Dashed3A(w, D);
  }

  lemma Dashed3A(w: string, D: seq<nat>)
    requires w == "3A" && D == [0, 1, 0]
    ensures Dashed(w, D) == "3-A"
  {
    assert Dashes(1) == "-" && Dashes(0) == [];
    assert Dashed(w[1..][1..], D[1..][1..]) == [];
    assert Dashed(w[1..], D[1..]) == "-A";
  }

  /** "A3" with a 1-letter member at 0 formats to "A-3". */
  lemma OneLetterAtStart(w: string, p: seq<SubString>)
    requires w == "A3" && p == [SubString("23", "2", 0, 0)]
    ensures InRange(w, p) && FormatSpec(w, p) == "A-3"
  {
    assert p[1..] == [];
    assert DashFree(w) by {
      forall i | 0 <= i < |w| ensures w[i] != '-' {
      }
    }
    FormatDisjoint(w, p);
    var D := AtMostOne(Gaps(2, p));
    DashAtEveryBoundary(w, p, 0);
    NoDashAwayFromBoundaries(w, p, 0);
    NoDashAwayFromBoundaries(w, p, 2);
    assert D == [0, 1, 0];
    DashedFirstDash(w, D, 1);
    DashedZeros(w[2..], D[2..]);
  }

  /** "AAA3" with a word over indices 0 to 2 formats to "AAA-3". */
  lemma WordThenDigit(w: string, p: seq<SubString>)
    requires w == "AAA3" && p == [SubString("2223", "222", 0, 2)]
    ensures InRange(w, p) && FormatSpec(w, p) == "AAA-3"
  {
    assert DashFree(w) by {
      forall i | 0 <= i < |w| ensures w[i] != '-' {
      }
    }
    assert Disjoint(|w|, p);
    FormatDisjoint(w, p);
    assert AtMostOne(Gaps(4, p)) == [0, 0, 0, 1, 0] by {
      DashAtEveryBoundary(w, p, 0);
      forall g | g in {0, 1, 2, 4} ensures AtMostOne(Gaps(4, p))[g] == 0 {
        NoDashAwayFromBoundaries(w, p, g);
      }
    }
    DashedFirstDash(w, [0, 0, 0, 1, 0], 3);
    DashedZeros(w[4..], [0]);
  }

  /** "AAADDD" with words over 0 to 2 and 3 to 5 formats to "AAA-DDD". */
  lemma TwoWords(w: string, p: seq<SubString>)
    requires w == "AAADDD"
    requires p == [SubString("222333", "222", 0, 2), SubString("222333", "333", 3, 5)]
    ensures InRange(w, p) && FormatSpec(w, p) == "AAA-DDD"
  {
    assert DashFree(w) by {
      forall i | 0 <= i < |w| ensures w[i] != '-' {
      }
    }
    assert Disjoint(|w|, p);
    FormatDisjoint(w, p);
    TwoWordsGaps(w, p);
    DashedTwoWords(w, AtMostOne(Gaps(6, p)));
  }

  lemma TwoWordsGaps(w: string, p: seq<SubString>)
    requires |w| == 6
    requires p == [SubString("222333", "222", 0, 2), SubString("222333", "333", 3, 5)]
    ensures AtMostOne(Gaps(6, p)) == [0, 0, 0, 1, 0, 0, 0]
  {
    assert Disjoint(|w|, p);
    DashAtEveryBoundary(w, p, 0);
    DashAtEveryBoundary(w, p, 1);
    forall g | g in {0, 1, 2, 4, 5, 6} ensures AtMostOne(Gaps(6, p))[g] == 0 {
      NoDashAwayFromBoundaries(w, p, g);
    }
  }

  lemma DashedTwoWords(w: string, D: seq<nat>)
    requires w == "AAADDD" && D == [0, 0, 0, 1, 0, 0, 0]
    ensures Dashed(w, D) == "AAA-DDD"
  {
    var u, E := w[4..], D[4..];
    assert u == "DD" && E == [0, 0, 0];
    DashedZeros(u, E);
    DashedFirstDash(w, D, 3);
  }

  /** "AAADDDEEE" with words over 0 to 2, 3 to 5 and 6 to 8 formats to "AAA-DDD-EEE". */
  lemma ThreeWords(w: string, p: seq<SubString>)
    requires w == "AAADDDEEE"
    requires p == [SubString("222333444", "222", 0, 2), SubString("222333444", "333", 3, 5),
                   SubString("222333444", "444", 6, 8)]
    ensures InRange(w, p) && FormatSpec(w, p) == "AAA-DDD-EEE"
  {
    assert DashFree(w) by {
      forall i | 0 <= i < |w| ensures w[i] != '-' {
      }
    }
    assert Disjoint(|w|, p);
    FormatDisjoint(w, p);
    ThreeWordsGaps(w, p);
    DashedThreeWords(w, AtMostOne(Gaps(9, p)));
  }

  lemma ThreeWordsGaps(w: string, p: seq<SubString>)
    requires |w| == 9
    requires p == [SubString("222333444", "222", 0, 2), SubString("222333444", "333", 3, 5),
                   SubString("222333444", "444", 6, 8)]
    ensures AtMostOne(Gaps(9, p)) == [0, 0, 0, 1, 0, 0, 1, 0, 0, 0]
  {
    assert Disjoint(|w|, p);
    DashAtEveryBoundary(w, p, 0);
    DashAtEveryBoundary(w, p, 1);
    DashAtEveryBoundary(w, p, 2);
    forall g | g in {0, 1, 2, 4, 5, 7, 8, 9} ensures AtMostOne(Gaps(9, p))[g] == 0 {
      NoDashAwayFromBoundaries(w, p, g);
    }
  }

  lemma DashedThreeWords(w: string, D: seq<nat>)
    requires w == "AAADDDEEE" && D == [0, 0, 0, 1, 0, 0, 1, 0, 0, 0]
    ensures Dashed(w, D) == "AAA-DDD-EEE"
  {
    var u, E := w[4..], D[4..];
    assert u == "DDEEE" && E == [0, 0, 1, 0, 0, 0];
    DashedLastWords(u, E);
    DashedFirstDash(w, D, 3);
  }

  lemma DashedLastWords(u: string, E: seq<nat>)
    requires u == "DDEEE" && E == [0, 0, 1, 0, 0, 0]
    ensures Dashed(u, E) == "DD-EEE"
  {
    var v, F := u[3..], E[3..];
    assert v == "EE" && F == [0, 0, 0];
    DashedZeros(v, F);
    DashedFirstDash(u, E, 2);
  }
}

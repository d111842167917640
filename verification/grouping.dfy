/**
 * From the runs found in a number to the patterns worth expanding. Both
 * dictionaries build the same candidate groups with the same loops: every run
 * on its own, then, for each size n from 2 up, each anchor run followed by a
 * window of later runs. They then drop the groups whose members overlap and
 * remove duplicates in place. They differ only in what counts as a duplicate,
 * so the de-duplication is stated once, for any duplicate relation.
 */
module Grouping {
  import opened SubStrings
  import opened Patterns

  // ---------------------------------------------------------------- candidate groups

  function Min(a: int, b: int): int { if a < b then a else b }

  /**
   * The group for anchor `i` and window start `j` after `k` rounds of the
   * innermost loop: round `k` looks at run `j + k`, skips it when it equals
   * the anchor, and the loop stops once the group has `n` members.
   */
  function Fill(ss: seq<SubString>, i: nat, j: nat, n: nat, k: nat): seq<SubString>
    requires i < |ss| && j + k <= |ss|
  {
    if k == 0 then [ss[i]]
    else
      var g := Fill(ss, i, j, n, k - 1);
      if |g| == n then g
      else if !Equals(ss[i], ss[j + k - 1]) then g + [ss[j + k - 1]]
      else g
  }

  /** The group the innermost loop leaves: at most `n` rounds, none past the last run. */
  function Group(ss: seq<SubString>, i: nat, j: nat, n: nat): seq<SubString>
    requires i < |ss| && j <= |ss|
  {
    Fill(ss, i, j, n, Min(n, |ss| - j))
  }

  /** The full groups of size `n` for anchor `i` and window starts `i + 1 .. j - 1`. */
  function AnchorGroups(ss: seq<SubString>, n: nat, i: nat, j: nat): seq<seq<SubString>>
    requires i < |ss| && i + 1 <= j <= |ss|
    decreases j
  {
    if j == i + 1 then []
    else
      AnchorGroups(ss, n, i, j - 1)
      + (if |Group(ss, i, j - 1, n)| == n then [Group(ss, i, j - 1, n)] else [])
  }

  /** The full groups of size `n` for the anchors below `i`. */
  function SizeGroups(ss: seq<SubString>, n: nat, i: nat): seq<seq<SubString>>
    requires i <= |ss|
  {
    if i == 0 then [] else SizeGroups(ss, n, i - 1) + AnchorGroups(ss, n, i - 1, |ss|)
  }

  /** The full groups of every size from 2 up to `n - 1`. */
  function GroupsBelow(ss: seq<SubString>, n: nat): seq<seq<SubString>>
  {
    if n <= 2 then [] else GroupsBelow(ss, n - 1) + SizeGroups(ss, n - 1, |ss|)
  }

  function Singletons(ss: seq<SubString>): (r: seq<seq<SubString>>)
    ensures |r| == |ss|
    ensures forall k :: 0 <= k < |ss| ==> r[k] == [ss[k]]
  {
    seq(|ss|, k requires 0 <= k < |ss| => [ss[k]])
  }

  /** Every candidate the grouping loops produce, in the order they are added. */
  function Candidates(ss: seq<SubString>): seq<seq<SubString>>
  {
    Singletons(ss) + GroupsBelow(ss, |ss| + 1)
  }

  /** Once a group is full, later rounds leave it alone (the loop's `break`). */
  lemma {:induction false} FillStaysFull(ss: seq<SubString>, i: nat, j: nat, n: nat, k: nat, k2: nat)
    requires i < |ss| && k <= k2 && j + k2 <= |ss|
    requires |Fill(ss, i, j, n, k)| == n
    ensures Fill(ss, i, j, n, k2) == Fill(ss, i, j, n, k)
    decreases k2
  {
    if k2 > k {
      FillStaysFull(ss, i, j, n, k, k2 - 1);
    }
  }

  /** The candidate loops: singletons first, then sizes 2.., anchors left to right, window starts left to right. */
  method BuildCandidates(subStrings: seq<SubString>) returns (patterns: seq<seq<SubString>>)
    ensures patterns == Candidates(subStrings)
  {
    var ss := subStrings;
    patterns := AddSingletons(ss);
    ghost var singles := patterns;
    var noOfSubStrings := 2;
    while noOfSubStrings <= |ss|
      invariant 2 <= noOfSubStrings && (noOfSubStrings <= |ss| + 1 || noOfSubStrings == 2)
      invariant patterns == singles + GroupsBelow(ss, noOfSubStrings)
    {
      GroupsBelowNext(ss, noOfSubStrings, singles);
      patterns := AddGroupsOfSize(ss, noOfSubStrings, patterns);
      noOfSubStrings := noOfSubStrings + 1;
    }
    if |ss| < 2 {
      assert GroupsBelow(ss, noOfSubStrings) == [] == GroupsBelow(ss, |ss| + 1);
    }
  }

  /** The first loop: one 1-member group per run, in run order. */
  method AddSingletons(ss: seq<SubString>) returns (patterns: seq<seq<SubString>>)
    ensures patterns == Singletons(ss)
  {
    patterns := [];
    var t := 0;
    while t < |ss|
      invariant 0 <= t <= |ss|
      invariant patterns == Singletons(ss)[..t]
    {
      SingletonsNext(ss, t);
      patterns := patterns + [[ss[t]]];
      t := t + 1;
    }
    assert Singletons(ss)[..|ss|] == Singletons(ss);
  }

  lemma SingletonsNext(ss: seq<SubString>, t: nat)
    requires t < |ss|
    ensures Singletons(ss)[..t + 1] == Singletons(ss)[..t] + [[ss[t]]]
  {
  }

  /** The size loop's step: the groups below `n + 1` are those below `n` and then those of size `n`. */
  lemma GroupsBelowNext(ss: seq<SubString>, n: nat, prefix: seq<seq<SubString>>)
    requires 2 <= n
    ensures prefix + GroupsBelow(ss, n + 1) == (prefix + GroupsBelow(ss, n)) + SizeGroups(ss, n, |ss|)
  {
  }

  /** One round of the size loop: every anchor, left to right. */
  method AddGroupsOfSize(ss: seq<SubString>, n: nat, patterns0: seq<seq<SubString>>) returns (patterns: seq<seq<SubString>>)
    ensures patterns == patterns0 + SizeGroups(ss, n, |ss|)
  {
    patterns := patterns0;
    var i := 0;
    while i < |ss|
      invariant 0 <= i <= |ss|
      invariant patterns == patterns0 + SizeGroups(ss, n, i)
    {
      patterns := AddGroupsOfAnchor(ss, n, i, patterns);
      i := i + 1;
    }
  }

  /** One round of the anchor loop: every window start after the anchor, left to right. */
  method AddGroupsOfAnchor(ss: seq<SubString>, n: nat, i: nat, patterns0: seq<seq<SubString>>) returns (patterns: seq<seq<SubString>>)
    requires i < |ss|
    ensures patterns == patterns0 + AnchorGroups(ss, n, i, |ss|)
  {
    patterns := patterns0;
    var j := i + 1;
    while j < |ss|
      invariant i + 1 <= j <= |ss|
      invariant patterns == patterns0 + AnchorGroups(ss, n, i, j)
    {
      var group := GroupAt(ss, i, j, n);
      if |group| == n {
        patterns := patterns + [group];
      }
      j := j + 1;
    }
  }

  /** The innermost loop of the grouping: anchor `i`, then runs from `j` on, skipping copies of the anchor. */
  method GroupAt(ss: seq<SubString>, i: nat, j: nat, n: nat) returns (group: seq<SubString>)
    requires i < |ss| && j <= |ss|
    ensures group == Group(ss, i, j, n)
  {
    var subString := ss[i];
    group := [subString];
    var k := 0;
    while k < n && j + k < |ss|
      invariant 0 <= k <= Min(n, |ss| - j)
      invariant group == Fill(ss, i, j, n, k)
    {
      var nextSubString := ss[j + k];
      if |group| == n {
        FillStaysFull(ss, i, j, n, k, Min(n, |ss| - j));
        return;
      }
      if !Equals(subString, nextSubString) {
        group := group + [nextSubString];
      }
      k := k + 1;
    }
  }

  // ---------------------------------------------------------------- the shape of a candidate

  /** No run occurs twice, as in every search result. */
  predicate Distinct(ss: seq<SubString>)
  {
    forall k, l :: 0 <= k < l < |ss| ==> ss[k] != ss[l]
  }

  /** `g` is anchor `i` followed by the `n - 1` consecutive runs from `j`, with `i < j`. */
  predicate IsWindowGroup(ss: seq<SubString>, g: seq<SubString>, i: int, j: int, n: int)
  {
    0 <= i < j && 2 <= n && j + n - 1 <= |ss| && g == [ss[i]] + ss[j..j + n - 1]
  }

  lemma {:induction false} FillDistinct(ss: seq<SubString>, i: nat, j: nat, n: nat, k: nat)
    requires Distinct(ss) && i < j && 1 <= n && i < |ss| && j + k <= |ss|
    ensures Fill(ss, i, j, n, k) == [ss[i]] + ss[j..j + Min(k, n - 1)]
  {
    if k > 0 {
      FillDistinct(ss, i, j, n, k - 1);
      if k - 1 < n - 1 {
        assert ss[i] != ss[j + k - 1];
        assert ss[j..j + k] == ss[j..j + k - 1] + [ss[j + k - 1]];
      }
    }
  }

  /** With distinct runs a group is the anchor plus a contiguous window; it is full exactly when the window fits. */
  lemma GroupDistinct(ss: seq<SubString>, i: nat, j: nat, n: nat)
    requires Distinct(ss) && i < j <= |ss| && 2 <= n
    ensures Group(ss, i, j, n) == [ss[i]] + ss[j..Min(j + n - 1, |ss|)]
    ensures |Group(ss, i, j, n)| == n <==> j + n - 1 <= |ss|
  {
    FillDistinct(ss, i, j, n, Min(n, |ss| - j));
  }

  lemma {:induction false} AnchorGroupsShape(ss: seq<SubString>, n: nat, i: nat, j: nat, g: seq<SubString>)
    requires Distinct(ss) && 2 <= n && i < |ss| && i + 1 <= j <= |ss|
    requires g in AnchorGroups(ss, n, i, j)
    ensures IsWindowGroup(ss, g, i, j - 1, n) || exists j' :: IsWindowGroup(ss, g, i, j', n)
    decreases j
  {
    if j > i + 1 {
      if g in AnchorGroups(ss, n, i, j - 1) {
        AnchorGroupsShape(ss, n, i, j - 1, g);
      } else {
        GroupDistinct(ss, i, j - 1, n);
        assert IsWindowGroup(ss, g, i, j - 1, n);
      }
    }
  }

  lemma {:induction false} SizeGroupsShape(ss: seq<SubString>, n: nat, i: nat, g: seq<SubString>)
    requires Distinct(ss) && 2 <= n && i <= |ss|
    requires g in SizeGroups(ss, n, i)
    ensures exists i', j' :: IsWindowGroup(ss, g, i', j', n)
  {
    if i > 0 {
      if g in SizeGroups(ss, n, i - 1) {
        SizeGroupsShape(ss, n, i - 1, g);
      } else {
        AnchorGroupsShape(ss, n, i - 1, |ss|, g);
      }
    }
  }

  lemma {:induction false} GroupsBelowShape(ss: seq<SubString>, n: nat, g: seq<SubString>)
    requires Distinct(ss)
    requires g in GroupsBelow(ss, n)
    ensures exists i, j, m :: IsWindowGroup(ss, g, i, j, m)
  {
    if n > 2 {
      if g in GroupsBelow(ss, n - 1) {
        GroupsBelowShape(ss, n - 1, g);
      } else {
        SizeGroupsShape(ss, n - 1, |ss|, g);
      }
    }
  }

  /**
   * Over distinct runs, every candidate is a single run or an anchor followed by
   * a window of consecutive later runs; other combinations are never formed.
   */
  lemma CandidateShape(ss: seq<SubString>, g: seq<SubString>)
    requires Distinct(ss)
    requires g in Candidates(ss)
    ensures (exists k :: 0 <= k < |ss| && g == [ss[k]]) || (exists i, j, n :: IsWindowGroup(ss, g, i, j, n))
  {
    if g in Singletons(ss) {
      var k :| 0 <= k < |ss| && Singletons(ss)[k] == g;
    } else {
      GroupsBelowShape(ss, |ss| + 1, g);
    }
  }

  /** Over distinct runs every candidate lists distinct runs, all taken from the input. */
  lemma CandidateMembers(ss: seq<SubString>, g: seq<SubString>)
    requires Distinct(ss) && g in Candidates(ss)
    ensures Distinct(g) && forall x :: x in g ==> x in ss
  {
    CandidateShape(ss, g);
    if exists i, j, n :: IsWindowGroup(ss, g, i, j, n) {
      var i, j, n :| IsWindowGroup(ss, g, i, j, n);
      WindowGroupMembers(ss, g, i, j, n);
    }
  }

  lemma WindowGroupMembers(ss: seq<SubString>, g: seq<SubString>, i: int, j: int, n: int)
    requires Distinct(ss) && IsWindowGroup(ss, g, i, j, n)
    ensures Distinct(g) && forall x :: x in g ==> x in ss
  {
    forall x | x in g ensures x in ss {
      var k :| 0 <= k < |g| && g[k] == x;
      if k > 0 {
        assert g[k] == ss[j + k - 1];
      }
    }
    forall k, l | 0 <= k < l < |g| ensures g[k] != g[l] {
      assert g[l] == ss[j + l - 1];
      if k == 0 {
        assert i < j + l - 1;
      } else {
        assert g[k] == ss[j + k - 1];
      }
    }
  }

  lemma {:induction false} AnchorGroupsHas(ss: seq<SubString>, n: nat, i: nat, j: nat, j': nat)
    requires Distinct(ss) && 2 <= n && i < |ss| && i + 1 <= j <= |ss|
    requires i < j' < j && j' + n - 1 <= |ss|
    ensures [ss[i]] + ss[j'..j' + n - 1] in AnchorGroups(ss, n, i, j)
    decreases j
  {
    var g := [ss[i]] + ss[j'..j' + n - 1];
    var extra := if |Group(ss, i, j - 1, n)| == n then [Group(ss, i, j - 1, n)] else [];
    if j' < j - 1 {
      AnchorGroupsHas(ss, n, i, j - 1, j');
    } else {
      GroupDistinct(ss, i, j', n);
      assert g in extra;
    }
    InAppend(AnchorGroups(ss, n, i, j - 1), extra, g);
  }

  lemma {:induction false} SizeGroupsHas(ss: seq<SubString>, n: nat, i: nat, i': nat, j': nat)
    requires Distinct(ss) && 2 <= n && i <= |ss|
    requires i' < i && i' < j' < |ss| && j' + n - 1 <= |ss|
    ensures [ss[i']] + ss[j'..j' + n - 1] in SizeGroups(ss, n, i)
  {
    var g := [ss[i']] + ss[j'..j' + n - 1];
    if i' < i - 1 {
      SizeGroupsHas(ss, n, i - 1, i', j');
    } else {
      AnchorGroupsHas(ss, n, i - 1, |ss|, j');
    }
    InSizeGroups(ss, n, i, g);
  }

  lemma InSizeGroups(ss: seq<SubString>, n: nat, i: nat, g: seq<SubString>)
    requires 0 < i <= |ss|
    requires g in SizeGroups(ss, n, i - 1) || g in AnchorGroups(ss, n, i - 1, |ss|)
    ensures g in SizeGroups(ss, n, i)
  {
    InAppend(SizeGroups(ss, n, i - 1), AnchorGroups(ss, n, i - 1, |ss|), g);
  }

  lemma {:induction false} GroupsBelowHas(ss: seq<SubString>, n: nat, i: nat, j: nat, m: nat)
    requires Distinct(ss) && 2 <= m < n && i < j < |ss| && j + m - 1 <= |ss|
    ensures [ss[i]] + ss[j..j + m - 1] in GroupsBelow(ss, n)
  {
    var g := [ss[i]] + ss[j..j + m - 1];
    if m < n - 1 {
      GroupsBelowHas(ss, n - 1, i, j, m);
      InAppend(GroupsBelow(ss, n - 1), SizeGroups(ss, n - 1, |ss|), g);
    } else {
      SizeGroupsHas(ss, m, |ss|, i, j);
      InAppend(GroupsBelow(ss, n - 1), SizeGroups(ss, n - 1, |ss|), g);
    }
  }

  lemma InAppend<T>(a: seq<T>, b: seq<T>, x: T)
    ensures x in a + b <==> x in a || x in b
  {
  }

  /** Over distinct runs, every anchor-plus-window group that fits is a candidate. */
  lemma WindowGroupIsCandidate(ss: seq<SubString>, i: nat, j: nat, n: nat)
    requires Distinct(ss) && i < j && 2 <= n && j + n - 1 <= |ss|
    ensures [ss[i]] + ss[j..j + n - 1] in Candidates(ss)
  {
    GroupsBelowHas(ss, |ss| + 1, i, j, n);
  }

  /** Four distinct runs: the first, second and fourth are never grouped together. */
  lemma GapNotGrouped(ss: seq<SubString>)
    requires Distinct(ss) && |ss| == 4
    ensures [ss[0], ss[1], ss[3]] !in Candidates(ss)
  {
    var g := [ss[0], ss[1], ss[3]];
    if g in Candidates(ss) {
      forall k | 0 <= k < |ss| ensures g != [ss[k]] {
        assert |g| != |[ss[k]]|;
      }
      forall i, j, n ensures !IsWindowGroup(ss, g, i, j, n) {
        NotWindow(ss, i, j, n);
      }
      CandidateShape(ss, g);
      assert false;
    }
  }

  lemma NotWindow(ss: seq<SubString>, i: int, j: int, n: int)
    requires Distinct(ss) && |ss| == 4
    ensures !IsWindowGroup(ss, [ss[0], ss[1], ss[3]], i, j, n)
  {
    var g := [ss[0], ss[1], ss[3]];
    if 0 <= i < j && 2 <= n && j + n - 1 <= |ss| {
      var w := [ss[i]] + ss[j..j + n - 1];
      if n != 3 {
        assert |w| != |g|;
      } else if j == 1 {
        assert w[2] == ss[2] && ss[2] != ss[3];
        assert w[2] != g[2];
      } else {
        assert j == 2 && w[1] == ss[2] && ss[2] != ss[1];
        assert w[1] != g[1];
      }
    }
  }

  // ---------------------------------------------------------------- overlap filter

  /** The stream filter that keeps the groups `isValid` accepts, in order. */
  function ValidOnly(ps: seq<seq<SubString>>): seq<seq<SubString>>
  {
    if ps == [] then [] else (if IsValid(ps[0]) then [ps[0]] else []) + ValidOnly(ps[1..])
  }

  /** Exactly the groups without two different overlapping members survive the filter. */
  lemma {:induction false} ValidOnlyIff(ps: seq<seq<SubString>>, g: seq<SubString>)
    ensures g in ValidOnly(ps) <==> g in ps && NoConflicts(g)
  {
    IsValidIff(g);
    if ps != [] {
      ValidOnlyIff(ps[1..], g);
      IsValidIff(ps[0]);
      assert g in ps <==> g == ps[0] || g in ps[1..];
    }
  }

  lemma {:induction false} ValidOnlyAppend(a: seq<seq<SubString>>, b: seq<seq<SubString>>)
    ensures ValidOnly(a + b) == ValidOnly(a) + ValidOnly(b)
  {
    if a == [] {
      assert a + b == b;
    } else {
      ValidOnlyAppend(a[1..], b);
      ValidOnlyAppendStep(a, b);
    }
  }

  lemma ValidOnlyAppendStep(a: seq<seq<SubString>>, b: seq<seq<SubString>>)
    requires a != []
    requires ValidOnly(a[1..] + b) == ValidOnly(a[1..]) + ValidOnly(b)
    ensures ValidOnly(a + b) == ValidOnly(a) + ValidOnly(b)
  {
    var head := if IsValid(a[0]) then [a[0]] else [];
    assert (a + b)[0] == a[0] && (a + b)[1..] == a[1..] + b;
    assert ValidOnly(a + b) == head + ValidOnly(a[1..] + b);
    assert ValidOnly(a) == head + ValidOnly(a[1..]);
    AppendAssoc(head, ValidOnly(a[1..]), ValidOnly(b));
  }

  lemma AppendAssoc<T>(x: seq<T>, y: seq<T>, z: seq<T>)
    ensures x + (y + z) == (x + y) + z
  {
  }

  /** A single run never conflicts with a different member, so every singleton passes the filter. */
  lemma {:induction false} ValidOnlySingletons(ss: seq<SubString>)
    ensures ValidOnly(Singletons(ss)) == Singletons(ss)
  {
    if ss != [] {
      assert Singletons(ss) == [[ss[0]]] + Singletons(ss[1..]);
      ValidOnlySingletons(ss[1..]);
      IsValidIff([ss[0]]);
    }
  }

  // ---------------------------------------------------------------- duplicate removal

  /** `s` without the members that `dup` relates to `x`. */
  function RemoveRelated<T>(dup: (T, T) -> bool, x: T, s: seq<T>): (r: seq<T>)
    ensures |r| <= |s|
  {
    if s == [] then [] else (if dup(x, s[0]) then [] else [s[0]]) + RemoveRelated(dup, x, s[1..])
  }

  /** Keep the first member, drop every later member related to it, and go on with the rest. */
  function Dedup<T>(dup: (T, T) -> bool, s: seq<T>): seq<T>
    decreases |s|
  {
    if s == [] then [] else [s[0]] + Dedup(dup, RemoveRelated(dup, s[0], s[1..]))
  }

  lemma {:induction false} RemoveRelatedNone<T>(dup: (T, T) -> bool, x: T, s: seq<T>)
    requires forall k :: 0 <= k < |s| ==> !dup(x, s[k])
    ensures RemoveRelated(dup, x, s) == s
  {
    if s != [] {
      RemoveRelatedNone(dup, x, s[1..]);
      assert [s[0]] + s[1..] == s;
    }
  }

  lemma {:induction false} RemoveRelatedAppend<T>(dup: (T, T) -> bool, x: T, a: seq<T>, b: seq<T>)
    ensures RemoveRelated(dup, x, a + b) == RemoveRelated(dup, x, a) + RemoveRelated(dup, x, b)
  {
    if a == [] {
      assert a + b == b;
    } else {
      assert (a + b)[1..] == a[1..] + b;
      RemoveRelatedAppend(dup, x, a[1..], b);
    }
  }

  /** What survives the removal comes from `s` and is unrelated to `x`. */
  lemma {:induction false} RemoveRelatedMembers<T>(dup: (T, T) -> bool, x: T, s: seq<T>, y: T)
    ensures y in RemoveRelated(dup, x, s) <==> y in s && !dup(x, y)
  {
    if s != [] {
      RemoveRelatedMembers(dup, x, s[1..], y);
      assert y in s <==> y == s[0] || y in s[1..];
    }
  }

  /** Every member of the de-duplicated list comes from the input. */
  lemma {:induction false} DedupSubset<T>(dup: (T, T) -> bool, s: seq<T>, y: T)
    requires y in Dedup(dup, s)
    ensures y in s
    decreases |s|
  {
    if s != [] && y != s[0] {
      var rest := RemoveRelated(dup, s[0], s[1..]);
      DedupSubset(dup, rest, y);
      RemoveRelatedMembers(dup, s[0], s[1..], y);
    }
  }

  /** No member of the de-duplicated list is related to a later one. */
  lemma {:induction false} DedupNoRelatedPair<T>(dup: (T, T) -> bool, s: seq<T>)
    ensures forall k, l :: 0 <= k < l < |Dedup(dup, s)| ==> !dup(Dedup(dup, s)[k], Dedup(dup, s)[l])
    decreases |s|
  {
    if s != [] {
      var rest := RemoveRelated(dup, s[0], s[1..]);
      var d := Dedup(dup, s);
      DedupNoRelatedPair(dup, rest);
      forall k, l | 0 <= k < l < |d| ensures !dup(d[k], d[l]) {
        if k == 0 {
          assert d[l] in Dedup(dup, rest);
          DedupSubset(dup, rest, d[l]);
          RemoveRelatedMembers(dup, s[0], s[1..], d[l]);
        } else {
          assert d[k] == Dedup(dup, rest)[k - 1] && d[l] == Dedup(dup, rest)[l - 1];
        }
      }
    }
  }

  /** A prefix whose members are pairwise unrelated survives unchanged at the front. */
  lemma {:induction false} DedupKeepsPrefix<T>(dup: (T, T) -> bool, a: seq<T>, b: seq<T>)
    requires forall k, l :: 0 <= k < |a| && 0 <= l < |a| && k != l ==> !dup(a[k], a[l])
    ensures |Dedup(dup, a + b)| >= |a| && Dedup(dup, a + b)[..|a|] == a
    decreases |a|
  {
    if a != [] {
      var b' := RemoveRelated(dup, a[0], b);
      TailUnrelated(dup, a);
      DedupKeepsPrefix(dup, a[1..], b');
      DedupPrefixStep(dup, a, b, b');
    }
  }

  lemma TailUnrelated<T>(dup: (T, T) -> bool, a: seq<T>)
    requires a != []
    requires forall k, l :: 0 <= k < |a| && 0 <= l < |a| && k != l ==> !dup(a[k], a[l])
    ensures forall k, l :: 0 <= k < |a[1..]| && 0 <= l < |a[1..]| && k != l ==> !dup(a[1..][k], a[1..][l])
    ensures forall k :: 0 <= k < |a[1..]| ==> !dup(a[0], a[1..][k])
  {
    forall k, l | 0 <= k < |a[1..]| && 0 <= l < |a[1..]| && k != l ensures !dup(a[1..][k], a[1..][l]) {
      assert a[1..][k] == a[k + 1] && a[1..][l] == a[l + 1];
    }
    forall k | 0 <= k < |a[1..]| ensures !dup(a[0], a[1..][k]) {
      assert a[1..][k] == a[k + 1];
    }
  }

  /** The first entry is kept and removes nothing from the rest of the prefix. */
  lemma DedupPrefixStep<T>(dup: (T, T) -> bool, a: seq<T>, b: seq<T>, b': seq<T>)
    requires a != [] && b' == RemoveRelated(dup, a[0], b)
    requires forall k :: 0 <= k < |a[1..]| ==> !dup(a[0], a[1..][k])
    requires |Dedup(dup, a[1..] + b')| >= |a[1..]| && Dedup(dup, a[1..] + b')[..|a[1..]|] == a[1..]
    ensures |Dedup(dup, a + b)| >= |a| && Dedup(dup, a + b)[..|a|] == a
  {
    var a' := a[1..];
    assert (a + b)[0] == a[0] && (a + b)[1..] == a' + b;
    RemoveRelatedAppend(dup, a[0], a', b);
    RemoveRelatedNone(dup, a[0], a');
    assert Dedup(dup, a + b) == [a[0]] + Dedup(dup, a' + b');
    assert [a[0]] + a' == a;
  }

  /** When the relation is equality every input member is still present. */
  lemma {:induction false} DedupEqualityKeepsAll<T>(eq: (T, T) -> bool, s: seq<T>, y: T)
    requires forall a, b :: eq(a, b) <==> a == b
    requires y in s
    ensures y in Dedup(eq, s)
    decreases |s|
  {
    if y != s[0] {
      var rest := RemoveRelated(eq, s[0], s[1..]);
      RemoveRelatedMembers(eq, s[0], s[1..], y);
      DedupEqualityKeepsAll(eq, rest, y);
    }
  }

  /** Every entry of the input is kept, or some kept entry is related to it. */
  lemma {:induction false} DedupCovers<T>(dup: (T, T) -> bool, s: seq<T>, y: T)
    requires y in s
    ensures y in Dedup(dup, s) || exists x :: x in Dedup(dup, s) && dup(x, y)
    decreases |s|
  {
    if y != s[0] {
      if dup(s[0], y) {
        assert s[0] in Dedup(dup, s);
      } else {
        var rest := RemoveRelated(dup, s[0], s[1..]);
        RemoveRelatedMembers(dup, s[0], s[1..], y);
        DedupCovers(dup, rest, y);
        if y !in Dedup(dup, rest) {
          var x :| x in Dedup(dup, rest) && dup(x, y);
          assert x in Dedup(dup, s);
        }
      }
    }
  }

  /**
   * The in-place removal: for each position `i`, every later entry `dup`
   * relates to the entry at `i` is removed (`remove(j); j--`).
   */
  method RemoveDuplicates<T>(dup: (T, T) -> bool, patterns: seq<T>) returns (validPatterns: seq<T>)
    ensures validPatterns == Dedup(dup, patterns)
  {
    validPatterns := patterns;
    var i := 0;
    while i < |validPatterns| - 1
      invariant 0 <= i <= |validPatterns|
      invariant Dedup(dup, patterns) == validPatterns[..i] + Dedup(dup, validPatterns[i..])
    {
      ghost var before := validPatterns;
      validPatterns := RemoveLaterRelated(dup, validPatterns, i);
      NextPosition(dup, patterns, before, validPatterns, i);
      i := i + 1;
    }
    LastPosition(dup, patterns, validPatterns, i);
  }

  /** The inner loop of the removal: every entry after `i` that `dup` relates to the entry at `i` is removed. */
  method RemoveLaterRelated<T>(dup: (T, T) -> bool, v0: seq<T>, i: nat) returns (v: seq<T>)
    requires i < |v0|
    ensures i < |v| && v[..i + 1] == v0[..i + 1]
    ensures v[i + 1..] == RemoveRelated(dup, v0[i], v0[i + 1..])
  {
    v := v0;
    var pattern := v[i];
    var j := i + 1;
    assert v[i + 1..i + 1] == [];
    while j < |v|
      invariant Scanned(dup, pattern, v0, v, i, j)
      decreases |v| - j
    {
      var nextPattern := v[j];
      if dup(pattern, nextPattern) {
        RemoveStep(dup, pattern, v0, v, i, j);
        v := v[..j] + v[j + 1..];
        j := j - 1;
      } else {
        KeepStep(dup, pattern, v0, v, i, j);
      }
      j := j + 1;
    }
    ScanDone(dup, pattern, v, v0, i);
  }

  /** After the inner scan nothing after position `i` is related to the entry there. */
  lemma ScanDone<T>(dup: (T, T) -> bool, x: T, v: seq<T>, before: seq<T>, i: nat)
    requires Scanned(dup, x, before, v, i, |v|)
    ensures i < |v| && v[..i + 1] == before[..i + 1]
    ensures v[i + 1..] == RemoveRelated(dup, x, before[i + 1..])
  {
    assert v[|v|..] == [];
    assert v[i + 1..|v|] == v[i + 1..];
  }

  /** One round of the outer loop: position `i` is settled. */
  lemma NextPosition<T>(dup: (T, T) -> bool, patterns: seq<T>, before: seq<T>, v: seq<T>, i: nat)
    requires i < |before| && i < |v|
    requires Dedup(dup, patterns) == before[..i] + Dedup(dup, before[i..])
    requires v[..i + 1] == before[..i + 1]
    requires v[i + 1..] == RemoveRelated(dup, before[i], before[i + 1..])
    ensures Dedup(dup, patterns) == v[..i + 1] + Dedup(dup, v[i + 1..])
  {
    assert before[i..][0] == before[i] && before[i..][1..] == before[i + 1..];
    assert v[i] == before[i];
    assert v[..i + 1] == before[..i] + [before[i]];
  }

  /** When at most one entry is left after `i`, the list is final. */
  lemma LastPosition<T>(dup: (T, T) -> bool, patterns: seq<T>, v: seq<T>, i: nat)
    requires i <= |v| && i >= |v| - 1
    requires Dedup(dup, patterns) == v[..i] + Dedup(dup, v[i..])
    ensures v == Dedup(dup, patterns)
  {
    if i < |v| {
      assert v[i..] == [v[i]];
      assert v[i..][1..] == [];
    }
    assert v[..i] + v[i..] == v;
  }

  /**
   * The inner scan's state at `j`: the entries up to `i` are untouched, those
   * scanned so far are unrelated to `x`, and they and the unrelated part of
   * the rest are what the scan of the original tail keeps.
   */
  ghost predicate Scanned<T>(dup: (T, T) -> bool, x: T, before: seq<T>, v: seq<T>, i: nat, j: nat)
  {
    && i + 1 <= j <= |v| && i < |before|
    && v[..i + 1] == before[..i + 1]
    && (forall m :: i + 1 <= m < j ==> !dup(x, v[m]))
    && v[i + 1..j] + RemoveRelated(dup, x, v[j..]) == RemoveRelated(dup, x, before[i + 1..])
  }

  /** Removing entry `j`, which is related: the unscanned part loses exactly that entry. */
  lemma RemoveStep<T>(dup: (T, T) -> bool, x: T, before: seq<T>, v: seq<T>, i: nat, j: nat)
    requires Scanned(dup, x, before, v, i, j) && j < |v| && dup(x, v[j])
    ensures Scanned(dup, x, before, v[..j] + v[j + 1..], i, j)
  {
    var v' := v[..j] + v[j + 1..];
    assert v[j..] == [v[j]] + v[j + 1..];
    assert v'[j..] == v[j + 1..];
    assert v'[..i + 1] == v[..i + 1];
    assert v'[i + 1..j] == v[i + 1..j];
    forall m | i + 1 <= m < j ensures !dup(x, v'[m]) {
      assert v'[m] == v[m];
    }
  }

  /** Keeping entry `j`, which is unrelated: it moves from the unscanned part to the scanned part. */
  lemma KeepStep<T>(dup: (T, T) -> bool, x: T, before: seq<T>, v: seq<T>, i: nat, j: nat)
    requires Scanned(dup, x, before, v, i, j) && j < |v| && !dup(x, v[j])
    ensures Scanned(dup, x, before, v, i, j + 1)
  {
    assert v[j..] == [v[j]] + v[j + 1..];
    assert v[i + 1..j + 1] == v[i + 1..j] + [v[j]];
  }

  // ---------------------------------------------------------------- the two engines

  /** The current engine's duplicate test, `Pattern.equals` on two patterns with lists: ordered list equality. */
  function SamePattern(a: seq<SubString>, b: seq<SubString>): bool
  {
    a == b
  }

  /** The superseded engine's duplicate test: same size, and the first contains every member of the second. */
  function SameMembers(a: seq<SubString>, b: seq<SubString>): bool
  {
    |a| == |b| && forall x :: x in b ==> x in a
  }

  /** `findAllValidPatterns`: candidates, then the overlap filter, then removal of equal patterns. */
  function ValidPatterns(ss: seq<SubString>): seq<seq<SubString>>
  {
    Dedup(SamePattern, ValidOnly(Candidates(ss)))
  }

  /** `groupPossibleEncodedString`: the same, but a later group with the same members in any order is removed. */
  function ValidGroups(ss: seq<SubString>): seq<seq<SubString>>
  {
    Dedup(SameMembers, ValidOnly(Candidates(ss)))
  }

  /** Every pattern returned is a candidate without overlapping members, and no two of them are equal. */
  lemma ValidPatternsSound(ss: seq<SubString>)
    ensures forall k :: 0 <= k < |ValidPatterns(ss)| ==>
      ValidPatterns(ss)[k] in Candidates(ss) && NoConflicts(ValidPatterns(ss)[k])
    ensures forall k, l :: 0 <= k < l < |ValidPatterns(ss)| ==> ValidPatterns(ss)[k] != ValidPatterns(ss)[l]
  {
    var v := ValidOnly(Candidates(ss));
    var r := ValidPatterns(ss);
    forall k | 0 <= k < |r| ensures r[k] in Candidates(ss) && NoConflicts(r[k]) {
      DedupSubset(SamePattern, v, r[k]);
      ValidOnlyIff(Candidates(ss), r[k]);
    }
    DedupNoRelatedPair(SamePattern, v);
  }

  /** Every candidate without overlapping members is returned. */
  lemma ValidPatternsComplete(ss: seq<SubString>, g: seq<SubString>)
    requires g in Candidates(ss) && NoConflicts(g)
    ensures g in ValidPatterns(ss)
  {
    ValidOnlyIff(Candidates(ss), g);
    DedupEqualityKeepsAll(SamePattern, ValidOnly(Candidates(ss)), g);
  }

  lemma ValidOnlyCandidates(ss: seq<SubString>)
    ensures ValidOnly(Candidates(ss)) == Singletons(ss) + ValidOnly(GroupsBelow(ss, |ss| + 1))
  {
    ValidOnlyAppend(Singletons(ss), GroupsBelow(ss, |ss| + 1));
    ValidOnlySingletons(ss);
  }

  /** Over distinct runs the result starts with one singleton pattern per run, in the runs' order. */
  lemma ValidPatternsStartWithSingletons(ss: seq<SubString>)
    requires Distinct(ss)
    ensures |ValidPatterns(ss)| >= |ss| && ValidPatterns(ss)[..|ss|] == Singletons(ss)
  {
    var a := Singletons(ss);
    ValidOnlyCandidates(ss);
    forall k, l | 0 <= k < |a| && 0 <= l < |a| && k != l ensures !SamePattern(a[k], a[l]) {
      assert a[k][0] == ss[k] && a[l][0] == ss[l];
      if k < l { assert ss[k] != ss[l]; } else { assert ss[l] != ss[k]; }
    }
    DedupKeepsPrefix(SamePattern, a, ValidOnly(GroupsBelow(ss, |ss| + 1)));
  }

  /** Every group returned by the superseded engine is a candidate without overlapping members; no later group has the members of an earlier one. */
  lemma ValidGroupsSound(ss: seq<SubString>)
    ensures forall k :: 0 <= k < |ValidGroups(ss)| ==>
      ValidGroups(ss)[k] in Candidates(ss) && NoConflicts(ValidGroups(ss)[k])
    ensures forall k, l :: 0 <= k < l < |ValidGroups(ss)| ==> !SameMembers(ValidGroups(ss)[k], ValidGroups(ss)[l])
  {
    var v := ValidOnly(Candidates(ss));
    var r := ValidGroups(ss);
    forall k | 0 <= k < |r| ensures r[k] in Candidates(ss) && NoConflicts(r[k]) {
      DedupSubset(SameMembers, v, r[k]);
      ValidOnlyIff(Candidates(ss), r[k]);
    }
    DedupNoRelatedPair(SameMembers, v);
  }

  /** Over distinct runs the superseded engine's result also starts with the singletons. */
  lemma ValidGroupsStartWithSingletons(ss: seq<SubString>)
    requires Distinct(ss)
    ensures |ValidGroups(ss)| >= |ss| && ValidGroups(ss)[..|ss|] == Singletons(ss)
  {
    var a := Singletons(ss);
    ValidOnlyCandidates(ss);
    forall k, l | 0 <= k < |a| && 0 <= l < |a| && k != l ensures !SameMembers(a[k], a[l]) {
      assert a[k] == [ss[k]] && a[l] == [ss[l]];
      assert ss[l] in a[l];
      if k < l { assert ss[k] != ss[l]; } else { assert ss[l] != ss[k]; }
    }
    DedupKeepsPrefix(SameMembers, a, ValidOnly(GroupsBelow(ss, |ss| + 1)));
  }

  /** Over distinct runs, run `a` lies in a window group only as its anchor or inside its window. */
  lemma WindowIndex(ss: seq<SubString>, i: int, j: int, n: int, a: int)
    requires Distinct(ss) && 0 <= i < j && 2 <= n && j + n - 1 <= |ss| && 0 <= a < |ss|
    requires ss[a] in [ss[i]] + ss[j..j + n - 1]
    ensures a == i || j <= a < j + n - 1
  {
    if ss[a] != ss[i] {
      var t :| 0 <= t < n - 1 && ss[j..j + n - 1][t] == ss[a];
      assert ss[j + t] == ss[a];
    }
  }

  /** Over distinct runs, a window group that holds every member of another of the same size is that group. */
  lemma SameWindows(ss: seq<SubString>, x: seq<SubString>, g: seq<SubString>, i: int, j: int, i': int, j': int, n: int)
    requires Distinct(ss) && IsWindowGroup(ss, x, i, j, n) && IsWindowGroup(ss, g, i', j', n)
    requires forall m :: m in g ==> m in x
    ensures x == g
  {
    assert g[0] == ss[i'] && g[1] == ss[j'] && g[n - 1] == ss[j' + n - 2];
    WindowIndex(ss, i, j, n, i');
    WindowIndex(ss, i, j, n, j');
    WindowIndex(ss, i, j, n, j' + n - 2);
  }

  /**
   * Over distinct runs, the superseded engine's duplicate test between two
   * candidates is equality: candidates list their runs in increasing order.
   */
  lemma SameMembersCandidates(ss: seq<SubString>, x: seq<SubString>, g: seq<SubString>)
    requires Distinct(ss) && x in Candidates(ss) && g in Candidates(ss)
    requires SameMembers(x, g)
    ensures x == g
  {
    CandidateShape(ss, x);
    CandidateShape(ss, g);
    if |g| == 1 {
      assert g[0] in g;
    } else {
      var i, j, n :| IsWindowGroup(ss, x, i, j, n);
      var i', j', n' :| IsWindowGroup(ss, g, i', j', n');
      SameWindows(ss, x, g, i, j, i', j', n);
    }
  }

  /**
   * Over distinct runs the superseded engine returns every candidate without
   * overlapping members: no other candidate has its size and members.
   */
  lemma ValidGroupsComplete(ss: seq<SubString>, g: seq<SubString>)
    requires Distinct(ss) && g in Candidates(ss) && NoConflicts(g)
    ensures g in ValidGroups(ss)
  {
    var v := ValidOnly(Candidates(ss));
    ValidOnlyIff(Candidates(ss), g);
    DedupCovers(SameMembers, v, g);
    if g !in ValidGroups(ss) {
      var x :| x in ValidGroups(ss) && SameMembers(x, g);
      DedupSubset(SameMembers, v, x);
      ValidOnlyIff(Candidates(ss), x);
      SameMembersCandidates(ss, x, g);
    }
  }

  /** The two duplicate tests differ on reordered members: only the superseded one drops [b, a] after [a, b]. */
  lemma DuplicateTestsDiffer(a: SubString, b: SubString)
    requires a != b
    ensures Dedup(SamePattern, [[a, b], [b, a]]) == [[a, b], [b, a]]
    ensures Dedup(SameMembers, [[a, b], [b, a]]) == [[a, b]]
  {
    var s := [[a, b], [b, a]];
    assert s[1..] == [[b, a]];
    assert [a, b] != [b, a] by { assert [a, b][0] != [b, a][0]; }
    assert !SamePattern([a, b], [b, a]);
    assert RemoveRelated(SamePattern, [a, b], [[b, a]]) == [[b, a]] by {
      assert [[b, a]][1..] == [];
    }
    assert Dedup(SamePattern, [[b, a]]) == [[b, a]] by {
      assert [[b, a]][1..] == [];
    }
    assert SameMembers([a, b], [b, a]);
    assert RemoveRelated(SameMembers, [a, b], [[b, a]]) == [] by {
      assert [[b, a]][1..] == [];
    }
  }

  /** Over distinct runs every pattern returned lists distinct runs of the input. */
  lemma ValidPatternMembers(ss: seq<SubString>, p: seq<SubString>)
    requires Distinct(ss) && p in ValidPatterns(ss)
    ensures Distinct(p) && NoConflicts(p) && forall x :: x in p ==> x in ss
  {
    ValidPatternsSound(ss);
    var k :| 0 <= k < |ValidPatterns(ss)| && ValidPatterns(ss)[k] == p;
    CandidateMembers(ss, p);
  }

  /** Over distinct runs every group the superseded engine returns lists distinct runs of the input. */
  lemma ValidGroupMembers(ss: seq<SubString>, p: seq<SubString>)
    requires Distinct(ss) && p in ValidGroups(ss)
    ensures Distinct(p) && NoConflicts(p) && forall x :: x in p ==> x in ss
  {
    ValidGroupsSound(ss);
    var k :| 0 <= k < |ValidGroups(ss)| && ValidGroups(ss)[k] == p;
    CandidateMembers(ss, p);
  }

  // ---------------------------------------------------------------- members, without distinctness

  predicate DrawnFrom(g: seq<SubString>, ss: seq<SubString>)
  {
    forall x :: x in g ==> x in ss
  }

  lemma {:induction false} FillDrawnFrom(ss: seq<SubString>, i: nat, j: nat, n: nat, k: nat)
    requires i < |ss| && j + k <= |ss|
    ensures DrawnFrom(Fill(ss, i, j, n, k), ss)
  {
    if k > 0 {
      FillDrawnFrom(ss, i, j, n, k - 1);
    }
  }

  lemma {:induction false} AnchorGroupsDrawnFrom(ss: seq<SubString>, n: nat, i: nat, j: nat)
    requires i < |ss| && i + 1 <= j <= |ss|
    ensures forall g :: g in AnchorGroups(ss, n, i, j) ==> DrawnFrom(g, ss)
    decreases j
  {
    if j > i + 1 {
      AnchorGroupsDrawnFrom(ss, n, i, j - 1);
      FillDrawnFrom(ss, i, j - 1, n, Min(n, |ss| - (j - 1)));
    }
  }

  lemma {:induction false} SizeGroupsDrawnFrom(ss: seq<SubString>, n: nat, i: nat)
    requires i <= |ss|
    ensures forall g :: g in SizeGroups(ss, n, i) ==> DrawnFrom(g, ss)
  {
    if i > 0 {
      SizeGroupsDrawnFrom(ss, n, i - 1);
      AnchorGroupsDrawnFrom(ss, n, i - 1, |ss|);
    }
  }

  lemma {:induction false} GroupsBelowDrawnFrom(ss: seq<SubString>, n: nat)
    ensures forall g :: g in GroupsBelow(ss, n) ==> DrawnFrom(g, ss)
  {
    if n > 2 {
      GroupsBelowDrawnFrom(ss, n - 1);
      SizeGroupsDrawnFrom(ss, n - 1, |ss|);
    }
  }

  /** Every group the superseded engine returns is made of the runs it was given, whatever they are. */
  lemma ValidGroupsDrawnFrom(ss: seq<SubString>, p: seq<SubString>)
    requires p in ValidGroups(ss)
    ensures DrawnFrom(p, ss)
  {
    DedupSubset(SameMembers, ValidOnly(Candidates(ss)), p);
    ValidOnlyIff(Candidates(ss), p);
    GroupsBelowDrawnFrom(ss, |ss| + 1);
    if p !in GroupsBelow(ss, |ss| + 1) {
      var k :| 0 <= k < |ss| && Singletons(ss)[k] == p;
    }
  }

  /** `findAllValidPatterns`: the candidates, the overlap filter, then in-place removal of later equal patterns. */
  method FindAllValidPatterns(subStrings: seq<SubString>) returns (validPatterns: seq<seq<SubString>>)
    ensures validPatterns == ValidPatterns(subStrings)
  {
    var patterns := BuildCandidates(subStrings);
    var filtered := ValidOnly(patterns);
    validPatterns := RemoveDuplicates(SamePattern, filtered);
  }

  /** `groupPossibleEncodedString`: the same candidates and filter, then removal of later groups with the same members. */
  method GroupPossibleEncodedString(subStrings: seq<SubString>) returns (validPatterns: seq<seq<SubString>>)
    ensures validPatterns == ValidGroups(subStrings)
  {
    var patterns := BuildCandidates(subStrings);
    var filtered := ValidOnly(patterns);
    validPatterns := RemoveDuplicates(SameMembers, filtered);
  }
}

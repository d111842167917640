/**
 * A word with dashes inserted between its characters, described by how
 * many dashes sit in each gap: gap 0 is before the first character, gap g
 * before character g, gap |w| after the last one. The formatters only ever
 * produce such texts, so their results are stated in this form.
 */
module DashLayout {
  import opened JavaLang

  predicate DashFree(w: string)
  {
    forall i :: 0 <= i < |w| ==> w[i] != '-'
  }

  /** `n` dashes. */
  function Dashes(n: nat): (r: string)
    ensures |r| == n
    ensures forall i :: 0 <= i < n ==> r[i] == '-'
  {
    if n == 0 then [] else "-" + Dashes(n - 1)
  }

  /** The word `w` with `D[g]` dashes in gap `g`. */
  function Dashed(w: string, D: seq<nat>): (r: string)
    requires |D| == |w| + 1
    ensures |r| >= |w|
  {
    if w == [] then Dashes(D[0]) else Dashes(D[0]) + [w[0]] + Dashed(w[1..], D[1..])
  }

  predicate AllZero(D: seq<nat>)
  {
    forall k :: 0 <= k < |D| ==> D[k] == 0
  }

  function Zeros(n: nat): (r: seq<nat>)
    ensures |r| == n && AllZero(r)
  {
    seq(n, k => 0)
  }

  /** Each gap count capped at one: what collapsing "--" leaves of at most two dashes. */
  function AtMostOne(D: seq<nat>): (r: seq<nat>)
    ensures |r| == |D|
    ensures forall k :: 0 <= k < |D| ==> r[k] == (if D[k] == 0 then 0 else 1)
  {
    seq(|D|, k requires 0 <= k < |D| => if D[k] == 0 then 0 else 1)
  }

  /** With no dashes anywhere the text is the word itself. */
  lemma {:induction false} DashedZeros(w: string, D: seq<nat>)
    requires |D| == |w| + 1 && AllZero(D)
    ensures Dashed(w, D) == w
  {
    if w != [] {
      DashedZeros(w[1..], D[1..]);
      assert [w[0]] + w[1..] == w;
    }
  }

  /** Where the first `i` gaps are empty, the text starts with the first `i` characters unchanged. */
  lemma {:induction false} DashedSplit(w: string, D: seq<nat>, i: nat)
    requires |D| == |w| + 1 && i <= |w|
    requires forall k :: 0 <= k < i ==> D[k] == 0
    ensures Dashed(w, D) == w[..i] + Dashed(w[i..], D[i..])
  {
    if i > 0 {
      DashedSplit(w[1..], D[1..], i - 1);
      DashedSplitStep(w, D, i);
    } else {
      assert w[..0] == [] && w[0..] == w && D[0..] == D;
    }
  }

  lemma DashedSplitStep(w: string, D: seq<nat>, i: nat)
    requires |D| == |w| + 1 && 0 < i <= |w| && D[0] == 0
    requires Dashed(w[1..], D[1..]) == w[1..][..i - 1] + Dashed(w[1..][i - 1..], D[1..][i - 1..])
    ensures Dashed(w, D) == w[..i] + Dashed(w[i..], D[i..])
  {
    var r := Dashed(w[i..], D[i..]);
    TailSlices(w, D, i);
    DashedHead(w, D);
    ConsAppend(w[0], w[1..i], r);
  }

  /** Where the first dash sits alone in gap `i`, the text is the first `i` characters, that dash, then the rest. */
  lemma DashedFirstDash(w: string, D: seq<nat>, i: nat)
    requires |D| == |w| + 1 && i < |w| && D[i] == 1
    requires forall k :: 0 <= k < i ==> D[k] == 0
    ensures Dashed(w, D) == w[..i] + "-" + [w[i]] + Dashed(w[i + 1..], D[i + 1..])
  {
    DashedSplit(w, D, i);
    assert Dashes(1) == "-";
    assert w[i..][1..] == w[i + 1..] && D[i..][1..] == D[i + 1..];
  }

  /** With no dash in front, the text starts with the first character. */
  lemma DashedHead(w: string, D: seq<nat>)
    requires |D| == |w| + 1 && w != [] && D[0] == 0
    ensures Dashed(w, D) == [w[0]] + Dashed(w[1..], D[1..])
  {
    assert Dashes(D[0]) == [];
  }

  lemma TailSlices(w: string, D: seq<nat>, i: nat)
    requires |D| == |w| + 1 && 0 < i <= |w|
    ensures w[1..][..i - 1] == w[1..i] && w[1..][i - 1..] == w[i..]
    ensures D[1..][i - 1..] == D[i..]
    ensures [w[0]] + w[1..i] == w[..i]
  {
  }

  lemma ConsAppend(c: char, u: string, r: string)
    ensures [c] + (u + r) == ([c] + u) + r
  {
  }

  /** One more dash in the first gap puts one more dash in front. */
  lemma BumpFirstGap(w: string, D: seq<nat>)
    requires |D| == |w| + 1
    ensures Dashed(w, D[0 := D[0] + 1]) == "-" + Dashed(w, D)
  {
    var E := D[0 := D[0] + 1];
    assert E[1..] == D[1..];
  }

  /** Inserting a dash at position `i` of a text whose first `i` gaps are empty bumps gap `i`. */
  lemma InsertAtGap(w: string, D: seq<nat>, i: nat)
    requires |D| == |w| + 1 && i <= |w|
    requires forall k :: 0 <= k < i ==> D[k] == 0
    ensures var t := Dashed(w, D);
      i <= |t| && t[..i] + "-" + t[i..] == Dashed(w, D[i := D[i] + 1])
  {
    var t := Dashed(w, D);
    var E := D[i := D[i] + 1];
    var rest := Dashed(w[i..], D[i..]);
    DashedSplit(w, D, i);
    DashedSplit(w, E, i);
    BumpAtGap(w, D, E, i, rest);
    InsertBetween(w[..i], rest, t);
  }

  /** Gap `i` bumped: the part from gap `i` on gains one dash in front. */
  lemma BumpAtGap(w: string, D: seq<nat>, E: seq<nat>, i: nat, rest: string)
    requires |D| == |w| + 1 && i <= |w|
    requires E == D[i := D[i] + 1] && rest == Dashed(w[i..], D[i..])
    ensures Dashed(w[i..], E[i..]) == "-" + rest
  {
    assert E[i..] == D[i..][0 := D[i] + 1];
    BumpFirstGap(w[i..], D[i..]);
  }

  lemma InsertBetween(u: string, rest: string, t: string)
    requires t == u + rest
    ensures |u| <= |t| && t[..|u|] + "-" + t[|u|..] == u + ("-" + rest)
  {
    assert t[..|u|] == u && t[|u|..] == rest;
  }

  /** Deleting the dashes of a dashed word gives the word's own non-dash characters back. */
  lemma {:induction false} RemoveDashesDashed(w: string, D: seq<nat>)
    requires |D| == |w| + 1
    ensures RemoveDashes(Dashed(w, D)) == RemoveDashes(w)
  {
    RemoveDashesOfDashes(D[0]);
    if w != [] {
      RemoveDashesDashed(w[1..], D[1..]);
      RemoveDashesAppend(Dashes(D[0]) + [w[0]], Dashed(w[1..], D[1..]));
      RemoveDashesAppend(Dashes(D[0]), [w[0]]);
      RemoveDashesAppend([w[0]], w[1..]);
      assert [w[0]] + w[1..] == w;
    }
  }

  lemma {:induction false} RemoveDashesOfDashes(n: nat)
    ensures RemoveDashes(Dashes(n)) == []
  {
    if n > 0 {
      RemoveDashesOfDashes(n - 1);
      RemoveDashesAppend("-", Dashes(n - 1));
    }
  }

  /** A dash-free word has nothing to delete. */
  lemma {:induction false} RemoveDashesDashFree(w: string)
    requires DashFree(w)
    ensures RemoveDashes(w) == w
  {
    if w != [] {
      RemoveDashesDashFree(w[1..]);
      assert [w[0]] + w[1..] == w;
    }
  }

  /** Collapsing "--" in front of a non-dash character leaves one dash of two. */
  lemma CollapseHead(d: nat, c: char, rest: string)
    requires d <= 2 && c != '-'
    ensures CollapseDoubleDash(Dashes(d) + [c] + rest) == Dashes(if d == 0 then 0 else 1) + [c] + CollapseDoubleDash(rest)
  {
    var s := Dashes(d) + [c] + rest;
    if d == 0 {
      assert s == [c] + rest && s[1..] == rest;
    } else if d == 1 {
      assert s[1..] == [c] + rest && ([c] + rest)[1..] == rest;
    } else {
      assert Dashes(2) == "--";
      assert s[2..] == [c] + rest && ([c] + rest)[1..] == rest;
    }
  }

  /** With at most two dashes per gap, collapsing "--" leaves exactly one dash in every non-empty gap. */
  lemma {:induction false} CollapseDashed(w: string, D: seq<nat>)
    requires |D| == |w| + 1 && DashFree(w)
    requires forall k :: 0 <= k < |D| ==> D[k] <= 2
    ensures CollapseDoubleDash(Dashed(w, D)) == Dashed(w, AtMostOne(D))
  {
    if w == [] {
      if D[0] == 2 { assert Dashes(2) == "--"; }
    } else {
      CollapseDashed(w[1..], D[1..]);
      CollapseHead(D[0], w[0], Dashed(w[1..], D[1..]));
      assert AtMostOne(D)[1..] == AtMostOne(D[1..]);
    }
  }

  /** With at most one dash per gap around dash-free characters, no "--" appears. */
  lemma {:induction false} NoDoubleDashDashed(w: string, D: seq<nat>)
    requires |D| == |w| + 1 && DashFree(w)
    requires forall k :: 0 <= k < |D| ==> D[k] <= 1
    ensures NoDoubleDash(Dashed(w, D))
  {
    if w != [] {
      NoDoubleDashDashed(w[1..], D[1..]);
      var rest := Dashed(w[1..], D[1..]);
      var t := Dashes(D[0]) + [w[0]] + rest;
      forall i | 0 <= i < |t| - 1 ensures !(t[i] == '-' && t[i + 1] == '-') {
        if i >= D[0] + 1 {
          assert t[i] == rest[i - D[0] - 1] && t[i + 1] == rest[i - D[0]];
        } else if i == D[0] {
          assert t[i] == w[0];
        } else {
          assert t[i + 1] == w[0];
        }
      }
    }
  }
}

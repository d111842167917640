/**
 * The search for dictionary keys inside a phone number, shared by both
 * dictionaries (`findAllPossibleSubStrings` in the current engine,
 * `findAllPossibleWords` in the superseded one): every slice of the number,
 * shortest lengths first and left to right within a length, that is a key
 * of the buckets.
 */
module SubStringSearch {
  import opened JavaLang
  import opened SubStrings
  import opened Lexicon

  /** The run of length `len` at `i`, as the search creates it: end is inclusive, so `len` 0 gives end `i - 1`. */
  function RunAt(number: string, i: nat, len: nat): (r: SubString)
    requires i + len <= |number|
    ensures r.originalString == number && r.start == i && |r.value| == len
  {
    SubString(number, number[i..i + len], i, i + len - 1)
  }

  /** `r` is a slice of `number` with matching value, start and end. */
  predicate IsRun(number: string, r: SubString)
  {
    0 <= r.start && r.start + |r.value| <= |number| && r == RunAt(number, r.start, |r.value|)
  }

  /** The search order: shorter runs first, then smaller starts. */
  predicate Before(a: SubString, b: SubString)
  {
    |a.value| < |b.value| || (|a.value| == |b.value| && a.start < b.start)
  }

  // ---------------------------------------------------------------- one length

  /** The key runs of length `len` that start below `n`. */
  function OfLengthBelow(b: Buckets, number: string, len: nat, n: nat): seq<SubString>
    requires n + len <= |number| + 1
  {
    if n == 0 then []
    else
      OfLengthBelow(b, number, len, n - 1)
      + (if number[n - 1..n - 1 + len] in b then [RunAt(number, n - 1, len)] else [])
  }

  /** `findAllPossibleSubStringsWithSpecificLength`: every start from 0 to |number| - len. */
  function OfLength(b: Buckets, number: string, len: nat): seq<SubString>
  {
    if len > |number| then [] else OfLengthBelow(b, number, len, |number| - len + 1)
  }

  method FindOfLength(b: Buckets, number: string, wordLength: nat) returns (result: seq<SubString>)
    ensures result == OfLength(b, number, wordLength)
  {
    result := [];
    var i := 0;
    while i <= |number| - wordLength
      invariant 0 <= i
      invariant wordLength <= |number| ==> i <= |number| - wordLength + 1 && result == OfLengthBelow(b, number, wordLength, i)
      invariant wordLength > |number| ==> i == 0 && result == []
    {
      var subStr := number[i..i + wordLength];
      var start := i;
      var end := i + wordLength - 1;
      if subStr in b {
        result := result + [SubString(number, subStr, start, end)];
      }
      i := i + 1;
    }
  }

  /** Every member of `r` is a slice of `number` that is a key of the buckets. */
  predicate KeyRuns(b: Buckets, number: string, r: seq<SubString>)
  {
    forall k :: 0 <= k < |r| ==> IsRun(number, r[k]) && r[k].value in b
  }

  /** `r` lists shorter runs first and, within a length, smaller starts first. */
  predicate InSearchOrder(r: seq<SubString>)
  {
    forall k, l :: 0 <= k < l < |r| ==> Before(r[k], r[l])
  }

  predicate LengthsBetween(r: seq<SubString>, lo: int, hi: int)
  {
    forall k :: 0 <= k < |r| ==> lo <= |r[k].value| < hi
  }

  /** Every run of one length is a key slice of the number. */
  lemma {:induction false} OfLengthBelowKeyRuns(b: Buckets, number: string, len: nat, n: nat)
    requires n + len <= |number| + 1
    ensures KeyRuns(b, number, OfLengthBelow(b, number, len, n))
  {
    if n > 0 {
      OfLengthBelowKeyRuns(b, number, len, n - 1);
    }
  }

  /** Every run of one length has that length. */
  lemma {:induction false} OfLengthBelowLengths(b: Buckets, number: string, len: nat, n: nat)
    requires n + len <= |number| + 1
    ensures LengthsBetween(OfLengthBelow(b, number, len, n), len, len + 1)
  {
    if n > 0 {
      OfLengthBelowLengths(b, number, len, n - 1);
    }
  }

  /** The runs of one length have increasing starts, all below `n`. */
  lemma {:induction false} OfLengthBelowOrder(b: Buckets, number: string, len: nat, n: nat)
    requires n + len <= |number| + 1
    ensures InSearchOrder(OfLengthBelow(b, number, len, n))
    ensures forall k :: 0 <= k < |OfLengthBelow(b, number, len, n)| ==> OfLengthBelow(b, number, len, n)[k].start < n
  {
    if n > 0 {
      OfLengthBelowOrder(b, number, len, n - 1);
      OfLengthBelowLengths(b, number, len, n - 1);
    }
  }

  /** Every key slice of length `len` starting below `n` is found. */
  lemma {:induction false} OfLengthBelowComplete(b: Buckets, number: string, len: nat, n: nat, i: nat)
    requires n + len <= |number| + 1
    requires i < n && number[i..i + len] in b
    ensures RunAt(number, i, len) in OfLengthBelow(b, number, len, n)
  {
    if i < n - 1 {
      OfLengthBelowComplete(b, number, len, n - 1, i);
    }
  }

  /** A length no key has contributes no runs. */
  lemma {:induction false} NoKeyOfLength(b: Buckets, number: string, len: nat, n: nat)
    requires n + len <= |number| + 1
    requires forall k :: k in b ==> |k| != len
    ensures OfLengthBelow(b, number, len, n) == []
  {
    if n > 0 {
      NoKeyOfLength(b, number, len, n - 1);
      assert |number[n - 1..n - 1 + len]| == len;
    }
  }

  // ---------------------------------------------------------------- all lengths

  /** The key runs of every length from `shortest` up to `last - 1`, length by length. */
  function AllBelow(b: Buckets, number: string, shortest: nat, last: nat): seq<SubString>
  {
    if last <= shortest then [] else AllBelow(b, number, shortest, last - 1) + OfLength(b, number, last - 1)
  }

  /** `findAllPossibleSubStrings`: nothing when the number is shorter than the shortest word, else lengths `shortest..|number|`. */
  function AllRuns(b: Buckets, number: string, shortest: nat): seq<SubString>
  {
    if |number| < shortest then [] else AllBelow(b, number, shortest, |number| + 1)
  }

  /** The lengths from `m` up to `last - 1`, which no key has, add nothing to the runs found below `m`. */
  lemma {:induction false} AllBelowSkips(b: Buckets, number: string, shortest: nat, m: nat, last: nat)
    requires shortest <= m <= last
    requires forall k :: k in b ==> !(m <= |k| < last)
    ensures AllBelow(b, number, shortest, last) == AllBelow(b, number, shortest, m)
  {
    if last > m {
      AllBelowSkips(b, number, shortest, m, last - 1);
      if last - 1 <= |number| {
        NoKeyOfLength(b, number, last - 1, |number| - (last - 1) + 1);
      }
    }
  }

  method FindAll(b: Buckets, number: string, shortestWordLength: nat) returns (result: seq<SubString>)
    ensures result == AllRuns(b, number, shortestWordLength)
  {
    result := [];
    if |number| < shortestWordLength {
      return;
    }
    var i := shortestWordLength;
    while i <= |number|
      invariant shortestWordLength <= i <= |number| + 1
      invariant result == AllBelow(b, number, shortestWordLength, i)
    {
      var subStrings := FindOfLength(b, number, i);
      result := result + subStrings;
      i := i + 1;
    }
  }

  lemma {:induction false} AllBelowKeyRuns(b: Buckets, number: string, shortest: nat, last: nat)
    ensures KeyRuns(b, number, AllBelow(b, number, shortest, last))
  {
    if last > shortest {
      var len: nat := last - 1;
      AllBelowKeyRuns(b, number, shortest, len);
      if len <= |number| {
        OfLengthBelowKeyRuns(b, number, len, |number| - len + 1);
      }
      KeyRunsAppend(b, number, AllBelow(b, number, shortest, len), OfLength(b, number, len));
    }
  }

  lemma {:induction false} AllBelowLengths(b: Buckets, number: string, shortest: nat, last: nat)
    ensures LengthsBetween(AllBelow(b, number, shortest, last), shortest, last)
  {
    if last > shortest {
      var len: nat := last - 1;
      AllBelowLengths(b, number, shortest, len);
      if len <= |number| {
        OfLengthBelowLengths(b, number, len, |number| - len + 1);
      }
      LengthsAppend(AllBelow(b, number, shortest, len), OfLength(b, number, len), shortest, len);
    }
  }

  lemma {:induction false} AllBelowOrder(b: Buckets, number: string, shortest: nat, last: nat)
    ensures InSearchOrder(AllBelow(b, number, shortest, last))
  {
    if last > shortest {
      var len: nat := last - 1;
      AllBelowOrder(b, number, shortest, len);
      OrderStep(b, number, shortest, len, AllBelow(b, number, shortest, len), OfLength(b, number, len));
    }
  }

  /** Appending the runs of length `len` keeps the search order. */
  lemma OrderStep(b: Buckets, number: string, shortest: nat, len: nat, p: seq<SubString>, q: seq<SubString>)
    requires p == AllBelow(b, number, shortest, len) && q == OfLength(b, number, len)
    requires InSearchOrder(p)
    ensures InSearchOrder(p + q)
  {
    AllBelowLengths(b, number, shortest, len);
    if len <= |number| {
      OfLengthBelowOrder(b, number, len, |number| - len + 1);
      OfLengthBelowLengths(b, number, len, |number| - len + 1);
    }
    OrderAppend(p, q, shortest, len);
  }

  lemma KeyRunsAppend(b: Buckets, number: string, p: seq<SubString>, q: seq<SubString>)
    requires KeyRuns(b, number, p) && KeyRuns(b, number, q)
    ensures KeyRuns(b, number, p + q)
  {
    var r := p + q;
    forall k | 0 <= k < |r| ensures IsRun(number, r[k]) && r[k].value in b {
      if k < |p| { assert r[k] == p[k]; } else { assert r[k] == q[k - |p|]; }
    }
  }

  lemma LengthsAppend(p: seq<SubString>, q: seq<SubString>, shortest: nat, len: nat)
    requires shortest <= len
    requires LengthsBetween(p, shortest, len) && LengthsBetween(q, len, len + 1)
    ensures LengthsBetween(p + q, shortest, len + 1)
  {
    var r := p + q;
    forall k | 0 <= k < |r| ensures shortest <= |r[k].value| < len + 1 {
      if k < |p| { assert r[k] == p[k]; } else { assert r[k] == q[k - |p|]; }
    }
  }

  /** Runs shorter than `len` in search order, then runs of length `len` in search order, are in search order. */
  lemma OrderAppend(p: seq<SubString>, q: seq<SubString>, shortest: nat, len: nat)
    requires InSearchOrder(p) && InSearchOrder(q)
    requires LengthsBetween(p, shortest, len) && LengthsBetween(q, len, len + 1)
    ensures InSearchOrder(p + q)
  {
    var r := p + q;
    forall k, l | 0 <= k < l < |r| ensures Before(r[k], r[l]) {
      if l < |p| {
        assert r[k] == p[k] && r[l] == p[l];
      } else if k >= |p| {
        assert r[k] == q[k - |p|] && r[l] == q[l - |p|];
      } else {
        assert r[k] == p[k] && r[l] == q[l - |p|];
      }
    }
  }

  /**
   * Every run found is a key slice of the number no shorter than `shortest`;
   * runs come shorter first and left to right, so none is found twice; and
   * nothing is found in a number shorter than the shortest word.
   */
  lemma AllRunsSound(b: Buckets, number: string, shortest: nat)
    ensures KeyRuns(b, number, AllRuns(b, number, shortest))
    ensures LengthsBetween(AllRuns(b, number, shortest), shortest, |number| + 1)
    ensures InSearchOrder(AllRuns(b, number, shortest))
    ensures |number| < shortest ==> AllRuns(b, number, shortest) == []
  {
    AllBelowKeyRuns(b, number, shortest, |number| + 1);
    AllBelowLengths(b, number, shortest, |number| + 1);
    AllBelowOrder(b, number, shortest, |number| + 1);
  }

  /** No run is found twice. */
  lemma AllRunsDistinct(b: Buckets, number: string, shortest: nat)
    ensures forall k, l :: 0 <= k < l < |AllRuns(b, number, shortest)| ==>
      AllRuns(b, number, shortest)[k] != AllRuns(b, number, shortest)[l]
  {
    AllRunsSound(b, number, shortest);
  }

  lemma {:induction false} AllBelowComplete(b: Buckets, number: string, shortest: nat, last: nat, i: nat, len: nat)
    requires shortest <= len < last && i + len <= |number| && number[i..i + len] in b
    ensures RunAt(number, i, len) in AllBelow(b, number, shortest, last)
  {
    if len < last - 1 {
      AllBelowComplete(b, number, shortest, last - 1, i, len);
    } else {
      OfLengthBelowComplete(b, number, len, |number| - len + 1, i);
    }
  }

  /** Every slice of the number of length at least `shortest` that is a key is found. */
  lemma AllRunsComplete(b: Buckets, number: string, shortest: nat, i: nat, len: nat)
    requires shortest <= len && i + len <= |number| && number[i..i + len] in b
    ensures RunAt(number, i, len) in AllRuns(b, number, shortest)
  {
    AllBelowComplete(b, number, shortest, |number| + 1, i, len);
  }
}

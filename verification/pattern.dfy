/**
 * A pattern: the list of dictionary runs that one candidate phoneword will
 * replace by words. The engine's algorithms work on the member list as a
 * value (`seq<SubString>`); the `Pattern` class models the object with its
 * nullable list that `add` and `addAll` grow in place.
 */
module Patterns {
  import opened Wrappers
  import opened JavaLang
  import opened SubStrings

  // ---------------------------------------------------------------- validity

  /** No two members that are not equal overlap. */
  predicate NoConflicts(p: seq<SubString>)
  {
    forall i, j :: 0 <= i < |p| && 0 <= j < |p| && p[i] != p[j] ==> !ConflictWith(p[i], p[j])
  }

  /** The inner stream: does `s` conflict with some member of `others` that is not equal to it. */
  function ConflictsWithOthers(s: SubString, others: seq<SubString>): bool
  {
    if others == [] then false
    else
      var last := others[|others| - 1];
      ConflictsWithOthers(s, others[..|others| - 1]) || (!Equals(s, last) && ConflictWith(s, last))
  }

  /** The outer stream: does some member of `ms` conflict with a different member of `p`. */
  function AnyConflict(ms: seq<SubString>, p: seq<SubString>): bool
  {
    if ms == [] then false
    else AnyConflict(ms[..|ms| - 1], p) || ConflictsWithOthers(ms[|ms| - 1], p)
  }

  /** `isValid`: the or-reduction over all pairs finds no conflict. */
  function IsValid(p: seq<SubString>): bool
  {
    !AnyConflict(p, p)
  }

  lemma {:induction false} ConflictsWithOthersIff(s: SubString, others: seq<SubString>)
    ensures ConflictsWithOthers(s, others) <==>
      exists j :: 0 <= j < |others| && others[j] != s && ConflictWith(s, others[j])
  {
    if others != [] {
      var init := others[..|others| - 1];
      ConflictsWithOthersIff(s, init);
      if ConflictsWithOthers(s, init) {
        var j :| 0 <= j < |init| && init[j] != s && ConflictWith(s, init[j]);
        assert others[j] == init[j];
      }
      if exists j :: 0 <= j < |others| && others[j] != s && ConflictWith(s, others[j]) {
        var j :| 0 <= j < |others| && others[j] != s && ConflictWith(s, others[j]);
        if j < |init| { assert init[j] == others[j]; }
      }
    }
  }

  lemma {:induction false} AnyConflictIff(ms: seq<SubString>, p: seq<SubString>)
    ensures AnyConflict(ms, p) <==>
      exists i, j :: 0 <= i < |ms| && 0 <= j < |p| && p[j] != ms[i] && ConflictWith(ms[i], p[j])
  {
    if ms != [] {
      var init := ms[..|ms| - 1];
      var s := ms[|ms| - 1];
      AnyConflictIff(init, p);
      ConflictsWithOthersIff(s, p);
      if AnyConflict(init, p) {
        var i, j :| 0 <= i < |init| && 0 <= j < |p| && p[j] != init[i] && ConflictWith(init[i], p[j]);
        assert ms[i] == init[i];
      } else if ConflictsWithOthers(s, p) {
        var j :| 0 <= j < |p| && p[j] != s && ConflictWith(s, p[j]);
        assert ms[|ms| - 1] == s;
      }
      if exists i, j :: 0 <= i < |ms| && 0 <= j < |p| && p[j] != ms[i] && ConflictWith(ms[i], p[j]) {
        var i, j :| 0 <= i < |ms| && 0 <= j < |p| && p[j] != ms[i] && ConflictWith(ms[i], p[j]);
        if i < |init| { assert init[i] == ms[i]; }
      }
    }
  }

  /** `isValid` holds exactly when no two distinct members overlap. */
  lemma IsValidIff(p: seq<SubString>)
    ensures IsValid(p) <==> NoConflicts(p)
  {
    AnyConflictIff(p, p);
    if !NoConflicts(p) {
      var i, j :| 0 <= i < |p| && 0 <= j < |p| && p[i] != p[j] && ConflictWith(p[i], p[j]);
      assert p[j] != p[i];
    }
  }

  /** Removing members keeps a valid pattern valid. */
  lemma NoConflictsSubset(p: seq<SubString>, q: seq<SubString>)
    requires NoConflicts(p)
    requires forall x :: x in q ==> x in p
    ensures NoConflicts(q)
  {
    forall i, j | 0 <= i < |q| && 0 <= j < |q| && q[i] != q[j] ensures !ConflictWith(q[i], q[j]) {
      assert q[i] in p && q[j] in p;
      var a :| 0 <= a < |p| && p[a] == q[i];
      var b :| 0 <= b < |p| && p[b] == q[j];
    }
  }

  /** {(0,2),(1,3)} overlaps, so it is invalid. */
  lemma IsValidExample()
    ensures !IsValid([SubString("1234", "123", 0, 2), SubString("1234", "234", 1, 3)])
  {
    var p := [SubString("1234", "123", 0, 2), SubString("1234", "234", 1, 3)];
    IsValidIff(p);
    assert p[0] != p[1] && ConflictWith(p[0], p[1]);
  }

  // ---------------------------------------------------------------- hashing

  /** `List.hashCode()`: `h = 31 * h + hash(e)` from 1, in 32-bit arithmetic. */
  function ListHash(p: seq<SubString>): (r: int)
    ensures IsJavaInt(r)
  {
    if p == [] then 1 else Wrap32(31 * ListHash(p[..|p| - 1]) + HashCode(p[|p| - 1]))
  }

  /** The members of a possibly null list, null read as empty. */
  function MembersOrEmpty(l: Option<seq<SubString>>): seq<SubString>
  {
    if l.Some? then l.value else []
  }

  // ---------------------------------------------------------------- the object

  class Pattern {
    var originalPhoneNumber: Option<string>
    /** The member list; None models a null list. */
    var subStrings: Option<seq<SubString>>

    /** The no-argument constructor leaves both fields null. */
    constructor Empty()
      ensures originalPhoneNumber == None && subStrings == None
    {
      originalPhoneNumber := None;
      subStrings := None;
    }

    constructor (originalPhoneNumber: string, subStrings: seq<SubString>)
      ensures this.originalPhoneNumber == Some(originalPhoneNumber)
      ensures this.subStrings == Some(subStrings)
    {
      this.originalPhoneNumber := Some(originalPhoneNumber);
      this.subStrings := Some(subStrings);
    }

    /** Appends one member, creating the list first if it is null. */
    method Add(s: SubString)
      modifies this
      ensures subStrings == Some(MembersOrEmpty(old(subStrings)) + [s])
      ensures originalPhoneNumber == old(originalPhoneNumber)
    {
      if subStrings == None {
        subStrings := Some([]);
      }
      subStrings := Some(subStrings.value + [s]);
    }

    /**
     * Appends the other pattern's members in order, creating this list first
     * if it is null. The other list is read after that, so it may be null
     * only when `other` is this very pattern (whose list is then the new
     * empty one); any other null list would throw. When `other` is this
     * pattern its members are appended to themselves.
     */
    method AddAll(other: Pattern)
      requires other.subStrings.Some? || other == this
      modifies this
      ensures subStrings == Some(MembersOrEmpty(old(subStrings)) + MembersOrEmpty(old(other.subStrings)))
      ensures originalPhoneNumber == old(originalPhoneNumber)
      ensures other != this ==> other.subStrings == old(other.subStrings)
    {
      if subStrings == None {
        subStrings := Some([]);
      }
      var added := other.subStrings.value;
      subStrings := Some(subStrings.value + added);
    }

    /** `isValid` of this pattern; a null list would throw. */
    function Valid(): (r: bool)
      reads this
      requires subStrings.Some?
      ensures r <==> NoConflicts(subStrings.value)
    {
      IsValidIff(subStrings.value);
      IsValid(subStrings.value)
    }

    function HashCode(): (r: int)
      reads this
      ensures IsJavaInt(r)
      ensures subStrings.None? ==> r == 31
    {
      Wrap32(31 * 1 + (if subStrings.Some? then ListHash(subStrings.value) else 0))
    }

    /**
     * `equals`; None models the NullPointerException thrown when both lists
     * are null and the patterns are distinct objects.
     */
    function Equals(other: Pattern?): (r: Option<bool>)
      reads this, other
    {
      if other == this then Some(true)
      else if other == null then Some(false)
      else if subStrings.None? then
        (if other.subStrings.Some? then Some(false) else None)
      else if other.subStrings.None? || subStrings.value != other.subStrings.value then Some(false)
      else if |subStrings.value| != |other.subStrings.value| then Some(false)
      else Some(forall x :: x in other.subStrings.value ==> x in subStrings.value)
    }

    /**
     * `equals` throws only when both lists are null on distinct objects, and
     * otherwise holds exactly for the same object or equal ordered lists: the
     * size and containsAll checks never change the answer.
     */
    lemma EqualsIff(other: Pattern?)
      ensures Equals(other).None? <==> other != null && other != this && subStrings.None? && other.subStrings.None?
      ensures Equals(other).Some? ==>
        (Equals(other).value <==> other == this || (other != null && subStrings.Some? && subStrings == other.subStrings))
    {
    }

    /** Patterns that are `equals` have equal hash codes. */
    lemma HashAgreesWithEquals(other: Pattern)
      requires Equals(other) == Some(true)
      ensures HashCode() == other.HashCode()
    {
    }
  }
}

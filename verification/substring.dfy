/**
 * A run of the phone number that matches a dictionary key: the digits
 * `value`, found in `originalString` between `start` and `end`, both
 * inclusive.
 */
module SubStrings {
  import opened JavaLang

  /** The source's setters are bare field writes, so a SubString is a value. */
  datatype SubString = SubString(originalString: string, value: string, start: int, end: int)

  /** Two runs conflict when their closed intervals [start, end] overlap. */
  predicate ConflictWith(a: SubString, b: SubString)
  {
    a.start <= b.end && a.end >= b.start
  }

  /** Position `k` of the number lies inside the run. */
  predicate Covers(s: SubString, k: int)
  {
    s.start <= k <= s.end
  }

  /** For non-empty runs, conflict means sharing at least one position of the number. */
  lemma ConflictIffSharedPosition(a: SubString, b: SubString)
    requires a.start <= a.end && b.start <= b.end
    ensures ConflictWith(a, b) <==> exists k :: Covers(a, k) && Covers(b, k)
  {
    if ConflictWith(a, b) {
      var k := if a.start < b.start then b.start else a.start;
      assert Covers(a, k) && Covers(b, k);
    }
  }

  /** The conflict relation is symmetric. */
  lemma ConflictSymmetric(a: SubString, b: SubString)
    ensures ConflictWith(a, b) == ConflictWith(b, a)
  {
  }

  /** A non-empty run conflicts with itself; callers therefore skip equal pairs. */
  lemma SelfConflict(s: SubString)
    requires s.start <= s.end
    ensures ConflictWith(s, s)
  {
  }

  /** (0,1)/(2,3) are disjoint; (0,3)/(1,2) and (0,1)/(1,2) overlap. */
  lemma ConflictExamples()
    ensures !ConflictWith(SubString("1234", "12", 0, 1), SubString("1234", "34", 2, 3))
    ensures ConflictWith(SubString("1234", "1234", 0, 3), SubString("1234", "23", 1, 2))
    ensures ConflictWith(SubString("123", "12", 0, 1), SubString("123", "23", 1, 2))
  {
  }

  /** Field-by-field comparison of `end`, `originalString`, `start` and `value`. */
  function Equals(a: SubString, b: SubString): (r: bool)
    ensures r <==> a == b
  {
    a.end == b.end && a.originalString == b.originalString && a.start == b.start && a.value == b.value
  }

  /** The 31-based field hash, in 32-bit arithmetic. */
  function HashCode(s: SubString): (r: int)
    ensures IsJavaInt(r)
  {
    var h0 := Wrap32(31 * 1 + s.end);
    var h1 := Wrap32(31 * h0 + StringHash(s.originalString));
    var h2 := Wrap32(31 * h1 + s.start);
    Wrap32(31 * h2 + StringHash(s.value))
  }

  /** Equal substrings have equal hash codes. */
  lemma HashAgreesWithEquals(a: SubString, b: SubString)
    requires Equals(a, b)
    ensures HashCode(a) == HashCode(b)
  {
  }
}

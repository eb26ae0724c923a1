/**
 * The "consistent improvement" detector: three strictly rising consecutive
 * scores in date order.
 */
module Improvement {
  import opened GradeRecords

  /** The scores at i, i + 1 and i + 2 rise strictly. */
  predicate RisesAt(s: seq<Grade>, i: int)
    requires 0 <= i && i + 2 < |s|
  {
    s[i].grade < s[i + 1].grade && s[i + 1].grade < s[i + 2].grade
  }

  /** Some three consecutive grades of `s` rise strictly. */
  predicate HasRise(s: seq<Grade>)
  {
    exists i :: 0 <= i && i + 2 < |s| && RisesAt(s, i)
  }

  /**
   * `checkConsistentImprovement`: false for fewer than three grades;
   * otherwise scans the date-sorted copy for three rising scores in a row.
   */
  method CheckConsistentImprovement(gs: seq<Grade>) returns (r: bool)
    ensures |gs| < 3 ==> !r
    ensures r <==> HasRise(SortByDate(gs))
  {
    if |gs| < 3 {
      return false;
    }
    var sorted := SortByDate(gs);
    var i := 0;
    while i <= |sorted| - 3
      invariant 0 <= i <= |sorted| - 2
      invariant forall k :: 0 <= k < i ==> !RisesAt(sorted, k)
    {
      var first := sorted[i].grade;
      var second := sorted[i + 1].grade;
      var third := sorted[i + 2].grade;
      if second > first && third > second {
        assert RisesAt(sorted, i);
        return true;
      }
      i := i + 1;
    }
    return false;
  }

  /** Fewer than three grades never show an improvement. */
  lemma ShortListsNeverRise(gs: seq<Grade>)
    requires |gs| < 3
    ensures !HasRise(SortByDate(gs))
  {
  }

  /** Three grades on successive dates scoring 70, 80 and 90 show an improvement. */
  lemma RisingScenario(a: Grade, b: Grade, c: Grade)
    requires a.date < b.date < c.date
    requires a.grade == 70.0 && b.grade == 80.0 && c.grade == 90.0
    ensures HasRise(SortByDate([a, b, c]))
  {
    SortedTriple(a, b, c);
    assert RisesAt([a, b, c], 0);
  }

  /** Three grades already in date order are left as they are by the sort. */
  lemma SortedTriple(a: Grade, b: Grade, c: Grade)
    requires a.date <= b.date <= c.date
    ensures SortByDate([a, b, c]) == [a, b, c]
  {
    assert [a, b, c] == [a] + ([b] + [c]);
    SortByCons(a, [b] + [c], ByDate);
    SortByCons(b, [c], ByDate);
    SortByOne(c, ByDate);
    InsertInFront(b, [c], ByDate);
    InsertInFront(a, [b] + [c], ByDate);
  }

  /**
   * Date ties are broken by list order, so the newest-first re-sort of the
   * grade list decides the outcome: a stored 70 and a newer 80 on the same
   * date, then a 90, rise in append order but not once re-sorted.
   */
  lemma TieOrderScenario(a: Grade, b: Grade, c: Grade)
    requires a.date == b.date < c.date
    requires a.timestamp < b.timestamp == c.timestamp
    requires a.grade == 70.0 && b.grade == 80.0 && c.grade == 90.0
    ensures SortNewestFirst([a, b, c]) == [b, c, a]
    ensures HasRise(SortByDate([a, b, c]))
    ensures !HasRise(SortByDate([b, c, a]))
  {
    NewestTriple(a, b, c);
    SortedTriple(a, b, c);
    assert RisesAt([a, b, c], 0);
    TiedTriple(a, b, c);
    assert !RisesAt([b, a, c], 0);
  }

  lemma NewestTriple(a: Grade, b: Grade, c: Grade)
    requires a.timestamp < b.timestamp == c.timestamp
    ensures SortNewestFirst([a, b, c]) == [b, c, a]
  {
    assert [a, b, c] == [a] + ([b] + [c]);
    SortByCons(a, [b] + [c], NewestFirst);
    SortByCons(b, [c], NewestFirst);
    SortByOne(c, NewestFirst);
    InsertInFront(b, [c], NewestFirst);
    InsertPast(a, b, [c], NewestFirst);
    InsertPast(a, c, [], NewestFirst);
    InsertInFront(a, [], NewestFirst);
    assert [b] + ([c] + ([a] + [])) == [b, c, a];
  }

  lemma TiedTriple(a: Grade, b: Grade, c: Grade)
    requires a.date == b.date < c.date
    ensures SortByDate([b, c, a]) == [b, a, c]
  {
    assert [b, c, a] == [b] + ([c] + [a]);
    SortByCons(b, [c] + [a], ByDate);
    SortByCons(c, [a], ByDate);
    SortByOne(a, ByDate);
    InsertPast(c, a, [], ByDate);
    InsertInFront(c, [], ByDate);
    InsertInFront(b, [a] + ([c] + []), ByDate);
    assert [b] + ([a] + ([c] + [])) == [b, a, c];
  }
}

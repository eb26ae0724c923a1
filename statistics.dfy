/**
 * The statistics the grade book derives from its grade list: the overall
 * average, the subjects, the per-subject averages and the running average
 * of the trend chart.
 */
module Statistics {
  import opened GradeRecords

  /** `calculateAverage`: the mean score, 0 when there are no grades. */
  function CalculateAverage(gs: seq<Grade>): (r: real)
    ensures |gs| == 0 ==> r == 0.0
    ensures |gs| > 0 ==> r * (|gs| as real) == Sum(Values(gs))
  {
    Mean(Values(gs))
  }

  /** When every score lies in [lo, hi], so does the average of a non-empty list. */
  lemma AverageWithinBounds(gs: seq<Grade>, lo: real, hi: real)
    requires |gs| > 0
    requires forall i :: 0 <= i < |gs| ==> lo <= gs[i].grade <= hi
    ensures lo <= CalculateAverage(gs) <= hi
  {
    MeanWithinBounds(Values(gs), lo, hi);
  }

  /** The total of the grades does not depend on their order. */
  lemma {:induction false} GradeSumPermutation(a: seq<Grade>, b: seq<Grade>)
    requires multiset(a) == multiset(b)
    ensures Sum(Values(a)) == Sum(Values(b))
    decreases |a|
  {
    if a == [] {
      assert |b| == |multiset(b)| == 0;
    } else {
      var x := a[0];
      assert x in multiset(b);
      var j :| 0 <= j < |b| && b[j] == x;
      var rest := b[..j] + b[j + 1..];
      MultisetRemoveAt(b, j);
      assert a == [x] + a[1..];
      assert multiset(a[1..]) == multiset(a) - multiset{x};
      GradeSumPermutation(a[1..], rest);
      var vb := Values(b);
      ValuesRemoveAt(b, j);
      SumRemoveAt(vb, j);
      assert vb[j] == x.grade;
      assert Sum(vb) == x.grade + Sum(Values(rest));
      assert Values(a) == [x.grade] + Values(a[1..]);
      assert Sum(Values(a)) == x.grade + Sum(Values(a[1..]));
    }
  }

  lemma ValuesRemoveAt(b: seq<Grade>, j: nat)
    requires j < |b|
    ensures Values(b[..j] + b[j + 1..]) == Values(b)[..j] + Values(b)[j + 1..]
  {
    var rest := b[..j] + b[j + 1..];
    var vb := Values(b);
    var expected := vb[..j] + vb[j + 1..];
    assert |Values(rest)| == |expected|;
    forall i | 0 <= i < |rest|
      ensures Values(rest)[i] == expected[i]
    {
      if i < j {
        assert rest[i] == b[i];
      } else {
        assert rest[i] == b[i + 1];
      }
    }
  }

  /**
   * The average does not depend on the order of the grade list (the source
   * re-sorts it in place for display, and sorts copies by date).
   */
  lemma AverageIgnoresOrder(a: seq<Grade>, b: seq<Grade>)
    requires multiset(a) == multiset(b)
    ensures CalculateAverage(a) == CalculateAverage(b)
  {
    GradeSumPermutation(a, b);
    assert |a| == |multiset(a)| == |multiset(b)| == |b|;
  }

  /** The set of subjects occurring in a grade list. */
  function Subjects(gs: seq<Grade>): set<string>
  {
    set i | 0 <= i < |gs| :: gs[i].subject
  }

  ghost predicate NoDuplicates<T>(s: seq<T>)
  {
    forall i, j :: 0 <= i < j < |s| ==> s[i] != s[j]
  }

  /**
   * `getUniqueSubjects`: the subjects of the grades put through a set, each
   * subject once, in the order of its first occurrence.
   */
  function UniqueSubjects(gs: seq<Grade>): (r: seq<string>)
    ensures NoDuplicates(r)
    ensures forall s :: s in r <==> s in Subjects(gs)
  {
    if gs == [] then []
    else
      var prefix := gs[..|gs| - 1];
      var u := UniqueSubjects(prefix);
      var last := gs[|gs| - 1].subject;
      assert gs == prefix + [gs[|gs| - 1]];
      assert Subjects(gs) == Subjects(prefix) + {last};
      if last in u then u else u + [last]
  }

  /**
   * The scores of the grades of one subject, in list order: the list
   * `getSubjectAverages` collects under that subject's key.
   */
  function GradesOf(gs: seq<Grade>, subject: string): seq<real>
  {
    if gs == [] then []
    else
      GradesOf(gs[..|gs| - 1], subject)
        + (if gs[|gs| - 1].subject == subject then [gs[|gs| - 1].grade] else [])
  }

  /** A subject has scores exactly when it occurs in the list. */
  lemma {:induction false} GradesOfNonEmpty(gs: seq<Grade>, subject: string)
    ensures |GradesOf(gs, subject)| > 0 <==> subject in Subjects(gs)
  {
    if gs != [] {
      var prefix := gs[..|gs| - 1];
      GradesOfNonEmpty(prefix, subject);
      assert gs == prefix + [gs[|gs| - 1]];
      assert Subjects(gs) == Subjects(prefix) + {gs[|gs| - 1].subject};
    }
  }

  /** The average of one subject's scores. */
  function SubjectMean(gs: seq<Grade>, subject: string): real
  {
    Mean(GradesOf(gs, subject))
  }

  /**
   * `getSubjectAverages`: groups the scores by subject in one pass, then
   * averages each group.
   */
  method SubjectAverages(gs: seq<Grade>) returns (averages: map<string, real>)
    ensures averages.Keys == Subjects(gs)
    ensures forall s :: s in averages ==> averages[s] == SubjectMean(gs, s)
  {
    var groups: map<string, seq<real>> := map[];
    var i := 0;
    while i < |gs|
      invariant 0 <= i <= |gs|
      invariant groups.Keys == Subjects(gs[..i])
      invariant forall s :: s in groups ==> groups[s] == GradesOf(gs[..i], s)
    {
      var g := gs[i];
      assert gs[..i + 1] == gs[..i] + [g];
      assert gs[..i + 1][..i] == gs[..i];
      assert Subjects(gs[..i + 1]) == Subjects(gs[..i]) + {g.subject};
      if g.subject !in groups {
        GradesOfNonEmpty(gs[..i], g.subject);
        groups := groups[g.subject := []];
      }
      groups := groups[g.subject := groups[g.subject] + [g.grade]];
      i := i + 1;
    }
    assert gs[..i] == gs;
    averages := map[];
    var pending := groups.Keys;
    while pending != {}
      invariant pending <= groups.Keys
      invariant averages.Keys == groups.Keys - pending
      invariant forall s :: s in averages ==> averages[s] == Mean(groups[s])
      decreases pending
    {
      var s :| s in pending;
      averages := averages[s := Mean(groups[s])];
      pending := pending - {s};
    }
  }

  /** The scores of the subjects `subjects`, group after group. */
  function Regrouped(gs: seq<Grade>, subjects: seq<string>): seq<real>
  {
    if subjects == [] then []
    else Regrouped(gs, subjects[..|subjects| - 1]) + GradesOf(gs, subjects[|subjects| - 1])
  }

  function Occurrences(subjects: seq<string>, s: string): nat
  {
    if subjects == [] then 0
    else Occurrences(subjects[..|subjects| - 1], s) + (if subjects[|subjects| - 1] == s then 1 else 0)
  }

  lemma {:induction false} RegroupedAppendGrade(gs: seq<Grade>, g: Grade, subjects: seq<string>)
    ensures multiset(Regrouped(gs + [g], subjects))
         == multiset(Regrouped(gs, subjects)) + Copies(g.grade, Occurrences(subjects, g.subject))
  {
    if subjects != [] {
      var prefix := subjects[..|subjects| - 1];
      var last := subjects[|subjects| - 1];
      RegroupedAppendGrade(gs, g, prefix);
      var added := if last == g.subject then multiset{g.grade} else multiset{};
      assert multiset(GradesOf(gs + [g], last)) == multiset(GradesOf(gs, last)) + added by {
        GradesOfAppend(gs, g, last);
      }
      assert Copies(g.grade, Occurrences(subjects, g.subject))
          == Copies(g.grade, Occurrences(prefix, g.subject)) + added;
      Shuffle(multiset(Regrouped(gs, prefix)), Copies(g.grade, Occurrences(prefix, g.subject)),
              multiset(GradesOf(gs, last)), added);
    }
  }

  lemma Shuffle(a: multiset<real>, b: multiset<real>, c: multiset<real>, d: multiset<real>)
    ensures (a + b) + (c + d) == (a + c) + (b + d)
  {
  }

  lemma GradesOfAppend(gs: seq<Grade>, g: Grade, subject: string)
    ensures GradesOf(gs + [g], subject)
         == GradesOf(gs, subject) + (if g.subject == subject then [g.grade] else [])
  {
    assert (gs + [g])[..|gs|] == gs;
  }

  function Copies(x: real, n: nat): multiset<real>
  {
    if n == 0 then multiset{} else Copies(x, n - 1) + multiset{x}
  }

  lemma {:induction false} OccurrencesOfDistinct(subjects: seq<string>, s: string)
    requires NoDuplicates(subjects)
    ensures Occurrences(subjects, s) == if s in subjects then 1 else 0
  {
    if subjects != [] {
      var prefix := subjects[..|subjects| - 1];
      assert NoDuplicates(prefix);
      OccurrencesOfDistinct(prefix, s);
      assert subjects == prefix + [subjects[|subjects| - 1]];
    }
  }

  lemma {:induction false} RegroupedAbsent(gs: seq<Grade>, subjects: seq<string>, s: string)
    requires s !in Subjects(gs)
    ensures Regrouped(gs, subjects + [s]) == Regrouped(gs, subjects)
  {
    GradesOfNonEmpty(gs, s);
    assert (subjects + [s])[..|subjects|] == subjects;
  }

  /**
   * Grouping by subject partitions the grades: the groups of all subjects,
   * put together, hold exactly the scores of the list.
   */
  lemma {:induction false} SubjectGroupsPartition(gs: seq<Grade>)
    ensures multiset(Regrouped(gs, UniqueSubjects(gs))) == multiset(Values(gs))
  {
    if gs != [] {
      var prefix := gs[..|gs| - 1];
      var g := gs[|gs| - 1];
      var u := UniqueSubjects(prefix);
      var u' := if g.subject in u then u else u + [g.subject];
      assert gs == prefix + [g];
      assert UniqueSubjects(gs) == u';
      assert multiset(Values(gs)) == multiset(Values(prefix)) + multiset{g.grade} by {
        ValuesAppend(prefix, [g]);
      }
      SubjectGroupsPartition(prefix);
      assert multiset(Regrouped(prefix, u')) == multiset(Values(prefix)) by {
        if g.subject !in u {
          RegroupedAbsent(prefix, u, g.subject);
        }
      }
      assert Occurrences(u', g.subject) == 1 by {
        assert NoDuplicates(u');
        OccurrencesOfDistinct(u', g.subject);
      }
      assert Copies(g.grade, 1) == multiset{g.grade};
      RegroupedAppendGrade(prefix, g, u');
    }
  }

  /**
   * The running averages of the trend chart: the i-th is the mean of the
   * first i + 1 grades in date order.
   */
  method RunningAverages(gs: seq<Grade>) returns (averages: seq<real>)
    ensures |averages| == |gs|
    ensures forall i :: 0 <= i < |gs| ==> averages[i] == CalculateAverage(SortByDate(gs)[..i + 1])
    ensures |gs| > 0 ==> averages[|gs| - 1] == CalculateAverage(gs)
  {
    var sorted := SortByDate(gs);
    averages := [];
    var i := 0;
    while i < |sorted|
      invariant 0 <= i <= |sorted|
      invariant |averages| == i
      invariant forall k :: 0 <= k < i ==> averages[k] == CalculateAverage(sorted[..k + 1])
    {
      var upToIndex := sorted[..i + 1];
      averages := averages + [CalculateAverage(upToIndex)];
      i := i + 1;
    }
    if |gs| > 0 {
      assert sorted[..|gs|] == sorted;
      SortByPermutes(gs, ByDate);
      AverageIgnoresOrder(sorted, gs);
    }
  }

  /**
   * Consecutive running averages: the next one folds the next score into
   * the previous one, weighted by how many scores it already covers.
   */
  lemma RunningAverageStep(sorted: seq<Grade>, i: nat)
    requires i + 1 < |sorted|
    ensures CalculateAverage(sorted[..i + 2]) * ((i + 2) as real)
         == CalculateAverage(sorted[..i + 1]) * ((i + 1) as real) + sorted[i + 1].grade
  {
    assert sorted[..i + 2] == sorted[..i + 1] + [sorted[i + 1]];
    ValuesAppend(sorted[..i + 1], [sorted[i + 1]]);
    SumAppend(Values(sorted[..i + 1]), Values([sorted[i + 1]]));
  }
}

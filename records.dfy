/**
 * The grade record of the grade book and the date order the statistics and
 * the improvement badge read it in.
 */
module GradeRecords {

  /** Unique identifier of a grade (the source draws it from the clock plus a random fraction). */
  type GradeId = nat

  /**
   * The instant a record's date text denotes when parsed as a date; the sort
   * comparator subtracts two of these, so only their order matters.
   */
  type Day = int

  /** Milliseconds since the epoch. */
  type Millis = int

  datatype Grade = Grade(
    id: GradeId,
    subject: string,
    grade: real,
    date: Day,
    examType: string,
    timestamp: Millis)

  /** The scores of a list of grades, in list order. */
  function Values(gs: seq<Grade>): (r: seq<real>)
    ensures |r| == |gs|
    ensures forall i :: 0 <= i < |gs| ==> r[i] == gs[i].grade
  {
    if gs == [] then [] else [gs[0].grade] + Values(gs[1..])
  }

  lemma ValuesAppend(a: seq<Grade>, b: seq<Grade>)
    ensures Values(a + b) == Values(a) + Values(b)
  {
  }

  /** The total of a list of numbers, added from 0. */
  function Sum(xs: seq<real>): real
  {
    if xs == [] then 0.0 else xs[0] + Sum(xs[1..])
  }

  lemma {:induction false} SumAppend(a: seq<real>, b: seq<real>)
    ensures Sum(a + b) == Sum(a) + Sum(b)
  {
    if a == [] {
      assert a + b == b;
    } else {
      assert (a + b)[1..] == a[1..] + b;
      SumAppend(a[1..], b);
    }
  }

  lemma MultisetRemoveAt<T>(s: seq<T>, j: nat)
    requires j < |s|
    ensures multiset(s[..j] + s[j + 1..]) == multiset(s) - multiset{s[j]}
  {
    assert s == s[..j] + [s[j]] + s[j + 1..];
  }

  lemma SumRemoveAt(s: seq<real>, j: nat)
    requires j < |s|
    ensures Sum(s) == s[j] + Sum(s[..j] + s[j + 1..])
  {
    var before, after := s[..j], s[j + 1..];
    var tail := [s[j]] + after;
    assert s == before + tail;
    SumAppend(before, tail);
    SumAppend(before, after);
    assert tail[0] == s[j] && tail[1..] == after;
  }

  /**
   * The arithmetic mean, with 0 for the empty list (the sentinel the source
   * returns rather than dividing by zero).
   */
  function Mean(xs: seq<real>): (r: real)
    ensures |xs| == 0 ==> r == 0.0
    ensures |xs| > 0 ==> r * (|xs| as real) == Sum(xs)
  {
    if |xs| == 0 then 0.0 else Sum(xs) / (|xs| as real)
  }

  /** A mean lies between any lower and upper bound of its (non-empty) list. */
  lemma {:induction false} MeanWithinBounds(xs: seq<real>, lo: real, hi: real)
    requires |xs| > 0
    requires forall i :: 0 <= i < |xs| ==> lo <= xs[i] <= hi
    ensures lo <= Mean(xs) <= hi
  {
    SumWithinBounds(xs, lo, hi);
    var n := |xs| as real;
    assert Mean(xs) * n == Sum(xs);
  }

  lemma {:induction false} SumWithinBounds(xs: seq<real>, lo: real, hi: real)
    requires forall i :: 0 <= i < |xs| ==> lo <= xs[i] <= hi
    ensures lo * (|xs| as real) <= Sum(xs) <= hi * (|xs| as real)
  {
    if xs != [] {
      SumWithinBounds(xs[1..], lo, hi);
    }
  }

  /**
   * The two orders the source sorts grades in: by the instant the date text
   * denotes, and newest first by creation time.
   */
  datatype Order = ByDate | NewestFirst

  /** The number an order compares, smaller first. */
  function Key(g: Grade, order: Order): int
  {
    match order
    case ByDate => g.date
    case NewestFirst => -g.timestamp
  }

  /** `x` sorted into `t`: before the first element of `t` whose key is not smaller. */
  function Insert(x: Grade, t: seq<Grade>, order: Order): (r: seq<Grade>)
    ensures |r| == |t| + 1
  {
    if t == [] || Key(x, order) <= Key(t[0], order) then [x] + t
    else assert t == [t[0]] + t[1..]; [t[0]] + Insert(x, t[1..], order)
  }

  /**
   * A stable sort ascending by the key of `order`, as `Array.prototype.sort` performs it
   * with a comparator that subtracts the keys.
   */
  function SortBy(gs: seq<Grade>, order: Order): (r: seq<Grade>)
    ensures |r| == |gs|
  {
    if gs == [] then [] else Insert(gs[0], SortBy(gs[1..], order), order)
  }

  /** Inserting adds exactly the inserted grade. */
  lemma {:induction false} InsertPermutes(x: Grade, t: seq<Grade>, order: Order)
    ensures multiset(Insert(x, t, order)) == multiset(t) + multiset{x}
  {
    if t != [] && Key(x, order) > Key(t[0], order) {
      InsertPermutes(x, t[1..], order);
      assert t == [t[0]] + t[1..];
    }
  }

  /** Sorting only reorders: the result is a permutation of the input. */
  lemma {:induction false} SortByPermutes(gs: seq<Grade>, order: Order)
    ensures multiset(SortBy(gs, order)) == multiset(gs)
  {
    if gs != [] {
      SortByPermutes(gs[1..], order);
      InsertPermutes(gs[0], SortBy(gs[1..], order), order);
      assert gs == [gs[0]] + gs[1..];
    }
  }

  lemma SortByCons(x: Grade, t: seq<Grade>, order: Order)
    ensures SortBy([x] + t, order) == Insert(x, SortBy(t, order), order)
  {
    assert ([x] + t)[1..] == t;
  }

  lemma InsertInFront(x: Grade, t: seq<Grade>, order: Order)
    requires t == [] || Key(x, order) <= Key(t[0], order)
    ensures Insert(x, t, order) == [x] + t
  {
  }

  lemma SortByOne(x: Grade, order: Order)
    ensures SortBy([x], order) == [x]
  {
    assert [x][1..] == [];
  }

  lemma InsertPast(x: Grade, y: Grade, t: seq<Grade>, order: Order)
    requires Key(y, order) < Key(x, order)
    ensures Insert(x, [y] + t, order) == [y] + Insert(x, t, order)
  {
    assert ([y] + t)[1..] == t;
  }

  /** The date order the source sorts a copy of the grades into. */
  function SortByDate(gs: seq<Grade>): seq<Grade>
  {
    SortBy(gs, ByDate)
  }

  /** The order the recent-activity list sorts the grades into, in place: newest first. */
  function SortNewestFirst(gs: seq<Grade>): seq<Grade>
  {
    SortBy(gs, NewestFirst)
  }

  ghost predicate KeySorted(s: seq<Grade>, order: Order)
  {
    forall i, j :: 0 <= i < j < |s| ==> Key(s[i], order) <= Key(s[j], order)
  }

  /** The grades of `s` whose key is `k`, in the order of `s`. */
  function Tied(s: seq<Grade>, order: Order, k: int): seq<Grade>
  {
    if s == [] then [] else (if Key(s[0], order) == k then [s[0]] else []) + Tied(s[1..], order, k)
  }

  lemma {:induction false} InsertSorted(x: Grade, t: seq<Grade>, order: Order)
    requires KeySorted(t, order)
    ensures KeySorted(Insert(x, t, order), order)
  {
    if t == [] || Key(x, order) <= Key(t[0], order) {
    } else {
      InsertSorted(x, t[1..], order);
      var r := Insert(x, t[1..], order);
      InsertPermutes(x, t[1..], order);
      assert forall k :: 0 <= k < |r| ==> Key(t[0], order) <= Key(r[k], order) by {
        forall k | 0 <= k < |r| ensures Key(t[0], order) <= Key(r[k], order) {
          assert r[k] in multiset(r);
          assert r[k] in multiset(t[1..]) + multiset{x};
          if r[k] in multiset(t[1..]) {
            var m :| 0 <= m < |t[1..]| && t[1..][m] == r[k];
            assert t[m + 1] == r[k];
          }
        }
      }
    }
  }

  lemma {:induction false} InsertTied(x: Grade, t: seq<Grade>, order: Order, k: int)
    ensures Tied(Insert(x, t, order), order, k) == (if Key(x, order) == k then [x] + Tied(t, order, k) else Tied(t, order, k))
  {
    if t == [] || Key(x, order) <= Key(t[0], order) {
      TiedCons(x, t, order, k);
    } else {
      var tail := Insert(x, t[1..], order);
      InsertTied(x, t[1..], order, k);
      TiedCons(t[0], tail, order, k);
      TiedCons(t[0], t[1..], order, k);
      assert t == [t[0]] + t[1..];
    }
  }

  lemma TiedCons(x: Grade, t: seq<Grade>, order: Order, k: int)
    ensures Tied([x] + t, order, k) == (if Key(x, order) == k then [x] else []) + Tied(t, order, k)
  {
    assert ([x] + t)[1..] == t;
  }

  /** Sorting orders by the key. */
  lemma {:induction false} SortBySorted(gs: seq<Grade>, order: Order)
    ensures KeySorted(SortBy(gs, order), order)
  {
    if gs != [] {
      SortBySorted(gs[1..], order);
      InsertSorted(gs[0], SortBy(gs[1..], order), order);
    }
  }

  /** Sorting is stable: grades sharing a key keep their relative order. */
  lemma {:induction false} SortByStable(gs: seq<Grade>, order: Order, k: int)
    ensures Tied(SortBy(gs, order), order, k) == Tied(gs, order, k)
  {
    if gs != [] {
      SortByStable(gs[1..], order, k);
      InsertTied(gs[0], SortBy(gs[1..], order), order, k);
      TiedCons(gs[0], gs[1..], order, k);
      assert gs == [gs[0]] + gs[1..];
    }
  }

  /** The date sort orders by date, ascending. */
  lemma SortByDateSorted(gs: seq<Grade>)
    ensures var r := SortByDate(gs);
      forall i, j :: 0 <= i < j < |r| ==> r[i].date <= r[j].date
  {
    SortBySorted(gs, ByDate);
  }

  /** The date sort is stable: the grades carrying date `d` keep their order. */
  lemma SortByDateStable(gs: seq<Grade>, d: Day)
    ensures Tied(SortByDate(gs), ByDate, d) == Tied(gs, ByDate, d)
  {
    SortByStable(gs, ByDate, d);
  }

  /** The recent-activity sort orders by timestamp, newest first. */
  lemma SortNewestFirstSorted(gs: seq<Grade>)
    ensures var r := SortNewestFirst(gs);
      forall i, j :: 0 <= i < j < |r| ==> r[i].timestamp >= r[j].timestamp
  {
    SortBySorted(gs, NewestFirst);
  }

  /** The recent-activity sort is stable: grades created at the same instant keep their order. */
  lemma SortNewestFirstStable(gs: seq<Grade>, t: Millis)
    ensures Tied(SortNewestFirst(gs), NewestFirst, -t) == Tied(gs, NewestFirst, -t)
  {
    SortByStable(gs, NewestFirst, -t);
  }
}

/**
 * The target calculator: the average still needed on the remaining exams
 * to reach a target overall average, and how the result is presented.
 */
module TargetProjection {
  import opened GradeRecords
  import opened Statistics

  /**
   * A JavaScript number as a division of finite operands can produce it:
   * dividing by zero gives an infinity of the numerator's sign, or NaN for 0 / 0.
   */
  datatype Quotient = Finite(value: real) | PositiveInfinity | NegativeInfinity | NotANumber

  function Divide(numerator: real, denominator: int): (q: Quotient)
    ensures q.Finite? <==> denominator != 0
    ensures q.Finite? ==> q.value * (denominator as real) == numerator
    ensures q == PositiveInfinity <==> denominator == 0 && numerator > 0.0
    ensures q == NegativeInfinity <==> denominator == 0 && numerator < 0.0
  {
    if denominator != 0 then Finite(numerator / (denominator as real))
    else if numerator > 0.0 then PositiveInfinity
    else if numerator < 0.0 then NegativeInfinity
    else NotANumber
  }

  /**
   * The average the remaining exams need: the points the target calls for over
   * all exams, less the points already scored, shared over the remaining ones.
   */
  function RequiredGrade(target: real, remaining: int, average: real, count: nat): Quotient
  {
    Divide(target * ((count + remaining) as real) - average * (count as real), remaining)
  }

  /** The class of the result box: `success`, `warning` or `error`. */
  datatype Tone = Success | Warning | Error

  /** The four messages the calculator can show, with the figures they quote. */
  datatype TargetResult =
    | NoGrades                          // there are no grades to project from
    | Reachable(needed: real)           // the average the remaining exams need
    | NotAchievable(required: Quotient) // the target cannot be reached
    | AlreadyExceeded(average: real)    // the current average already suffices

  function ToneOf(r: TargetResult): Tone
  {
    match r
    case NoGrades => Error
    case Reachable(needed) => if needed <= 90.0 then Success else Warning
    case NotAchievable(_) => Error
    case AlreadyExceeded(_) => Success
  }

  /** `handleTargetCalculation` on the current grades, the target and the remaining-exam count. */
  function TargetCalculation(gs: seq<Grade>, target: real, remaining: int): (r: TargetResult)
    ensures r == NoGrades <==> |gs| == 0
    ensures r.Reachable? ==> 0.0 <= r.needed <= 100.0
    ensures r.Reachable? ==> Finite(r.needed) == RequiredGrade(target, remaining, CalculateAverage(gs), |gs|)
    ensures r.NotAchievable? ==> r.required == RequiredGrade(target, remaining, CalculateAverage(gs), |gs|)
    ensures r.NotAchievable? ==> r.required == PositiveInfinity || (r.required.Finite? && r.required.value > 100.0)
    ensures r.AlreadyExceeded? ==> r.average == CalculateAverage(gs)
  {
    if |gs| == 0 then NoGrades
    else
      var average := CalculateAverage(gs);
      var q := RequiredGrade(target, remaining, average, |gs|);
      if q.Finite? && q.value <= 100.0 && q.value >= 0.0 then Reachable(q.value)
      else if q == PositiveInfinity || (q.Finite? && q.value > 100.0) then NotAchievable(q)
      else AlreadyExceeded(average)
  }

  /**
   * How a finite requirement is classified: reachable comfortably up to 90,
   * reachable but tight up to 100, not achievable above, already exceeded below 0.
   */
  lemma Classification(gs: seq<Grade>, target: real, remaining: int)
    requires |gs| > 0 && remaining != 0
    ensures var q := RequiredGrade(target, remaining, CalculateAverage(gs), |gs|);
      var r := TargetCalculation(gs, target, remaining);
      q.Finite?
      && (ToneOf(r) == Success && r.Reachable? <==> 0.0 <= q.value <= 90.0)
      && (ToneOf(r) == Warning <==> 90.0 < q.value <= 100.0)
      && (ToneOf(r) == Error <==> q.value > 100.0)
      && (r.AlreadyExceeded? <==> q.value < 0.0)
  {
  }

  /**
   * With no remaining exams the division is by zero: a positive shortfall
   * reads as not achievable, anything else as already exceeded.
   */
  lemma NoRemainingExams(gs: seq<Grade>, target: real)
    requires |gs| > 0
    ensures var shortfall := target * (|gs| as real) - CalculateAverage(gs) * (|gs| as real);
      TargetCalculation(gs, target, 0) ==
        if shortfall > 0.0 then NotAchievable(PositiveInfinity) else AlreadyExceeded(CalculateAverage(gs))
  {
  }

  lemma {:induction false} SumOfConstant(fs: seq<Grade>, x: real)
    requires forall i :: 0 <= i < |fs| ==> fs[i].grade == x
    ensures Sum(Values(fs)) == x * (|fs| as real)
  {
    if fs != [] {
      SumOfConstant(fs[1..], x);
      assert Values(fs) == [x] + Values(fs[1..]);
    }
  }

  /**
   * The required grade means what it says: scoring exactly it on each of the
   * remaining exams brings the overall average to the target.
   */
  lemma RequiredGradeReachesTarget(gs: seq<Grade>, future: seq<Grade>, target: real)
    requires |gs| > 0 && |future| > 0
    requires var q := RequiredGrade(target, |future|, CalculateAverage(gs), |gs|);
      forall i :: 0 <= i < |future| ==> future[i].grade == q.value
    ensures CalculateAverage(gs + future) == target
  {
    var n, r := |gs| as real, |future| as real;
    var average := CalculateAverage(gs);
    var q := RequiredGrade(target, |future|, average, |gs|).value;
    assert q * r == target * (n + r) - average * n;
    var total := Sum(Values(gs + future));
    assert total == average * n + q * r by {
      ValuesAppend(gs, future);
      SumAppend(Values(gs), Values(future));
      SumOfConstant(future, q);
    }
    assert |gs + future| as real == n + r;
    assert CalculateAverage(gs + future) * (n + r) == target * (n + r);
    Cancel(CalculateAverage(gs + future), target, n + r);
  }

  lemma Cancel(a: real, b: real, c: real)
    requires c != 0.0 && a * c == b * c
    ensures a == b
  {
    assert (a - b) * c == 0.0;
  }

  /**
   * The worked example: three grades averaging 70, a target of 85 over two
   * more exams needs 107.5, which is not achievable.
   */
  lemma NotAchievableScenario(gs: seq<Grade>)
    requires |gs| == 3 && CalculateAverage(gs) == 70.0
    ensures TargetCalculation(gs, 85.0, 2) == NotAchievable(Finite(107.5))
  {
  }
}

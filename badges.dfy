/**
 * The badge engine: the fixed catalogue of six achievements, the merge of
 * that catalogue into the stored badge list at start-up, the six unlock
 * conditions, and the one-way locked-to-earned transition.
 */
module Badges {
  import opened Wrappers
  import opened GradeRecords
  import opened Statistics
  import opened Improvement

  /** ISO-8601 text of the instant a badge was earned (as JavaScript's ISO string conversion renders it). */
  type Timestamp = string

  /** The six unlock conditions, one per catalogue entry. */
  datatype Condition =
    | FirstA                 // some score is 90 or more
    | ConsistentImprovement  // three rising scores in a row, in date order
    | PerfectScore           // some score is exactly 100
    | SubjectMaster          // some subject averages 85 or more
    | ExamWarrior            // at least ten grades
    | HighAchiever          // at least five grades averaging 80 or more

  /** A catalogue entry: the descriptive part of a badge and its condition. */
  datatype Definition = Definition(
    id: string, name: string, description: string, icon: string, condition: Condition)

  /**
   * A badge as the grade book keeps it. `condition` is None for a badge read
   * back from storage whose condition has not been re-attached from the
   * catalogue (serialisation drops functions).
   */
  datatype Badge = Badge(
    id: string, name: string, description: string, icon: string,
    condition: Option<Condition>, earned: bool, earnedDate: Option<Timestamp>)

  const Catalogue: seq<Definition> := [
    Definition("first_a", "First A Grade",
      "Score your first A grade (90% or above)", "\U{1F3AF}", FirstA),
    Definition("consistent_improvement", "Consistent Improvement",
      "Show improvement over 3 consecutive exams", "\U{1F4C8}", ConsistentImprovement),
    Definition("perfect_score", "Perfect Score",
      "Achieve a perfect 100% score", "\U{1F4AF}", PerfectScore),
    Definition("subject_master", "Subject Master",
      "Maintain 85%+ average in any subject", "\U{1F451}", SubjectMaster),
    Definition("exam_warrior", "Exam Warrior",
      "Complete 10 or more exams", "\U{2694}\U{FE0F}", ExamWarrior),
    Definition("high_achiever", "High Achiever",
      "Maintain overall average above 80%", "\U{1F3C6}", HighAchiever)
  ]

  // ---------------------------------------------------------------------
  // Conditions
  // ---------------------------------------------------------------------

  /** Whether condition `c` holds of the grade list `gs`. */
  predicate Holds(c: Condition, gs: seq<Grade>)
  {
    match c
    case FirstA => exists i :: 0 <= i < |gs| && gs[i].grade >= 90.0
    case ConsistentImprovement => HasRise(SortByDate(gs))
    case PerfectScore => exists i :: 0 <= i < |gs| && gs[i].grade == 100.0
    case SubjectMaster => exists s :: s in Subjects(gs) && SubjectMean(gs, s) >= 85.0
    case ExamWarrior => |gs| >= 10
    case HighAchiever => |gs| >= 5 && CalculateAverage(gs) >= 80.0
  }

  /** Runs one badge's condition the way its closure does. */
  method EvaluateCondition(c: Condition, gs: seq<Grade>) returns (b: bool)
    ensures b == Holds(c, gs)
  {
    match c {
      case FirstA =>
        b := exists i :: 0 <= i < |gs| && gs[i].grade >= 90.0;
      case ConsistentImprovement =>
        b := CheckConsistentImprovement(gs);
      case PerfectScore =>
        b := exists i :: 0 <= i < |gs| && gs[i].grade == 100.0;
      case SubjectMaster =>
        b := SomeSubjectMastered(gs);
      case ExamWarrior =>
        b := |gs| >= 10;
      case HighAchiever =>
        b := |gs| >= 5 && CalculateAverage(gs) >= 80.0;
    }
  }

  /** Some subject average reaches 85, scanning the averages until one does. */
  method SomeSubjectMastered(gs: seq<Grade>) returns (b: bool)
    ensures b <==> exists s :: s in Subjects(gs) && SubjectMean(gs, s) >= 85.0
  {
    var averages := SubjectAverages(gs);
    b := false;
    var pending := averages.Keys;
    while pending != {} && !b
      invariant pending <= averages.Keys
      invariant b ==> exists s :: s in Subjects(gs) && SubjectMean(gs, s) >= 85.0
      invariant !b ==> forall s :: s in averages.Keys - pending ==> averages[s] < 85.0
      decreases pending
    {
      var s :| s in pending;
      b := averages[s] >= 85.0;
      pending := pending - {s};
    }
  }

  // ---------------------------------------------------------------------
  // Catalogue merge (start-up)
  // ---------------------------------------------------------------------

  /** A catalogue entry as a fresh, locked badge. */
  function Locked(d: Definition): Badge
  {
    Badge(d.id, d.name, d.description, d.icon, Some(d.condition), false, None)
  }

  /**
   * A stored badge refreshed from its catalogue entry: descriptive fields
   * and condition from the catalogue, progress from the stored badge.
   */
  function Refreshed(b: Badge, d: Definition): (r: Badge)
    ensures r.earned == b.earned && r.earnedDate == b.earnedDate
    ensures r.(earned := false, earnedDate := None) == Locked(d)
  {
    Badge(d.id, d.name, d.description, d.icon, Some(d.condition), b.earned, b.earnedDate)
  }

  predicate HasId(bs: seq<Badge>, id: string)
  {
    exists i :: 0 <= i < |bs| && bs[i].id == id
  }

  /** Position `i` holds the first badge of `bs` with its id. */
  predicate IsFirst(bs: seq<Badge>, i: int)
    requires 0 <= i < |bs|
  {
    forall j :: 0 <= j < i ==> bs[j].id != bs[i].id
  }

  ghost predicate DistinctIds(defs: seq<Definition>)
  {
    forall i, j :: 0 <= i < j < |defs| ==> defs[i].id != defs[j].id
  }

  /** The position of the first badge carrying `id`, if any. */
  function FindIndex(bs: seq<Badge>, id: string): (r: Option<nat>)
    ensures r.None? <==> !HasId(bs, id)
    ensures r.Some? ==> r.value < |bs| && bs[r.value].id == id && IsFirst(bs, r.value)
  {
    if bs == [] then None
    else if bs[0].id == id then Some(0)
    else
      match FindIndex(bs[1..], id)
      case None => None
      case Some(i) => Some(i + 1)
  }

  /** The catalogue entry with id `id` (the last one, should ids repeat). */
  function DefinitionFor(defs: seq<Definition>, id: string): (r: Option<Definition>)
    ensures r.None? <==> forall k :: 0 <= k < |defs| ==> defs[k].id != id
    ensures r.Some? ==> r.value in defs && r.value.id == id
  {
    if defs == [] then None
    else if defs[|defs| - 1].id == id then Some(defs[|defs| - 1])
    else DefinitionFor(defs[..|defs| - 1], id)
  }

  /** With distinct ids, each entry is the one found for its own id. */
  lemma {:induction false} DefinitionForDistinct(defs: seq<Definition>, k: nat)
    requires DistinctIds(defs) && k < |defs|
    ensures DefinitionFor(defs, defs[k].id) == Some(defs[k])
  {
    if k < |defs| - 1 {
      var prefix := defs[..|defs| - 1];
      assert DistinctIds(prefix);
      DefinitionForDistinct(prefix, k);
    }
  }

  /** The merged form of the stored badge at position `i`. */
  function MergedAt(stored: seq<Badge>, defs: seq<Definition>, i: nat): Badge
    requires i < |stored|
  {
    var d := DefinitionFor(defs, stored[i].id);
    if d.Some? && IsFirst(stored, i) then Refreshed(stored[i], d.value) else stored[i]
  }

  /** The catalogue entries no stored badge carries, as locked badges, in catalogue order. */
  function Missing(stored: seq<Badge>, defs: seq<Definition>): seq<Badge>
  {
    if defs == [] then []
    else
      var d := defs[|defs| - 1];
      Missing(stored, defs[..|defs| - 1]) + (if HasId(stored, d.id) then [] else [Locked(d)])
  }

  /** The stored list after merging in the entries `defs`, one after another. */
  function Merged(stored: seq<Badge>, defs: seq<Definition>): seq<Badge>
  {
    seq(|stored|, i requires 0 <= i < |stored| => MergedAt(stored, defs, i)) + Missing(stored, defs)
  }

  /** `initializeBadges` applied to the stored badge list. */
  function MergeCatalogue(stored: seq<Badge>): seq<Badge>
  {
    Merged(stored, Catalogue)
  }

  lemma CatalogueDistinct()
    ensures DistinctIds(Catalogue)
  {
  }

  /** What every appended badge is. */
  lemma {:induction false} MissingShape(stored: seq<Badge>, defs: seq<Definition>)
    requires DistinctIds(defs)
    ensures forall j :: 0 <= j < |Missing(stored, defs)| ==>
      var b := Missing(stored, defs)[j];
      DefinitionFor(defs, b.id).Some? && b == Locked(DefinitionFor(defs, b.id).value) && !HasId(stored, b.id)
    ensures forall j, k :: 0 <= j < k < |Missing(stored, defs)| ==>
      Missing(stored, defs)[j].id != Missing(stored, defs)[k].id
  {
    if defs != [] {
      var prefix := defs[..|defs| - 1];
      var d := defs[|defs| - 1];
      assert DistinctIds(prefix);
      MissingShape(stored, prefix);
      var m := Missing(stored, prefix);
      DefinitionForDistinct(defs, |defs| - 1);
      forall j | 0 <= j < |m|
        ensures DefinitionFor(defs, m[j].id) == DefinitionFor(prefix, m[j].id)
        ensures m[j].id != d.id
      {
        var e := DefinitionFor(prefix, m[j].id).value;
        var k :| 0 <= k < |prefix| && prefix[k] == e;
        assert defs[k] == e;
      }
    }
  }

  /** How the merged list is laid out: the stored positions, then the appended ones. */
  lemma MergedLayout(stored: seq<Badge>, defs: seq<Definition>)
    ensures var m := Merged(stored, defs);
      |m| == |stored| + |Missing(stored, defs)|
      && (forall i :: 0 <= i < |stored| ==> m[i] == MergedAt(stored, defs, i) && m[i].id == stored[i].id)
      && (forall j :: 0 <= j < |Missing(stored, defs)| ==> m[|stored| + j] == Missing(stored, defs)[j])
  {
  }

  lemma MergedTail(stored: seq<Badge>, defs: seq<Definition>)
    ensures |Merged(stored, defs)| >= |stored|
    ensures Merged(stored, defs)[|stored|..] == Missing(stored, defs)
  {
  }

  /** Adding an entry whose id is new changes only the stored badges carrying that id. */
  lemma MergedAtExtend(stored: seq<Badge>, defs: seq<Definition>, d: Definition, i: nat)
    requires i < |stored|
    requires forall k :: 0 <= k < |defs| ==> defs[k].id != d.id
    ensures stored[i].id != d.id ==> MergedAt(stored, defs + [d], i) == MergedAt(stored, defs, i)
    ensures stored[i].id == d.id ==> MergedAt(stored, defs, i) == stored[i]
    ensures stored[i].id == d.id ==>
      MergedAt(stored, defs + [d], i) == if IsFirst(stored, i) then Refreshed(stored[i], d) else stored[i]
  {
    var defs' := defs + [d];
    assert defs'[..|defs'| - 1] == defs;
  }

  lemma MissingExtend(stored: seq<Badge>, defs: seq<Definition>, d: Definition)
    ensures Missing(stored, defs + [d])
         == Missing(stored, defs) + (if HasId(stored, d.id) then [] else [Locked(d)])
  {
    var defs' := defs + [d];
    assert defs'[..|defs'| - 1] == defs;
  }

  /** What adding an entry with a new id does to each part of the merged list. */
  lemma MergeStepFacts(stored: seq<Badge>, defs: seq<Definition>, d: Definition)
    requires DistinctIds(defs + [d])
    ensures DistinctIds(defs)
    ensures forall j :: 0 <= j < |Missing(stored, defs)| ==> Missing(stored, defs)[j].id != d.id
    ensures forall i :: 0 <= i < |stored| ==>
      var m, n := Merged(stored, defs), Merged(stored, defs + [d]);
      (stored[i].id != d.id ==> n[i] == m[i]) && (stored[i].id == d.id ==> m[i] == stored[i]) &&
      (stored[i].id == d.id ==> n[i] == if IsFirst(stored, i) then Refreshed(stored[i], d) else stored[i])
  {
    var defs' := defs + [d];
    assert forall k :: 0 <= k < |defs| ==> defs[k] == defs'[k];
    assert defs'[|defs|] == d;
    assert forall k :: 0 <= k < |defs| ==> defs[k].id != d.id;
    MissingShape(stored, defs);
    MergedLayout(stored, defs);
    MergedLayout(stored, defs');
    forall i | 0 <= i < |stored| {
      MergedAtExtend(stored, defs, d, i);
    }
  }

  /** One step of the merge loop, as `find` then assign or push. */
  lemma MergeStep(stored: seq<Badge>, defs: seq<Definition>, d: Definition)
    requires DistinctIds(defs + [d])
    ensures var m := Merged(stored, defs);
      match FindIndex(m, d.id)
      case Some(i) => i < |stored| && Merged(stored, defs + [d]) == m[i := Refreshed(m[i], d)]
      case None => Merged(stored, defs + [d]) == m + [Locked(d)]
  {
    var m := Merged(stored, defs);
    MergeStepFacts(stored, defs, d);
    MergedLayout(stored, defs);
    MergedLayout(stored, defs + [d]);
    MissingExtend(stored, defs, d);
    match FindIndex(m, d.id)
    case Some(i) =>
      MergeStepFound(stored, defs, d, i);
    case None =>
  }

  lemma MergeStepFound(stored: seq<Badge>, defs: seq<Definition>, d: Definition, i: nat)
    requires DistinctIds(defs + [d])
    requires FindIndex(Merged(stored, defs), d.id) == Some(i)
    ensures i < |stored|
    ensures var m := Merged(stored, defs); Merged(stored, defs + [d]) == m[i := Refreshed(m[i], d)]
  {
    var m := Merged(stored, defs);
    var n := Merged(stored, defs + [d]);
    assert i < |stored| && IsFirst(stored, i) && stored[i].id == d.id && m[i] == stored[i] by {
      MergeStepFacts(stored, defs, d);
      MergedLayout(stored, defs);
    }
    assert n[|stored|..] == m[|stored|..] by {
      assert HasId(stored, d.id) by {
        assert stored[i].id == d.id;
      }
      MissingExtend(stored, defs, d);
      MergedTail(stored, defs);
      MergedTail(stored, defs + [d]);
    }
    assert |n| == |m|;
    assert n[i] == Refreshed(m[i], d) by {
      MergeStepFacts(stored, defs, d);
    }
    forall k | 0 <= k < |stored| && k != i ensures n[k] == m[k] {
      MergeStepFacts(stored, defs, d);
      if stored[k].id == d.id {
        assert !IsFirst(stored, k) by {
          assert stored[i].id == stored[k].id;
        }
      }
    }
  }

  /** With an empty store the merge yields the catalogue, every badge locked. */
  lemma MergeEmptyStore()
    ensures MergeCatalogue([]) == seq(|Catalogue|, i requires 0 <= i < |Catalogue| => Locked(Catalogue[i]))
  {
    CatalogueDistinct();
    MissingAllLocked(Catalogue);
  }

  lemma {:induction false} MissingAllLocked(defs: seq<Definition>)
    ensures Missing([], defs) == seq(|defs|, i requires 0 <= i < |defs| => Locked(defs[i]))
  {
    if defs != [] {
      MissingAllLocked(defs[..|defs| - 1]);
    }
  }

  /**
   * The merge keeps every stored badge in place with its progress, refreshes
   * the first badge of each catalogue id, leaves the rest untouched, and
   * appends exactly the catalogue entries that were absent, locked.
   */
  lemma MergeKeepsStored(stored: seq<Badge>)
    ensures var m := MergeCatalogue(stored);
      |m| >= |stored| &&
      (forall i :: 0 <= i < |stored| ==>
         m[i].id == stored[i].id && m[i].earned == stored[i].earned
         && m[i].earnedDate == stored[i].earnedDate) &&
      (forall i :: 0 <= i < |stored| && DefinitionFor(Catalogue, stored[i].id).None? ==> m[i] == stored[i]) &&
      (forall i :: 0 <= i < |stored| && !IsFirst(stored, i) ==> m[i] == stored[i]) &&
      (forall i :: 0 <= i < |stored| && IsFirst(stored, i) && DefinitionFor(Catalogue, stored[i].id).Some? ==>
         m[i] == Refreshed(stored[i], DefinitionFor(Catalogue, stored[i].id).value))
  {
  }

  /** The badges appended by the merge are the absent catalogue entries, locked. */
  lemma MergeAppendsMissing(stored: seq<Badge>)
    ensures var m := MergeCatalogue(stored);
      forall j :: |stored| <= j < |m| ==>
        !m[j].earned && m[j].earnedDate == None && !HasId(stored, m[j].id)
        && DefinitionFor(Catalogue, m[j].id).Some?
        && m[j] == Locked(DefinitionFor(Catalogue, m[j].id).value)
  {
    CatalogueDistinct();
    MissingShape(stored, Catalogue);
    var m := MergeCatalogue(stored);
    forall j | |stored| <= j < |m|
      ensures m[j] == Missing(stored, Catalogue)[j - |stored|]
    {
    }
  }

  /** After the merge every catalogue id is present. */
  lemma {:induction false} MergeCoversCatalogue(stored: seq<Badge>, defs: seq<Definition>)
    ensures forall k :: 0 <= k < |defs| ==> HasId(Merged(stored, defs), defs[k].id)
  {
    if defs != [] {
      var prefix := defs[..|defs| - 1];
      var d := defs[|defs| - 1];
      MergeCoversCatalogue(stored, prefix);
      var m := Merged(stored, defs);
      var mp := Merged(stored, prefix);
      assert |mp| <= |m|;
      forall k | 0 <= k < |defs| ensures HasId(m, defs[k].id) {
        if k < |prefix| {
          var j :| 0 <= j < |mp| && mp[j].id == prefix[k].id;
          if j < |stored| {
            assert m[j].id == stored[j].id == mp[j].id;
          } else {
            assert m[j] == Missing(stored, defs)[j - |stored|];
          }
        } else if HasId(stored, d.id) {
          var j :| 0 <= j < |stored| && stored[j].id == d.id;
          assert m[j].id == d.id;
        } else {
          assert m[|m| - 1] == Locked(d);
        }
      }
    }
  }

  lemma {:induction false} MissingWhenCovered(bs: seq<Badge>, defs: seq<Definition>)
    requires forall k :: 0 <= k < |defs| ==> HasId(bs, defs[k].id)
    ensures Missing(bs, defs) == []
  {
    if defs != [] {
      MissingWhenCovered(bs, defs[..|defs| - 1]);
    }
  }

  /**
   * Running the start-up merge again on its own result changes nothing:
   * every catalogue id is already present and already refreshed.
   */
  lemma MergeIdempotent(stored: seq<Badge>)
    ensures MergeCatalogue(MergeCatalogue(stored)) == MergeCatalogue(stored)
  {
    var m := MergeCatalogue(stored);
    CatalogueDistinct();
    MergeCoversCatalogue(stored, Catalogue);
    MissingWhenCovered(m, Catalogue);
    MergedLayout(stored, Catalogue);
    MergedLayout(m, Catalogue);
    MissingShape(stored, Catalogue);
    forall i | 0 <= i < |m| ensures MergedAt(m, Catalogue, i) == m[i] {
      if i < |stored| {
        assert IsFirst(m, i) <==> IsFirst(stored, i) by {
          assert forall j :: 0 <= j < i ==> m[j].id == stored[j].id;
        }
      } else {
        assert m[i] == Missing(stored, Catalogue)[i - |stored|];
      }
    }
  }

  // ---------------------------------------------------------------------
  // Unlocking
  // ---------------------------------------------------------------------

  /** A locked badge with a condition, and that condition holds. */
  predicate Flips(b: Badge, gs: seq<Grade>)
  {
    !b.earned && b.condition.Some? && Holds(b.condition.value, gs)
  }

  /** A locked badge whose condition is missing: calling it throws. */
  predicate Faults(b: Badge)
  {
    !b.earned && b.condition.None?
  }

  /** One badge after the unlock pass has looked at it. */
  function Advance(b: Badge, gs: seq<Grade>, now: Timestamp): (r: Badge)
    ensures r.(earned := b.earned, earnedDate := b.earnedDate) == b
    ensures r.earned <==> b.earned || Flips(b, gs)
    ensures Flips(b, gs) ==> r.earnedDate == Some(now)
    ensures !Flips(b, gs) ==> r == b
  {
    if Flips(b, gs) then b.(earned := true, earnedDate := Some(now)) else b
  }

  /** The position of the first faulting badge, or the length when there is none. */
  function FaultIndex(bs: seq<Badge>): (k: nat)
    ensures k <= |bs|
    ensures forall j :: 0 <= j < k ==> !Faults(bs[j])
    ensures k < |bs| ==> Faults(bs[k])
  {
    if bs == [] then 0
    else if Faults(bs[0]) then 0
    else 1 + FaultIndex(bs[1..])
  }

  lemma FaultIndexIs(bs: seq<Badge>, k: nat)
    requires k <= |bs|
    requires forall j :: 0 <= j < k ==> !Faults(bs[j])
    requires k < |bs| ==> Faults(bs[k])
    ensures FaultIndex(bs) == k
  {
  }

  /** The badges of `bs` that flip, flipped, in list order. */
  function NewlyEarned(bs: seq<Badge>, gs: seq<Grade>, now: Timestamp): seq<Badge>
  {
    if bs == [] then []
    else
      var last := bs[|bs| - 1];
      NewlyEarned(bs[..|bs| - 1], gs, now) + (if Flips(last, gs) then [Advance(last, gs, now)] else [])
  }

  datatype UnlockOutcome = UnlockOutcome(badges: seq<Badge>, newBadges: seq<Badge>, completed: bool)

  /**
   * `checkAndUnlockBadges`: every locked badge whose condition holds becomes
   * earned at `now`, in list order, until a locked badge without a condition
   * throws; badges already handled stay changed and nothing is reported.
   */
  function Unlock(bs: seq<Badge>, gs: seq<Grade>, now: Timestamp): (o: UnlockOutcome)
    ensures |o.badges| == |bs|
    ensures o.completed <==> forall j :: 0 <= j < |bs| ==> !Faults(bs[j])
    ensures forall i :: 0 <= i < |bs| ==> o.badges[i].id == bs[i].id
    ensures forall i :: 0 <= i < |bs| && bs[i].earned ==> o.badges[i] == bs[i]
    ensures forall i :: 0 <= i < |bs| ==>
      (o.badges[i].earned <==> bs[i].earned || (i < FaultIndex(bs) && Flips(bs[i], gs)))
    ensures forall i :: 0 <= i < |bs| && o.badges[i] != bs[i] ==>
      o.badges[i] == bs[i].(earned := true, earnedDate := Some(now))
  {
    var k := FaultIndex(bs);
    UnlockOutcome(
      seq(|bs|, i requires 0 <= i < |bs| => if i < k then Advance(bs[i], gs, now) else bs[i]),
      NewlyEarned(bs[..k], gs, now),
      k == |bs|)
  }

  /** The entries of `after` that were locked in `before` and are earned now, in order. */
  function Changed(before: seq<Badge>, after: seq<Badge>): seq<Badge>
    requires |before| == |after|
  {
    if before == [] then []
    else
      var n := |before| - 1;
      Changed(before[..n], after[..n]) + Change(before[n], after[n])
  }

  /** `after`, if it is earned and `before` was locked. */
  function Change(before: Badge, after: Badge): seq<Badge>
  {
    if !before.earned && after.earned then [after] else []
  }

  lemma {:induction false} NewlyEarnedIsChanged(bs: seq<Badge>, after: seq<Badge>, gs: seq<Grade>, now: Timestamp)
    requires |after| == |bs|
    requires forall i :: 0 <= i < |bs| ==> after[i] == Advance(bs[i], gs, now)
    ensures NewlyEarned(bs, gs, now) == Changed(bs, after)
  {
    if bs != [] {
      var n := |bs| - 1;
      NewlyEarnedIsChanged(bs[..n], after[..n], gs, now);
    }
  }

  /** Entries past `k` that are the same before and after add nothing to the change list. */
  lemma {:induction false} ChangedUnchangedTail(before: seq<Badge>, after: seq<Badge>, k: nat)
    requires |before| == |after| && k <= |before|
    requires forall i :: k <= i < |before| ==> after[i] == before[i]
    ensures Changed(before, after) == Changed(before[..k], after[..k])
    decreases |before|
  {
    if |before| > k {
      var n := |before| - 1;
      ChangedUnchangedTail(before[..n], after[..n], k);
      assert before[..n][..k] == before[..k] && after[..n][..k] == after[..k];
    } else {
      assert before[..k] == before && after[..k] == after;
    }
  }

  /**
   * `newBadges` is exactly the list of badges that went from locked to
   * earned in this call, as they now are, in list order.
   */
  lemma UnlockReportsChanged(bs: seq<Badge>, gs: seq<Grade>, now: Timestamp)
    ensures var o := Unlock(bs, gs, now); o.newBadges == Changed(bs, o.badges)
  {
    var o := Unlock(bs, gs, now);
    var k := FaultIndex(bs);
    NewlyEarnedIsChanged(bs[..k], o.badges[..k], gs, now);
    ChangedUnchangedTail(bs, o.badges, k);
  }

  /**
   * A second pass over the result with the same grades earns nothing,
   * changes nothing and stops where the first one stopped.
   */
  lemma UnlockIdempotent(bs: seq<Badge>, gs: seq<Grade>, now: Timestamp, later: Timestamp)
    ensures var o := Unlock(bs, gs, now);
      Unlock(o.badges, gs, later) == UnlockOutcome(o.badges, [], o.completed)
  {
    var o := Unlock(bs, gs, now);
    var k := FaultIndex(bs);
    FaultIndexIs(o.badges, k);
    forall i | 0 <= i < k ensures !Flips(o.badges[i], gs) {
    }
    NoFlipsNothingNew(o.badges[..k], gs, later);
  }

  lemma {:induction false} NoFlipsNothingNew(bs: seq<Badge>, gs: seq<Grade>, now: Timestamp)
    requires forall i :: 0 <= i < |bs| ==> !Flips(bs[i], gs)
    ensures NewlyEarned(bs, gs, now) == []
  {
    if bs != [] {
      NoFlipsNothingNew(bs[..|bs| - 1], gs, now);
    }
  }

  /** `getEarnedBadges`: the earned badges, in list order. */
  function EarnedBadges(bs: seq<Badge>): (r: seq<Badge>)
    ensures |r| <= |bs|
    ensures forall b :: b in r <==> b in bs && b.earned
  {
    if bs == [] then []
    else
      var n := |bs| - 1;
      assert bs == bs[..n] + [bs[n]];
      EarnedBadges(bs[..n]) + (if bs[n].earned then [bs[n]] else [])
  }

  /** The filter keeps every earned badge as often as it occurs, and nothing else. */
  lemma {:induction false} EarnedBadgesCount(bs: seq<Badge>)
    ensures forall b :: multiset(EarnedBadges(bs))[b] == if b.earned then multiset(bs)[b] else 0
  {
    if bs != [] {
      var n := |bs| - 1;
      assert bs == bs[..n] + [bs[n]];
      EarnedBadgesCount(bs[..n]);
    }
  }

  /** The filter keeps list order: filtering a concatenation filters each part. */
  lemma {:induction false} EarnedBadgesAppend(a: seq<Badge>, c: seq<Badge>)
    ensures EarnedBadges(a + c) == EarnedBadges(a) + EarnedBadges(c)
  {
    if c == [] {
      assert a + c == a;
    } else {
      var n := |c| - 1;
      assert a + c == (a + c[..n]) + [c[n]];
      assert c == c[..n] + [c[n]];
      EarnedBadgesSnoc(a + c[..n], c[n]);
      EarnedBadgesSnoc(c[..n], c[n]);
      EarnedBadgesAppend(a, c[..n]);
    }
  }

  lemma EarnedBadgesSnoc(bs: seq<Badge>, x: Badge)
    ensures EarnedBadges(bs + [x]) == EarnedBadges(bs) + (if x.earned then [x] else [])
  {
    assert (bs + [x])[..|bs|] == bs;
  }

  lemma {:induction false} EarnedGrowsByChanged(before: seq<Badge>, after: seq<Badge>)
    requires |before| == |after|
    requires forall i :: 0 <= i < |before| ==> (before[i].earned ==> after[i].earned)
    ensures |EarnedBadges(after)| == |EarnedBadges(before)| + |Changed(before, after)|
  {
    if before != [] {
      var n := |before| - 1;
      EarnedGrowsByChanged(before[..n], after[..n]);
      assert |EarnedBadges(after)| == |EarnedBadges(after[..n])| + (if after[n].earned then 1 else 0);
      assert |EarnedBadges(before)| == |EarnedBadges(before[..n])| + (if before[n].earned then 1 else 0);
      assert |Changed(before, after)| == |Changed(before[..n], after[..n])|
        + (if !before[n].earned && after[n].earned then 1 else 0);
    }
  }

  /** Each unlock call grows the earned list by exactly the badges it reports. */
  lemma UnlockEarnedCount(bs: seq<Badge>, gs: seq<Grade>, now: Timestamp)
    ensures var o := Unlock(bs, gs, now);
      |EarnedBadges(o.badges)| == |EarnedBadges(bs)| + |o.newBadges|
  {
    UnlockReportsChanged(bs, gs, now);
    EarnedGrowsByChanged(bs, Unlock(bs, gs, now).badges);
  }

  /** Earned badges keep carrying a date: the pass stamps each badge it earns. */
  lemma UnlockKeepsDates(bs: seq<Badge>, gs: seq<Grade>, now: Timestamp)
    requires forall i :: 0 <= i < |bs| && bs[i].earned ==> bs[i].earnedDate.Some?
    ensures var o := Unlock(bs, gs, now);
      forall i :: 0 <= i < |o.badges| && o.badges[i].earned ==> o.badges[i].earnedDate.Some?
  {
  }

  /**
   * After start-up the unlock pass runs to the end exactly when every stored
   * badge that is still locked either kept its condition or was re-attached
   * to one by the merge.
   */
  lemma UnlockAfterMergeCompletes(stored: seq<Badge>, gs: seq<Grade>, now: Timestamp)
    ensures Unlock(MergeCatalogue(stored), gs, now).completed <==>
      forall i :: 0 <= i < |stored| ==>
        stored[i].earned || stored[i].condition.Some?
        || (IsFirst(stored, i) && DefinitionFor(Catalogue, stored[i].id).Some?)
  {
    var m := MergeCatalogue(stored);
    MergeAppendsMissing(stored);
    MergedLayout(stored, Catalogue);
    assert forall j :: |stored| <= j < |m| ==> !Faults(m[j]);
    forall i | 0 <= i < |stored|
      ensures !Faults(m[i]) <==> (stored[i].earned || stored[i].condition.Some?
        || (IsFirst(stored, i) && DefinitionFor(Catalogue, stored[i].id).Some?))
    {
      assert m[i] == MergedAt(stored, Catalogue, i);
    }
  }
}

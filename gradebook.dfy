/**
 * The grade book's state: its grade list and badge list (and the counter
 * that hands out grade ids), with the operations that change them.
 */
module GradeBookApp {
  import opened Wrappers
  import opened GradeRecords
  import opened Badges
  import opened CsvImport

  /** The transient messages the operations below raise, in order. */
  datatype Notice =
    | Imported(count: nat)          // success: how many grades were imported
    | NoValidData                   // error: the file held no acceptable line
    | ImportFailed                  // error: processing the file threw
    | BadgeUnlocked(name: string)   // success: a badge was earned

  function BadgeNotices(bs: seq<Badge>): seq<Notice>
  {
    seq(|bs|, i requires 0 <= i < |bs| => BadgeUnlocked(bs[i].name))
  }

  /** An id above every id in `gs`. */
  function FreshGradeId(gs: seq<Grade>): (id: GradeId)
    ensures forall i :: 0 <= i < |gs| ==> gs[i].id < id
  {
    if gs == [] then 0
    else
      var rest := FreshGradeId(gs[1..]);
      if gs[0].id < rest then rest else gs[0].id + 1
  }

  /** The grade record an accepted row becomes: its score and date parsed from their text. */
  function RecordOf(row: Row, id: GradeId, parseGrade: string -> real, parseDate: string -> Day,
                    stamp: Millis): Grade
  {
    Grade(id, row.subject, parseGrade(row.grade), parseDate(row.date), row.examType, stamp)
  }

  /** The grade records an import appends for `rows`: ids counted up from `firstId`, one creation time. */
  function RecordsFor(rows: seq<Row>, firstId: GradeId, parseGrade: string -> real,
                      parseDate: string -> Day, stamp: Millis): seq<Grade>
  {
    seq(|rows|, k requires 0 <= k < |rows| => RecordOf(rows[k], firstId + k, parseGrade, parseDate, stamp))
  }

  lemma RecordsForAppend(rows: seq<Row>, row: Row, firstId: GradeId, parseGrade: string -> real,
                         parseDate: string -> Day, stamp: Millis)
    ensures RecordsFor(rows + [row], firstId, parseGrade, parseDate, stamp)
         == RecordsFor(rows, firstId, parseGrade, parseDate, stamp)
            + [RecordOf(row, firstId + |rows|, parseGrade, parseDate, stamp)]
  {
  }

  /** One accepted line: its record is the next one the accepted rows call for. */
  lemma ReadAccepted(rows: seq<Row>, row: Row, before: seq<Grade>, firstId: GradeId,
                     parseGrade: string -> real, parseDate: string -> Day, stamp: Millis)
    ensures (before + RecordsFor(rows, firstId, parseGrade, parseDate, stamp))
            + [RecordOf(row, firstId + |rows|, parseGrade, parseDate, stamp)]
         == before + RecordsFor(rows + [row], firstId, parseGrade, parseDate, stamp)
  {
    RecordsForAppend(rows, row, firstId, parseGrade, parseDate, stamp);
  }

  /**
   * Appended records carry ids no earlier record carries, nor each other,
   * and all of them lie below the counter once it has moved past them.
   */
  lemma AppendedIdsFresh(before: seq<Grade>, rows: seq<Row>, firstId: GradeId, parseGrade: string -> real,
                         parseDate: string -> Day, stamp: Millis)
    requires forall i :: 0 <= i < |before| ==> before[i].id < firstId
    ensures var all := before + RecordsFor(rows, firstId, parseGrade, parseDate, stamp);
      forall i :: 0 <= i < |all| ==> all[i].id < firstId + |rows|
    ensures var all := before + RecordsFor(rows, firstId, parseGrade, parseDate, stamp);
      forall i, j :: 0 <= i < j < |all| && |before| <= j ==> all[i].id != all[j].id
  {
    var all := before + RecordsFor(rows, firstId, parseGrade, parseDate, stamp);
    forall i | 0 <= i < |all|
      ensures all[i].id < firstId + |rows|
    {
      if |before| <= i {
        assert all[i].id == firstId + (i - |before|);
      }
    }
    forall i, j | 0 <= i < j < |all| && |before| <= j
      ensures all[i].id != all[j].id
    {
      assert all[j].id == firstId + (j - |before|);
      if |before| <= i {
        assert all[i].id == firstId + (i - |before|);
      }
    }
  }

  /** Reordering the grades keeps every id below the counter. */
  lemma SortKeepsIdBound(gs: seq<Grade>, bound: GradeId)
    requires forall i :: 0 <= i < |gs| ==> gs[i].id < bound
    ensures var r := SortNewestFirst(gs);
      forall i :: 0 <= i < |r| ==> r[i].id < bound
  {
    var r := SortNewestFirst(gs);
    SortByPermutes(gs, NewestFirst);
    forall i | 0 <= i < |r| ensures r[i].id < bound {
      assert r[i] in multiset(r);
      assert r[i] in multiset(gs);
      var j :| 0 <= j < |gs| && gs[j] == r[i];
    }
  }

  class GradeBook {
    var grades: seq<Grade>
    var badges: seq<Badge>
    /** Where the next grade id is drawn from; above every id in use. */
    var nextId: GradeId

    ghost predicate Valid()
      reads this`grades, this`nextId
    {
      forall i :: 0 <= i < |grades| ==> grades[i].id < nextId
    }

    /**
     * Start-up: the stored lists are loaded and the badge catalogue is merged
     * in; then `init` re-renders the pages, which re-sorts the grades newest
     * first, and runs the unlock pass at `now`.
     */
    constructor (storedGrades: seq<Grade>, storedBadges: seq<Badge>, now: Timestamp)
      ensures Valid()
      ensures grades == SortNewestFirst(storedGrades)
      ensures badges == Unlock(MergeCatalogue(storedBadges), grades, now).badges
    {
      grades := storedGrades;
      badges := storedBadges;
      nextId := FreshGradeId(storedGrades);
      new;
      InitializeBadges();
      RenderAllPages();
      var _, _ := CheckAndUnlockBadges(now);
    }

    /**
     * The one change `renderAllPages` makes to the state: the recent-activity
     * list sorts the grade list itself, newest first, before taking its first
     * three entries.
     */
    method RenderAllPages()
      requires Valid()
      modifies this`grades
      ensures Valid()
      ensures grades == SortNewestFirst(old(grades))
    {
      SortKeepsIdBound(grades, nextId);
      grades := SortNewestFirst(grades);
    }

    /**
     * `initializeBadges`: an empty store becomes the catalogue, every badge
     * locked; otherwise each catalogue entry refreshes the first stored badge
     * with its id, or is appended locked when there is none.
     */
    method InitializeBadges()
      modifies this`badges
      ensures badges == MergeCatalogue(old(badges))
    {
      if |badges| == 0 {
        badges := seq(|Catalogue|, i requires 0 <= i < |Catalogue| => Locked(Catalogue[i]));
        MergeEmptyStore();
      } else {
        CatalogueDistinct();
        MergeDefinitions(Catalogue);
      }
    }

    /** The merge loop of `initializeBadges`, one catalogue entry at a time. */
    method MergeDefinitions(defs: seq<Definition>)
      requires DistinctIds(defs)
      modifies this`badges
      ensures badges == Merged(old(badges), defs)
    {
      ghost var stored := badges;
      assert defs[..0] == [];
      assert Merged(stored, []) == stored;
      var j := 0;
      while j < |defs|
        invariant 0 <= j <= |defs|
        invariant badges == Merged(stored, defs[..j])
      {
        var definition := defs[j];
        assert defs[..j + 1] == defs[..j] + [definition];
        MergeStep(stored, defs[..j], definition);
        var existing := FindIndex(badges, definition.id);
        match existing {
          case Some(i) =>
            badges := badges[i := Refreshed(badges[i], definition)];
          case None =>
            badges := badges + [Locked(definition)];
        }
        j := j + 1;
      }
      assert defs[..j] == defs;
    }

    /**
     * `checkAndUnlockBadges`: walks the badges in order; a locked badge whose
     * condition holds becomes earned at `now` and is reported. A locked badge
     * without a condition makes the call throw (`completed` is false) with
     * the earlier badges already updated.
     */
    method CheckAndUnlockBadges(now: Timestamp) returns (newBadges: seq<Badge>, completed: bool)
      modifies this`badges
      ensures var o := Unlock(old(badges), grades, now);
        badges == o.badges && newBadges == o.newBadges && completed == o.completed
    {
      ghost var before := badges;
      newBadges := [];
      var i := 0;
      while i < |badges|
        invariant 0 <= i <= |badges| == |before|
        invariant forall j :: 0 <= j < |badges| ==>
          badges[j] == if j < i then Advance(before[j], grades, now) else before[j]
        invariant forall j :: 0 <= j < i ==> !Faults(before[j])
        invariant newBadges == NewlyEarned(before[..i], grades, now)
      {
        var badge := badges[i];
        assert before[..i + 1] == before[..i] + [before[i]];
        if !badge.earned && badge.condition.None? {
          FaultIndexIs(before, i);
          assert before[..FaultIndex(before)] == before[..i];
          return newBadges, false;
        }
        var unlocked := UnlockAt(i, now, before);
        newBadges := newBadges + unlocked;
        i := i + 1;
      }
      FaultIndexIs(before, i);
      assert before[..i] == before;
      completed := true;
    }

    /**
     * The body of the unlock loop for a badge that does not throw: if it is
     * locked and its condition holds, it becomes earned at `now` and is
     * reported.
     */
    method UnlockAt(i: nat, now: Timestamp, ghost before: seq<Badge>) returns (unlocked: seq<Badge>)
      requires i < |badges| == |before|
      requires forall j :: 0 <= j < |badges| ==>
        badges[j] == if j < i then Advance(before[j], grades, now) else before[j]
      requires !Faults(before[i])
      modifies this`badges
      ensures |badges| == |before|
      ensures forall j :: 0 <= j < |badges| ==>
        badges[j] == if j <= i then Advance(before[j], grades, now) else before[j]
      ensures unlocked == if Flips(before[i], grades) then [Advance(before[i], grades, now)] else []
    {
      var badge := badges[i];
      unlocked := [];
      if !badge.earned {
        var holds := EvaluateCondition(badge.condition.value, grades);
        if holds {
          badge := badge.(earned := true, earnedDate := Some(now));
          badges := badges[i := badge];
          unlocked := [badge];
        }
      }
    }

    /**
     * One pass of the reading loop of `processCSVFile`: the line at `index`
     * (never the header) appends a grade with the next id if it is accepted.
     */
    method ReadLine(lines: seq<string>, index: nat, ghost before: seq<Grade>, ghost firstId: GradeId,
                    ghost rows: seq<Row>, parseGrade: string -> real, parseDate: string -> Day, stamp: Millis)
      returns (accepted: bool, ghost rows': seq<Row>)
      requires 1 <= index < |lines|
      requires rows == RowsBefore(lines, index)
      requires nextId == firstId + |rows|
      requires grades == before + RecordsFor(rows, firstId, parseGrade, parseDate, stamp)
      modifies this`grades, this`nextId
      ensures rows' == RowsBefore(lines, index + 1)
      ensures nextId == firstId + |rows'|
      ensures grades == before + RecordsFor(rows', firstId, parseGrade, parseDate, stamp)
      ensures |rows'| == if accepted then |rows| + 1 else |rows|
    {
      var parsed := ParseRow(lines[index]);
      match parsed {
        case Some(row) =>
          var previous := grades;
          var record := RecordOf(row, nextId, parseGrade, parseDate, stamp);
          assert record == RecordOf(row, firstId + |rows|, parseGrade, parseDate, stamp);
          ReadAccepted(rows, row, before, firstId, parseGrade, parseDate, stamp);
          grades := previous + [record];
          nextId := nextId + 1;
          rows' := rows + [row];
          accepted := true;
        case None =>
          rows' := rows;
          accepted := false;
      }
    }

    /**
     * The reading loop of `processCSVFile`: every non-blank line after the
     * first whose first four trimmed fields are all non-empty appends one
     * grade with a fresh id.
     */
    method ReadLines(lines: seq<string>, parseGrade: string -> real, parseDate: string -> Day,
                     stamp: Millis)
      returns (addedCount: nat)
      modifies this`grades, this`nextId
      ensures addedCount == |RowsAfterHeader(lines)|
      ensures nextId == old(nextId) + addedCount
      ensures grades == old(grades) + RecordsFor(RowsAfterHeader(lines), old(nextId), parseGrade, parseDate, stamp)
    {
      ghost var before, firstId := grades, nextId;
      ghost var rows: seq<Row> := [];
      addedCount := 0;
      var index := 0;
      while index < |lines|
        invariant 0 <= index <= |lines|
        invariant rows == RowsBefore(lines, index)
        invariant addedCount == |rows| && nextId == firstId + |rows|
        invariant grades == before + RecordsFor(rows, firstId, parseGrade, parseDate, stamp)
      {
        if index != 0 {
          var accepted;
          accepted, rows := ReadLine(lines, index, before, firstId, rows, parseGrade, parseDate, stamp);
          if accepted {
            addedCount := addedCount + 1;
          }
        }
        index := index + 1;
      }
      RowsBeforeAll(lines);
    }

    /** The same loop over the non-blank lines of a CSV text; the ids stay fresh. */
    method AppendCsvRecords(text: string, parseGrade: string -> real, parseDate: string -> Day,
                            stamp: Millis)
      returns (addedCount: nat)
      requires Valid()
      modifies this`grades, this`nextId
      ensures Valid()
      ensures addedCount == |CsvRows(text)|
      ensures grades == old(grades) + RecordsFor(CsvRows(text), old(nextId), parseGrade, parseDate, stamp)
    {
      ghost var before, firstId := grades, nextId;
      addedCount := ReadLines(NonBlankLines(text), parseGrade, parseDate, stamp);
      AppendedIdsFresh(before, CsvRows(text), firstId, parseGrade, parseDate, stamp);
    }

    /**
     * `processCSVFile` once the file text is read: the records are appended;
     * then, if any were added, the pages are re-rendered (re-sorting the
     * grades newest first) and the badges re-checked, and a failure there is
     * reported as a failed import.
     */
    method ImportCsv(text: string, parseGrade: string -> real, parseDate: string -> Day,
                     stamp: Millis, now: Timestamp)
      returns (addedCount: nat, notices: seq<Notice>)
      requires Valid()
      modifies this
      ensures Valid()
      ensures addedCount == |CsvRows(text)|
      ensures var appended := old(grades) + RecordsFor(CsvRows(text), old(nextId), parseGrade, parseDate, stamp);
        (forall i, j :: 0 <= i < j < |appended| && |old(grades)| <= j ==> appended[i].id != appended[j].id)
        && grades == if addedCount == 0 then appended else SortNewestFirst(appended)
      ensures addedCount == 0 ==> badges == old(badges) && notices == [NoValidData]
      ensures addedCount > 0 ==>
        var o := Unlock(old(badges), grades, now);
        badges == o.badges
        && notices == [Imported(addedCount)] + (if o.completed then BadgeNotices(o.newBadges) else [ImportFailed])
    {
      AppendedIdsFresh(grades, CsvRows(text), nextId, parseGrade, parseDate, stamp);
      addedCount := AppendCsvRecords(text, parseGrade, parseDate, stamp);
      if addedCount > 0 {
        notices := [Imported(addedCount)];
        RenderAllPages();
        var newBadges, completed := CheckAndUnlockBadges(now);
        if completed {
          notices := notices + BadgeNotices(newBadges);
        } else {
          notices := notices + [ImportFailed];
        }
      } else {
        notices := [NoValidData];
      }
    }
  }
}

# GradeBook+ data layer in Dafny

This project models the data layer of `GradeBookApp`, the single class of the
GradeBook+ browser application (`script.js`), and proves properties of the model.
GradeBook+ keeps a list of grade records and a list of achievement badges. It
imports grades from CSV text, computes averages, and awards badges.

The model has eight modules. `Wrappers` (`wrappers.dfy`) holds the `Option`
type; the other seven follow the application:

- `GradeRecords` (`records.dfy`) holds the grade record. It also holds the sum and
  mean of scores, and one stable sort for the two orders the source sorts
  grades in:
  - by date, which the improvement badge and the trend chart read a copy in;
  - newest first by creation time, which the recent-activity list imposes
    on the grade list itself.
- `Statistics` (`statistics.dfy`) covers `calculateAverage`, `getUniqueSubjects`
  and `getSubjectAverages`. It also covers the running-average loop of the trend
  chart.
- `Improvement` (`improvement.dfy`) covers `checkConsistentImprovement`.
- `Badges` (`badges.dfy`) covers the following:
  - the six-entry badge catalogue and its six conditions;
  - the start-up merge of the catalogue into the stored badges, as a function
    with its properties;
  - the unlock pass, as a function with its properties;
  - `getEarnedBadges`.
- `CsvImport` (`csv.dfy`) models the text side of CSV import:
  - splitting into lines and dropping blank ones;
  - skipping the first line;
  - splitting a line on commas and trimming the fields, with the whitespace
    set of ECMAScript `trim`;
  - the four-field acceptance test.

  It also proves a write-then-read round trip.
- `TargetProjection` (`target.dfy`) covers the formula and the classification
  of `handleTargetCalculation`. Division by zero is modelled as JavaScript
  performs it.
- `GradeBookApp` (`gradebook.dfy`) is the stateful class `GradeBook`. Its fields
  are `grades`, `badges` and an id counter. Its methods do the following:
  - merge the catalogue in place (`initializeBadges`);
  - re-sort the grades newest first, the one change `renderAllPages` makes
    to the state;
  - flip badges in place (`checkAndUnlockBadges`);
  - append the records of a CSV text (`processCSVFile`).

  The constructor runs the start-up sequence: the merge, the re-sort and the
  unlock pass.

  Each method is proved against the matching function of the other modules.

Scores are exact `real`s. A record's date is kept as the instant it denotes,
as an `int`, because the source only ever compares dates through `new Date`.
The score and date parsers are parameters of the import. So are the creation
time of an import and the unlock time of a badge.

With zero remaining exams, `handleTargetCalculation` divides by zero
(`script.js:179`). That gives Infinity, -Infinity or NaN, and the code then
classifies the result (`script.js:182-190`). The model does the same:
`TargetProjection.NoRemainingExams` states what the calculator then shows.

In the source, a stored badge whose id is not in the catalogue comes back from
storage without its condition function. When the unlock pass reaches such a
badge while it is still locked, the call throws. By then the earlier badges
have already been updated, and the messages for them are not shown. The model
represents this throw as `completed == false`.

## Model

| member | source | states |
|---|---|---|
| GradeRecords.Values | script.js:681 | the list of scores has one entry per grade, in order, each the grade's score |
| GradeRecords.Mean | script.js:679-682 | 0 for an empty list; otherwise the mean times the count is the sum |
| GradeRecords.MeanWithinBounds | script.js:679-682 | a mean lies between any lower and upper bound of its non-empty list |
| GradeRecords.SortByPermutes | script.js:644 | a sort, by date or newest first, returns a permutation of its input |
| GradeRecords.InsertPermutes | script.js:644 | inserting adds exactly the inserted grade to the multiset of the list |
| GradeRecords.InsertSorted | script.js:644 | inserting into a list ordered by a key keeps it ordered by that key |
| GradeRecords.SortBySorted | script.js:644 | the result of the sort is ordered by its key |
| GradeRecords.SortByStable | script.js:644 | the sort is stable: grades with equal keys keep their relative order |
| GradeRecords.SortByDateSorted | script.js:644 | the result of the sort is ordered by date |
| GradeRecords.SortByDateStable | script.js:644 | the sort is stable: for every date, the grades carrying it keep their relative order |
| GradeRecords.SortNewestFirstSorted | script.js:291-292 | the recent-activity sort puts larger timestamps first |
| GradeRecords.SortNewestFirstStable | script.js:291-292 | grades with the same timestamp keep their relative order |
| Statistics.CalculateAverage | script.js:679-682 | 0 with no grades; otherwise the average times the number of grades is the total score |
| Statistics.AverageWithinBounds | script.js:679-682 | when every score lies in [lo, hi], the average of a non-empty list does too |
| Statistics.GradeSumPermutation | script.js:681 | the total score is the same for any reordering of the grades |
| Statistics.AverageIgnoresOrder | script.js:679-682 | the average is the same for any reordering, such as the in-place sort of the recent-activity list |
| Statistics.UniqueSubjects | script.js:684-686 | every occurring subject is listed exactly once and nothing else is listed |
| Statistics.GradesOfNonEmpty | script.js:690-695 | a subject's group of scores is non-empty exactly when the subject occurs |
| Statistics.SubjectAverages | script.js:688-704 | the keys are exactly the occurring subjects, and each value is the mean of that subject's scores |
| Statistics.SubjectGroupsPartition | script.js:688-704 | the groups of all subjects, together, hold exactly the multiset of all scores |
| Statistics.RunningAverages | script.js:428-438 | one average per grade; the i-th is the average of the first i + 1 grades in date order; the last one is the overall average |
| Statistics.RunningAverageStep | script.js:433-438 | each running average folds the next score into the previous one, weighted by the count |
| Improvement.CheckConsistentImprovement | script.js:641-657 | false below three grades; otherwise true exactly when three consecutive grades of the date-sorted list rise strictly |
| Improvement.ShortListsNeverRise | script.js:642 | fewer than three grades never show an improvement |
| Improvement.SortedTriple | script.js:644 | three grades already in date order are left in place by the sort |
| Improvement.RisingScenario | script.js:641-657 | scores 70, 80 and 90 on successive dates show an improvement |
| Improvement.TieOrderScenario | script.js:641-657 | date ties follow list order: an older 70 and a newer 80 on one date, then a 90, rise in append order but not after the newest-first re-sort of script.js:292, which gives [80, 90, 70] |
| Badges.EvaluateCondition | script.js:560-595 | each of the six conditions yields exactly its threshold predicate on the grades |
| Badges.SomeSubjectMastered | script.js:581 | true exactly when some occurring subject averages 85 or more |
| Badges.FindIndex | script.js:610 | none exactly when no badge has the id; otherwise the first badge with that id |
| Badges.DefinitionFor | script.js:609-612 | none exactly when no catalogue entry has the id; otherwise an entry with that id |
| Badges.MergeStep | script.js:609-616 | one step of the merge loop: the first badge with the entry's id is refreshed in place, or else the entry is appended locked |
| Badges.MergeEmptyStore | script.js:600-606 | an empty store becomes exactly the catalogue, every badge locked |
| Badges.MergeKeepsStored | script.js:607-616 | every stored badge keeps its position, id, earned flag and date; badges not in the catalogue, and repeats of an id, stay untouched; the first badge of a catalogue id is refreshed |
| Badges.MergeAppendsMissing | script.js:613-615 | the appended badges are exactly the absent catalogue entries, locked and without a date |
| Badges.MergeCoversCatalogue | script.js:609-616 | after the merge every catalogue id is present |
| Badges.MergeIdempotent | script.js:599-617 | merging the catalogue into a merged list changes nothing |
| Badges.Advance | script.js:625-628 | only the earned flag and date can change; the badge ends earned exactly when it was earned or its condition holds; a badge that flips is dated at the given time; any other badge is unchanged |
| Badges.FaultIndex | script.js:624-625 | the position of the first locked badge without a condition, or the length when there is none |
| Badges.Unlock | script.js:621-630 | length and ids are kept; earned badges never change; a badge ends earned exactly when it was earned before, or it flipped before the first fault; a changed badge differs only by being earned at `now`; the pass completes exactly when no locked badge lacks its condition |
| Badges.UnlockReportsChanged | script.js:622-630 | the reported list is exactly the badges that went from locked to earned, as they now are, in list order |
| Badges.UnlockIdempotent | script.js:624-630 | a second pass on the same grades reports nothing, changes nothing and completes as the first one did |
| Badges.EarnedBadges | script.js:720-722 | exactly the earned badges are listed, and the list is no longer than the badge list |
| Badges.EarnedBadgesCount | script.js:720-722 | every earned badge is listed as often as it occurs, and nothing else is, so the length is the number of earned positions |
| Badges.EarnedBadgesAppend | script.js:720-722 | the filter keeps list order: filtering a concatenation concatenates the filtered parts |
| Badges.UnlockEarnedCount | script.js:621-630 | each pass grows the earned list by exactly the number of badges it reports |
| Badges.UnlockKeepsDates | script.js:626-627 | when every earned badge has a date before the pass, every earned badge has one after it |
| Badges.UnlockAfterMergeCompletes | script.js:3-16 | after the start-up merge, the start-up unlock pass completes exactly when every stored locked badge has a condition or is the first badge of a catalogue id |
| CsvImport.TrimStartSpec | script.js:104 | only leading whitespace is removed, and the kept part does not start with whitespace |
| CsvImport.TrimEndSpec | script.js:104 | only trailing whitespace is removed, and the kept part does not end with whitespace |
| CsvImport.TrimSpec | script.js:104 | trimming leaves nothing exactly when the text is all whitespace; otherwise neither end of the result is whitespace; every kept character comes from the text |
| CsvImport.TrimIdempotent | script.js:104 | trimming twice is trimming once |
| CsvImport.Split | script.js:98 | a split yields at least one piece, and no piece contains the separator |
| CsvImport.JoinSplit | script.js:98 | joining the pieces of a split restores the text |
| CsvImport.SplitJoin | script.js:104 | splitting joined pieces that do not contain the separator gives back the pieces |
| CsvImport.KeepNonBlank | script.js:98 | no blank line survives the filter |
| CsvImport.KeepNonBlankPrepend | script.js:98 | the filter handles a leading line independently of the rest |
| CsvImport.TrimAllPieces | script.js:104 | every field is the trimmed piece at its position |
| CsvImport.FieldsAreTrimmed | script.js:104 | every field is already trimmed and free of commas |
| CsvImport.ParseRowAccepts | script.js:104-106 | a line is accepted exactly when it has at least four fields and the first four are non-empty, and the fields it yields are non-empty, trimmed and free of commas |
| CsvImport.RowsOf | script.js:101-119 | no more rows than lines |
| CsvImport.RowsOfAppend | script.js:101-119 | lines are accepted one at a time, in order |
| CsvImport.RowsBeforeSkipsHeader | script.js:101-102 | reading up to index n with index 0 skipped gives the rows of lines 1 to n - 1 |
| CsvImport.RowsBeforeAll | script.js:101-102 | reading every line with index 0 skipped gives the rows after the header |
| CsvImport.CsvRowsAfterHeader | script.js:98-102 | whatever the first non-blank line holds, and however many blank lines precede it, it is never a record: the rows are those of the lines after it |
| CsvImport.CsvRowsTrailingNewline | script.js:98 | a line break at the end of the file adds no record |
| CsvImport.ParseFormatRow | script.js:104-106 | a row of clean fields, written as a line, is read back as itself |
| CsvImport.RowsOfFormatted | script.js:101-119 | lines written from clean rows are read back as those rows, in order |
| CsvImport.KeepNonBlankAll | script.js:98 | the filter keeps a list with no blank line as it is |
| CsvImport.CsvRoundTrip | script.js:98-119 | a header line followed by one line per clean row imports exactly those rows, in order |
| TargetProjection.Divide | script.js:179 | finite exactly for a non-zero divisor, and then the quotient times the divisor is the dividend; otherwise an infinity of the dividend's sign, or NaN for 0 / 0 |
| TargetProjection.TargetCalculation | script.js:172-191 | the no-grades message exactly for an empty list; the reachable and not-achievable messages quote the required grade of the formula, a reachable one in [0, 100], an unreachable one above 100 or +Infinity; the already-exceeded message quotes the current average |
| TargetProjection.Classification | script.js:179-191 | with grades and a non-zero exam count: success when 0 <= required <= 90, warning when 90 < required <= 100, error when required > 100, already exceeded when required < 0 |
| TargetProjection.NoRemainingExams | script.js:178-191 | with zero remaining exams: not achievable when the target is above the current average, already exceeded otherwise |
| TargetProjection.RequiredGradeReachesTarget | script.js:177-179 | scoring exactly the required grade on every remaining exam brings the overall average to the target |
| TargetProjection.NotAchievableScenario | script.js:177-187 | three grades averaging 70 with target 85 over 2 more exams need 107.5, which is not achievable |
| GradeBookApp.FreshGradeId | script.js:4 | the counter starts above every id of the stored grades |
| GradeBookApp.AppendedIdsFresh | script.js:108 | the appended records carry ids distinct from every earlier record and from each other, all below the advanced counter |
| GradeBookApp.SortKeepsIdBound | script.js:292 | re-sorting the grades keeps every id below the counter |
| GradeBookApp.GradeBook.constructor | script.js:3-16 | the ids stay below the counter; the grades are the stored grades re-sorted newest first; the badges are those of the unlock pass, over those grades, on the stored badges with the catalogue merged in |
| GradeBookApp.GradeBook.InitializeBadges | script.js:553-618 | the badge list becomes the catalogue merged into the previous badge list |
| GradeBookApp.GradeBook.MergeDefinitions | script.js:609-616 | the merge loop, entry by entry, yields the merged list |
| GradeBookApp.GradeBook.RenderAllPages | script.js:289-293 | the grade list becomes its stable newest-first re-sort, and the ids stay below the counter |
| GradeBookApp.GradeBook.CheckAndUnlockBadges | script.js:621-630 | the badges become those of the unlock pass over the old badges; the reported badges and the completion flag are the pass's own |
| GradeBookApp.GradeBook.UnlockAt | script.js:625-628 | one badge that does not throw: it is advanced in place, the badges after it are untouched, and it is reported exactly when it flipped |
| GradeBookApp.GradeBook.ReadLine | script.js:101-118 | one line after the header appends exactly its record with the next id when the line is accepted, and nothing otherwise |
| GradeBookApp.GradeBook.ReadLines | script.js:101-119 | the count equals the number of accepted lines after the header, and the grades gain exactly their records in line order with consecutive ids |
| GradeBookApp.GradeBook.AppendCsvRecords | script.js:98-119 | the existing grades are kept and the records of the accepted non-blank lines after the first are appended, with fresh ids and the count |
| GradeBookApp.GradeBook.ImportCsv | script.js:95-131 | the records are appended with fresh ids; with none, only the no-valid-data message is shown and grades and badges are unchanged; otherwise the success message follows, the grades are re-sorted newest first, and the unlock pass runs over the re-sorted list; a throwing pass shows the failure message instead of badge messages |

## Left out

- DOM rendering, navigation, event listeners, charts and canvas geometry, study tips and `showMessage` timers are presentation. The only trend-chart logic kept is the running-average loop.
- `FileReader`, the CSV MIME-type check and `localStorage` persistence are browser I/O. The constructor receives the stored lists. Saving is not modelled.
- The exam list, upcoming exams and days-until are not modelled: they depend on the current date and time-zone parsing.
- Manual grade entry (`handleManualGradeEntry`, script.js:137-163) is not modelled: it reads its fields from the form. It appends one record without trimming or checking them, saves, re-renders (which re-sorts the grades) and runs the unlock pass.
- `parseFloat` and `new Date` are parameters of the import. So a non-numeric grade, which becomes NaN in the source and is still accepted, is not distinguished from a number.
- A date text that does not parse gives an invalid `Date`. The comparator at script.js:644 then returns NaN, which the sort treats as "equal", so the order of the date sort depends on the engine. A `Day` is always a definite instant, so the model cannot express this.
- TargetProjection.TargetCalculation: the target and the remaining-exam count are a number and an integer, so neither can be NaN. In the source, `parseFloat` and `parseInt` (script.js:169-170) give NaN for an empty or non-numeric field. The required grade is then NaN, both comparisons fail, and the code shows the "already exceeded your target" message (script.js:188-190). The model does not represent this path.
- Scores are exact reals: IEEE rounding and `toFixed` formatting are not modelled.
- `Math.max` and `Math.min` of the running averages are not modelled: they only scale the chart.
- GradeBookApp.GradeBook.ReadLine: grade ids come from a counter. The source uses the clock plus a random fraction, so its uniqueness only holds with high probability.
- GradeBookApp.GradeBook.ReadLines: all records of one import share one creation time. The source reads the clock once per record. When the clock moves on during an import, the newest-first re-sort puts those records in reverse file order, where the model keeps file order.
- GradeBookApp.GradeBook.constructor: when the start-up unlock pass throws, `new GradeBookApp()` fails in the source. The model's constructor still returns the object, with the badges the pass left, and drops the completion flag.
- Badges.Unlock: one earning time serves the whole pass. The source reads the clock once per earned badge.
- Statistics.SubjectAverages: a subject named like an `Object.prototype` member, such as `constructor`, is not modelled. In the source it breaks the grouping object.
- Of the re-sort in the recent-activity list, only its effect on the grade list's order is modelled. The first three entries it shows are presentation.
- A failure while re-rendering the pages inside the import's `try` block is not modelled, because rendering is left out.

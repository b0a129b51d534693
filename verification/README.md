# Timetable schedule engine in Dafny

This project models the schedule engine of the weekly timetable page `script.js`:

- **The fixed grid.** Nineteen half-hour time labels run from "09:00" to "18:00", over five weekdays. `timeToMinutes` converts a label to minutes.
- **The store.** The one list of class entries changes in three ways:
  - a submission (`handleSubmit`) appends an entry, after the time-order check and the overlap check, and gives it a colour;
  - the edit flow (`editClass`) removes an entry by id;
  - `deleteClassByName` removes every entry of a course.
- **The three views computed from the list:**
  - the grid cell lookup of `renderTimetable`;
  - the grouping by course name of `renderClassList`;
  - the totals of `updateSummary`.

The source compares time labels as JavaScript strings. The model does the same with `TimeGrid.StrLess`, which is JavaScript's string `<`: a proper prefix is smaller, and otherwise the first differing character decides. `TimeGrid.LabelOrder` proves that on zero-padded "HH:MM" labels this order is the order of `timeToMinutes`.

The store is the class `Schedule.Timetable`. Its field `classes` is reassigned by the methods `Submit`, `EditClass` and `DeleteClassByName`. Each method is tied to a function of the old list, and the properties are proved about those functions:

- `Judge` and `AfterSubmit` for a submission;
- `FindById` and `WithoutId` for an edit;
- `WithoutName` for a removal by name.

Two views are methods with loops, as in the source:

- `Projection.RenderTimetable` builds the grid with two nested loops, proved against `Projection.CellAt`.
- `Grouping.GroupByName` fills the groups in one pass, calling `Grouping.RecordEntry` for the body of the `forEach`, proved against `Grouping.GroupOf` and `Grouping.DistinctNames`.

Inputs that come from the browser become parameters:

- the answer to a `confirm` prompt is `confirmed`;
- the `Date.now()` id is `id`;
- the parsed form is a `Schedule.Form`, whose credit is `None` where `parseInt` gave NaN.

Three behaviours that may look unintended are noted here; the first two are modelled as the code has them:

- total credits are summed per entry, so a course with two times counts twice;
- an edit removes the entry as soon as it starts;
- `editClass` does not refresh the summary, so the totals shown keep counting the removed entry until the next add or delete. The model computes the summary of the current list.

Modules: `Wrappers` (Option), `Seqs` (first-match search and filtering over sequences), `TimeGrid`, `Schedule`, `Projection`, `Grouping`, `Summary`.

## Model

| member | source | states |
|---|---|---|
| TimeGrid.StrLess | script.js:86-87 | JavaScript's string `<`; a string never comes before itself (with `StrLessTransitive`, `StrLessAsymmetric`, `StrLessTotal` and `ProperPrefixIsLess` it is a strict total order) |
| TimeGrid.Le | script.js:86 | JavaScript's `a <= b`, defined as `!(b < a)`, holds exactly when the strings are equal or `a` comes first |
| TimeGrid.Ge | script.js:187 | JavaScript's `a >= b`, defined as `!(a < b)`, holds exactly when the strings are equal or `b` comes first |
| TimeGrid.StrLessAsymmetric | script.js:86-87 | of two strings at most one comes before the other |
| TimeGrid.StrLessConnected | script.js:187 | two strings are equal or one comes before the other |
| TimeGrid.ProperPrefixIsLess | script.js:86-87 | a proper prefix comes before the longer string |
| TimeGrid.StrLessTransitive | script.js:86-87 | string `<` is transitive |
| TimeGrid.StrLessTotal | script.js:187 | two different strings are ordered one way or the other, so `>=` on different labels is `>` |
| TimeGrid.LeLessTrans | script.js:86-87 | `a <= b` and `b < c` give `a < c` |
| TimeGrid.TimeToMinutes | script.js:268-271 | `timeToMinutes`: on a clock label the result lies in the label's hour, between 60·HH and 60·HH + 59; `LabelOrder` and `SlotMinutes` carry its other properties |
| TimeGrid.NumeralBound | script.js:268-271 | a string read as a base-ten numeral (separators as 0) is below 10 to the power of its length |
| TimeGrid.StrLessIsNumeralLess | script.js:268-271 | on strings of the same shape, string order is the order of their numerals |
| TimeGrid.LabelsSameShape | script.js:268-271 | two "HH:MM" labels have the same shape, digits and separator in the same places |
| TimeGrid.LabelNumeral | script.js:268-271 | the numeral of "HH:MM" is 1000·HH + MM |
| TimeGrid.LabelOrder | script.js:268-271 | on labels with minutes below 60, `a < b` as strings exactly when `timeToMinutes(a) < timeToMinutes(b)` |
| TimeGrid.SlotMinutes | script.js:7-11 | slot i is a well-formed label worth 540 + 30·i minutes, so consecutive slots are 30 minutes apart and increasing |
| TimeGrid.SlotOrder | script.js:7-11 | on the slot labels, string order is index order |
| TimeGrid.ClockOrder | script.js:7-11 | two labels worth 540 + 30·i and 540 + 30·j minutes compare as i and j |
| TimeGrid.SlotLabel | script.js:7-11 | every slot label is on the half-hour grid from 09:00 to 18:00 |
| TimeGrid.SameMinuteSameLabel | script.js:268-271 | two well-formed labels with the same minutes are the same label |
| TimeGrid.OnGridIsSlot | script.js:7-11 | every label on the half-hour grid from 09:00 to 18:00 is one of the slot labels |
| TimeGrid.SlotSpan | script.js:7-11 | between two grid labels, the earlier first, lie 30 to 540 minutes, a multiple of 30 |
| TimeGrid.SlotsAreDistinct | script.js:7-11 | each slot label occurs once |
| Seqs.FindIndex | script.js:84-88 | `find`'s position: none exactly when no element matches, else the first match |
| Seqs.Find | script.js:193-196 | `find`: undefined exactly when no element matches, else the first matching element |
| Seqs.FindIndexSnoc | script.js:121-138 | appending an element does not move an existing first match, and a new first match is the appended element |
| Seqs.Filter | script.js:250 | `filter` keeps exactly the matching elements, is no longer than its input, and returns the input when every element matches |
| Seqs.FilterIsOrderedSelection | script.js:250 | `filter` keeps the matching elements with their multiplicities, in their original order |
| Seqs.FilterConcat | script.js:260 | filtering a concatenation concatenates the filtered parts |
| Seqs.FilterOfFilter | script.js:260 | filtering twice with a weaker condition is filtering once |
| Seqs.FilterComplementLength | script.js:260 | a filter and its complement split the list's length |
| Schedule.Conflicts | script.js:193-196 | the overlap test holds exactly when the days agree and each span starts, in string order, before the other ends; `ConflictIsSymmetric` and `ConflictIsMinuteOverlap` carry its properties |
| Schedule.ConflictIsSymmetric | script.js:193-196 | a conflicts with b exactly when b conflicts with a |
| Schedule.ConflictIsMinuteOverlap | script.js:193-196 | on well-formed labels, the overlap test is half-open interval overlap of minutes on the same day |
| Schedule.TouchingSpansDoNotConflict | script.js:193-196 | 09:00-10:00 and 10:00-11:00 on one day do not conflict |
| Schedule.SharedHalfHourConflicts | script.js:193-196 | 09:00-10:30 and 10:00-11:00 on one day conflict |
| Schedule.FindConflict | script.js:193-196 | none exactly when no entry overlaps the candidate, else the first overlapping entry in list order |
| Schedule.Judge | script.js:186-202 | TimeOrderError exactly when start >= end; a declined conflict only without confirmation, naming the first overlapping entry in list order; accepted exactly when start < end and the user confirmed or nothing overlaps |
| Schedule.ColourFor | script.js:205-206 | the colour is in 1..8 when all colours are, equals the colour of every existing entry of the course when those entries already share one colour (the store invariant keeps this), and is length mod 8 + 1 for a new course |
| Schedule.NewEntry | script.js:204-218 | the new entry keeps every colour in 1..8 and every course in one colour when the list already does |
| Schedule.AfterSubmit | script.js:186-220 | the list after a submission keeps the old list as its prefix and grows by one entry exactly when `Judge` accepts, otherwise it is unchanged; `SubmitAppendsAtEnd` gives the new entry's values |
| Schedule.SubmitAppendsAtEnd | script.js:204-220 | a submission keeps the earlier entries in place and in order; it adds one entry exactly when accepted, with the form's values, the given id and a colour in 1..8 shared with its course |
| Schedule.SubmitKeepsInvariant | script.js:176-229 | a submission of grid labels keeps every entry on the grid with start < end, colours in 1..8 and one colour per course |
| Schedule.FilterKeepsInvariant | script.js:250 | a removal keeps the store invariant |
| Schedule.UnconfirmedSubmitKeepsDisjoint | script.js:198-202 | without confirmation, a submission never adds an overlap to a list without overlaps |
| Schedule.FindById | script.js:233-234 | the edit lookup finds the first entry in list order with that id, and none exactly when no entry has it |
| Schedule.WithoutName | script.js:260 | `deleteClassByName`'s filter keeps exactly the entries of other courses; `RemoveByNameRemovesExactlyThatCourse` adds order and length |
| Schedule.WithoutId | script.js:250 | `editClass`'s filter keeps exactly the entries with another id; `RemoveByIdRemovesExactlyThatId` adds order and length |
| Schedule.RemoveByNameRemovesExactlyThatCourse | script.js:260 | removal by name keeps exactly the other courses' entries, in order; the length drops by that course's entry count; nothing changes when the course is absent |
| Schedule.RemoveByNameIdempotent | script.js:260 | removing a course twice equals removing it once |
| Schedule.RemoveByNameKeepsOtherCourses | script.js:260 | every other course keeps its entries unchanged |
| Schedule.RemoveByIdRemovesExactlyThatId | script.js:250 | the edit removal keeps exactly the entries with another id, in order, and changes nothing when the id is missing |
| Schedule.Timetable.constructor | script.js:2 | the store starts empty and valid |
| Schedule.Timetable.Submit | script.js:176-229 | the verdict is `Judge` of the old list; the new list is the old list plus the new entry when accepted, else unchanged; the store invariant is kept |
| Schedule.Timetable.EditClass | script.js:232-254 | returns the first entry with the id, if any, and the list without that id's entries; the store invariant is kept |
| Schedule.Timetable.DeleteClassByName | script.js:257-265 | after a confirmation the list loses exactly that course; without one it is unchanged; the store invariant is kept |
| Projection.Covers | script.js:84-88 | an entry covers a cell exactly when the day agrees and the row lies in its half-open span: equal to or after the start, before the end |
| Projection.CellAt | script.js:84-99 | a cell is empty exactly when no entry covers it; otherwise it holds the first covering entry in list order, labelled exactly when its start is the row |
| Projection.RenderTimetable | script.js:68-108 | the grid has 5 columns of 19 cells, and the cell of weekday d at row t is `CellAt(d, TimeSlots[t])` |
| Projection.GridIsDetermined | script.js:68-108 | two grids of the same list are equal |
| Projection.SharedCellIsConflict | script.js:84-88 | two entries covering the same cell conflict |
| Projection.DisjointCellShowsItsEntry | script.js:84-99 | in a list without overlaps, a covered cell shows the entry covering it |
| Projection.DisjointEntryLabelledOnce | script.js:94-99 | in a list without overlaps, an entry's label is drawn in exactly one row, its start |
| Projection.ShadowedStartHidesLabel | script.js:84-99 | with 09:00-10:30 listed before 10:00-11:00 on one day, the second entry's label appears in no cell |
| Grouping.DistinctNames | script.js:121-138 | the group names are exactly the course names, each once |
| Grouping.GroupOf | script.js:121-138 | the group of a course carries its name and one time and one id per entry of the course; `GroupDescribesCourse` adds the first entry's room, credit and colour and the order |
| Grouping.NamedOfAbsentName | script.js:123-132 | a name no entry has selects no entries |
| Grouping.GroupOfSnocOther | script.js:133-137 | appending an entry of another course leaves a group unchanged |
| Grouping.GroupOfSnocSame | script.js:133-137 | appending an entry of a listed course adds its time and id to that group |
| Grouping.GroupOfSnocNew | script.js:123-137 | the first entry of a course starts its group with that entry's values, time and id |
| Grouping.GroupDescribesCourse | script.js:121-138 | a course's group takes its name, room, credit and colour from the course's first entry, and has one time and one id per entry of the course, in list order |
| Grouping.FirstNamedIsFirstOccurrence | script.js:123-132 | the first entry of a course's sub-list is the course's first entry in the list |
| Grouping.DistinctNamesInFirstOccurrenceOrder | script.js:121-138 | groups come in the order of their courses' first entries |
| Grouping.RecordExtendsGroups | script.js:122-138 | one step of the pass turns the groups of a prefix into the groups of the prefix one entry longer |
| Grouping.RecordExtendsPrefix | script.js:122-138 | the same step, stated for the next entry of the list |
| Grouping.RecordKnownName | script.js:133-137 | the step for an entry of a course that already has a group |
| Grouping.RecordNewName | script.js:123-137 | the step for the first entry of a course |
| Grouping.PushThenRecord | script.js:123-137 | for a name without a group, pushing a new group and then adding the entry to it is the recorded step |
| Grouping.UpdateThenRecord | script.js:133-137 | for a name with a group, adding the entry to that group is the recorded step |
| Grouping.RecordEntry | script.js:122-138 | the `forEach` body turns the groups into `Record` of them and the entry |
| Grouping.GroupByName | script.js:121-138 | the pass yields one group per distinct name, in first-occurrence order, each equal to `GroupOf` that name |
| Grouping.SameNameCollapses | script.js:121-138 | two entries of one course give one group with two times |
| Summary.RoundedHours | script.js:167 | the hours shown are the whole number nearest to minutes/60, a half rounding up |
| Summary.DistinctCardinality | script.js:157 | a sequence without repeats has as many distinct elements as entries |
| Summary.CourseCount | script.js:157 | the number of distinct names equals the number of groups in the class list and is at most the number of entries |
| Summary.TotalCredits | script.js:158 | the per-entry credit sum is not negative when no credit is; `TotalCreditsConcat`, `CreditsAfterSubmit` and `CreditsAfterRemoveByName` carry its other properties |
| Summary.TotalMinutes | script.js:159-163 | the summed durations are not negative when no duration is; `TotalMinutesConcat` and `MinutesBounds` carry its other properties |
| Summary.Summarize | script.js:156-167 | the course count is at most the entry count, and the hours are the total minutes to the nearest hour, a half rounding up |
| Summary.TotalCreditsConcat | script.js:158 | the credit total adds up over a concatenation, per entry |
| Summary.CreditsAfterSubmit | script.js:158 | an accepted submission adds its credit, or 0 when missing; any other verdict leaves the total alone |
| Summary.CreditsAfterRemoveByName | script.js:158 | removing a course subtracts exactly the credits of its entries |
| Summary.CreditsCons | script.js:158 | the credit total is the first entry's credit plus the rest's |
| Summary.TotalMinutesConcat | script.js:159-163 | the minute total adds up over a concatenation, per entry |
| Summary.WellTimedDuration | script.js:159-163 | an entry on the grid with start < end lasts 30 to 540 minutes, a multiple of 30 |
| Summary.MinutesBounds | script.js:159-163 | for a valid store, the total minutes lie between 30 and 540 per entry and are a multiple of 30 |
| Summary.SpanMinutesBounds | script.js:159-163 | the same bounds, for any list of half-hour spans |
| Summary.OneEntryTotals | script.js:156-167 | a list of one entry has that entry's credit and duration as totals and one course |
| Summary.TwoEntryTotals | script.js:156-167 | two entries of one course add their credits and durations and count as one course |
| Summary.ScenarioFirstEntry | script.js:156-167 | "Algorithms", Monday 09:00-10:30, 3 credits, added to an empty list gives 3 credits, 1 course and 2 hours |
| Summary.WednesdayAccepted | script.js:186-202 | the Wednesday 13:00-14:30 lecture is accepted against any list of Monday entries |
| Summary.SecondEntryTotals | script.js:156-167 | the two lectures give 6 credits, 1 course and 180 minutes, shown as 3 hours |
| Summary.ScenarioSecondEntry | script.js:156-167 | a second entry of the same course on Wednesday gives 6 credits, 1 course with 2 times, and 3 hours |
| Summary.ScenarioDeclinedOverlap | script.js:193-202 | an unconfirmed 10:00-11:00 Monday entry against a 09:00-10:30 Monday entry is declined, and the list is unchanged |

## Left out

- DOM construction and HTML templating in `renderTimetable` and `renderClassList`. This includes the "empty list" message, the click handlers and the display strings (day name plus "start~end"). The model keeps each time as an `Occurrence` record and the grid as cells.
- Persistence: `localStorage`, the JSON serialisation in `loadClasses`/`saveClasses`/`clearStorageData`, and the clear at start-up. The store starts empty, which is what the clear at start-up produces.
- The `alert` and `confirm` dialogs and the event wiring. Each confirmation is a `confirmed` parameter.
- Form field reads and `parseInt`. A `Schedule.Form` carries the parsed values; a credit that did not parse is `None`.
- The stale summary after `editClass` (script.js:250-253 re-renders the grid and the class list but does not call `updateSummary`). `Summary.Summarize` is a function of the current list, so the model does not capture the shown totals lagging behind the list between an edit's start and the next add or delete.
- The form refill in `editClass` and the edit button styling and `editingId`. `Schedule.Timetable.EditClass` returns the entry; the page copies its name, room, day and times into the form, but not its credit. The rest is page state that no model operation reads.
- `Date.now()`. Ids are parameters, and nothing assumes they are unique, because the code does not ensure it.
- Schedule.Timetable.Submit: requires the form's times to be grid labels. This is an assumption about the form, whose markup is not part of this model; `script.js` reads `timeSlots` only to draw the grid. `Judge` and `AfterSubmit` take any strings; only the store invariant needs the assumption.
- TimeGrid.TimeToMinutes: defined only for zero-padded "HH:MM" strings. JavaScript also reads other shapes, such as "9:30" as 570 and "09:00:00" as 540, and gives NaN for strings such as "10"; neither is modelled.
- TimeGrid.StrLess: compares Dafny characters, not UTF-16 code units. The labels are ASCII, so this is the same there; names with characters outside the BMP are never compared.
- Grouping.GroupByName: models the dictionary as insertion-ordered groups. JavaScript lists integer-like keys (a course named "12") first, and a name such as "constructor" hits an inherited property; neither is modelled.
- Summary.RoundedHours: integer arithmetic replaces `Math.round` on a float. It computes floor((m + 30) / 60), which is what `Math.round(m / 60)` gives when the float division is exact.
- Summary.TotalCredits and Summary.TotalMinutes: the sums are unbounded integers. JavaScript sums doubles, which lose exactness past 2^53; that loss is not modelled.
- A day value that is not a number (`parseInt` giving NaN) is not modelled. Days are integers.

# Turnos — a verified model of the monthly shift planner

Turnos plans a month of air-traffic-control shifts for one unit. The roster
lists people ("controladores") with a role: chief of the unit, supervisor,
instructor, operator, trainee or attached staff. Every date of the month has
three shifts: A (morning), B (afternoon) and C (night). Each shift has a
required headcount. The default is 3 on A and B and 2 on C, and a coverage
override can change it for one date and shift. Supervisors are required on
A and B.

The planner (`generateMonthlySchedule`) walks the dates in order and, on each
date, the shifts A, B, C in order. For each cell it:

1. places the forced assignments, reporting unknown ids and unavailable people;
2. finds a supervisor when the shift needs one;
3. fills up to the required headcount with the best-ranked available person;
4. repairs a trainee left without an instructor;
5. reports any shortfall.

A person is available for a cell when no check fails. The checks are: a role
rule, a weekday block, a date block, a vacation, already working that date,
and the morning after a night shift. Candidates are ranked by a role priority,
a fairness score built from the shifts already counted, and their name. The
result is a per-date plan and a per-person map from date to shift. From these
`computeStats` tallies every person's shifts.

Around the planner the model also covers:

- the page-level helpers of the screen: month clamping, pagination, the
  calendar grid, the month filters applied to the data before planning, and
  removing a person;
- the demo data: empty data, the default roster with its `ctrl-NN` ids, and
  the personal condition seeds;
- the spreadsheet import's readers: shift cells, role labels and sheet names.

Modules, one per file:

- `Common`: sequence helpers (Filter, IndexOf, RemoveFirst, NoDuplicates).
- `Text`: digits, decimal rendering and parsing, left padding, code-unit string
  order, `includes`/`startsWith`/`split`, case mapping.
- `Calendar`: Gregorian dates as integers, weekday, previous day, the month's
  dates, ISO `YYYY-MM-DD` rendering.
- `Types`: the records of `src/types.ts`, the shift table, roster lookup.
- `Eligibility`: counters, role priority, fairness score, `canAssign`,
  `pickBestCandidate`, `findReplaceableController`.
- `Scheduler`: the counter table and the shift map the planner updates,
  carried as one `Tables` value through its per-cell steps; the month loop;
  the month-wide properties.
- `Stats`: `countVacationDays` and `computeStats`.
- `AppHelpers`: the pure helpers of `src/App.tsx`.
- `Defaults`: `src/defaults.ts`.
- `ExcelParse`: the parsers of `src/excel.ts`.

## Model

| member | source | states |
|---|---|---|
| Common.Filter | src/App.tsx:356-365 | The result keeps exactly the elements that pass the test, and never grows. |
| Common.FilterIdempotent | src/App.tsx:356-365 | Filtering twice with the same test is filtering once. |
| Common.RemoveFirstMembers | src/scheduler.ts:581-615 | Removing an id from a list without repeats leaves exactly the other ids, still without repeats. |
| Common.RemoveFirstAfterAppend | src/scheduler.ts:546-615 | Appending an id and then removing it gives back the original list. |
| Text.DecimalOfNatToString | src/scheduler.ts:646-651 | `Number(String(n))` is `n` for every natural number. |
| Text.PaddedIsFixed | src/scheduler.ts:646-651 | Left-padding with zeros to width `w` yields the `w`-digit rendering. |
| Text.ZeroPaddedValue | src/App.tsx:1781-1784 | Zero padding does not change the number a digit string denotes. |
| Text.FixedDigitsOrder | src/scheduler.ts:653-655 | Among fixed-width digit strings, string order is numeric order and equal strings mean equal numbers. |
| Text.StrLessTransitive | src/scheduler.ts:653-655 | JavaScript's code-unit string order is transitive. |
| Text.StrLessTrichotomy | src/scheduler.ts:653-655 | Any two strings are equal or ordered one way. |
| Text.StrLessConcat | src/scheduler.ts:653-655 | Comparing two concatenations compares the heads first, then the tails. |
| Text.SplitJoined | src/App.tsx:1781-1784 | `split` on a separator the head lacks splits off exactly that head. |
| Calendar.DaysInMonth | src/scheduler.ts:59-60 | A month has 28 to 31 days, and February has 29 exactly in leap years. |
| Calendar.PrevDay | src/scheduler.ts:536-541 | The previous day is a valid date, before the given one, with no valid date between them. |
| Calendar.PrevDayNumber | src/scheduler.ts:636-640 | Stepping back one day lowers the day number by exactly one, across month and year ends. |
| Calendar.WeekdayAnchors | src/scheduler.ts:627-633 | The weekday formula gives the calendar's weekday on known dates (1970-01-01 a Thursday, 2000-02-29 a Tuesday, 2025-03-01 a Saturday, a weekend day). |
| Calendar.PrevDayWeekday | src/scheduler.ts:627-629 | The previous day's weekday is the one before, cyclically. |
| Calendar.BuildMonthDates | src/scheduler.ts:59-65 | The month's dates number DaysInMonth, the i-th is day i+1. |
| Calendar.MonthDatesExactly | src/scheduler.ts:59-65 | A date is listed exactly when it is a valid date of that year and month. |
| Calendar.MonthDatesIncreasing | src/scheduler.ts:59-65 | The listed dates strictly increase and never repeat. |
| Calendar.MonthDatesConsecutive | src/scheduler.ts:59-65 | Each listed date after the first is the day after its predecessor. |
| Calendar.MonthStartPrevOutside | src/scheduler.ts:536-541 | The day before the 1st is not a date of the month. |
| Calendar.IsoDateShape | src/scheduler.ts:646-651 | An ISO date is a four-digit year, a dash, two-digit month, a dash and a two-digit day: ten characters. |
| Calendar.IsoOrderAgrees | src/scheduler.ts:653-655 | Comparing ISO date strings orders dates chronologically, and equal strings mean equal dates. |
| Calendar.IsoDateFields | src/App.tsx:1781-1784 | Splitting an ISO date on `-` gives back its year, month and day texts. |
| Types.Find | src/scheduler.ts:117 | Lookup by id fails exactly when no roster entry has the id; otherwise it returns the first roster entry with that id. |
| Types.FindUnique | src/scheduler.ts:117 | With distinct ids, lookup by a person's id returns that person. |
| Eligibility.Bumped | src/scheduler.ts:546-579 | Taking a shift adds one to the total and to that shift, and to weekends on a weekend; other shifts unchanged. |
| Eligibility.Dropped | src/scheduler.ts:581-615 | Giving a shift back takes one off the same counts, never below zero. |
| Eligibility.DroppedUndoesBumped | src/scheduler.ts:546-615 | Counts stay non-negative, and dropping a shift just taken restores the counter. |
| Eligibility.RolePriority | src/scheduler.ts:462-488 | Priority lies in 0..6 and is 0 exactly for an instructor when instructors are preferred. |
| Eligibility.RolePriorityDistinct | src/scheduler.ts:462-488 | Without the instructor preference, distinct roles get distinct priorities. |
| Eligibility.FairnessAfterShift | src/scheduler.ts:657-673 | Taking one more shift raises a person's score by 24, plus 16 on the same shift, plus 8 on a weekend counted. |
| Eligibility.CanAssign | src/scheduler.ts:490-544 | Available exactly when no check fails; otherwise the reason given fails and every earlier check passes. |
| Eligibility.UnavailableStays | src/scheduler.ts:490-544 | Someone unavailable stays unavailable as the shift map only fills. |
| Eligibility.KeyLessAsymmetric | src/scheduler.ts:419-458 | The candidate order never ranks two people before each other. |
| Eligibility.KeyLessBelow | src/scheduler.ts:419-458 | Anyone ranked before a candidate not ranked after another is ranked before that other one. |
| Eligibility.FirstMinimal | src/scheduler.ts:409-460 | No result exactly when nobody qualifies; otherwise a qualifying element that none outranks, listed first among its equals. |
| Eligibility.PickBestCandidate | src/scheduler.ts:392-460 | No pick exactly when nobody is available; otherwise an available person, outranked by nobody available, the first of equals in roster order. |
| Eligibility.FindReplaceableController | src/scheduler.ts:364-390 | No result exactly when nobody listed is replaceable; otherwise the first listed person who is neither an instructor nor the supervisor of a shift that needs one. |
| Scheduler.RequiredForOverride | src/scheduler.ts:72-76 | The headcount is the last override listed for the date and shift, else the shift's default. |
| Scheduler.ForcedIdsMembers | src/scheduler.ts:78-86 | The ids forced onto a cell are exactly those of the forced assignments for that date and shift. |
| Scheduler.CountUnknownConflictsConcat | src/scheduler.ts:116-146 | Unknown-id reports add up over concatenated conflict lists. |
| Scheduler.AssignThenUnassign | src/scheduler.ts:546-615 | Assigning and then unassigning a person restores the id list, the shift map and the counters. |
| Scheduler.PlaceAllAdd | src/scheduler.ts:546-579 | Placing one more person is one more cell set on the map. |
| Scheduler.PlaceAllRemove | src/scheduler.ts:581-615 | Unplacing a person empties just that person's cell. |
| Scheduler.AvailableInCell | src/scheduler.ts:490-544 | During a cell, a person is available exactly when not yet placed on it and available before it began. |
| Scheduler.PlaceableWhenAvailable | src/scheduler.ts:490-544 | Whoever is available mid-cell was placeable when the cell began. |
| Scheduler.InitialTables | src/scheduler.ts:88-100 | Zeroed counters and an empty cell per month date, for every roster id; the tables are ready for planning. |
| Scheduler.Assign | src/scheduler.ts:546-579 | An unlisted person is appended, gets the shift on the date, and has the shift counted; a listed one changes nothing. |
| Scheduler.Unassign | src/scheduler.ts:581-615 | A listed person is removed, their cell emptied, and the shift taken off their counter; otherwise nothing changes. |
| Scheduler.AssignAvailable | src/scheduler.ts:546-579 | Placing an available roster member appends them and keeps the cell invariant. |
| Scheduler.SwapIn | src/scheduler.ts:236-262 | Replacing one placed person by an available one keeps the cell invariant and the listed people are the others plus the newcomer. |
| Scheduler.HonourOne | src/scheduler.ts:116-146 | An unknown forced id adds one unknown-id report and places nobody; a known one is placed or adds one unavailable report; unknown-id reports keep matching the unknown ids so far. |
| Scheduler.HonourForced | src/scheduler.ts:116-146 | Places at most the forced ids, one unknown-id report per unknown id, and only forced-step reports. |
| Scheduler.EnsureSupervisor | src/scheduler.ts:148-175 | Adds at most one person; reports no supervisor only when the cell needs people; with distinct ids a shift needing one ends with a supervisor or the report. |
| Scheduler.OpenCell | src/scheduler.ts:116-175 | The forced step then the supervisor step: at most the forced ids plus one placed, their reports as promised by each step. |
| Scheduler.FillToRequired | src/scheduler.ts:177-207 | Only appends, never beyond the headcount; stopping short means nobody on the roster was available. |
| Scheduler.RepairInstructor | src/scheduler.ts:209-270 | Keeps the cell invariant, never beyond the headcount, keeps a needed supervisor; with distinct ids a trainee ends with an instructor or the missing-instructor report. |
| Scheduler.CompleteCell | src/scheduler.ts:177-270 | The fill then the repair: never beyond the headcount, a needed supervisor kept, a trainee with an instructor or the report, and a short cell has nobody available left. |
| Scheduler.CellStart | src/scheduler.ts:108-115 | An empty cell on ready tables satisfies the cell invariant. |
| Scheduler.CellEnd | src/scheduler.ts:108-276 | A finished cell leaves ready tables and the map before it with exactly the listed people placed, each on the roster, placeable, and listed once. |
| Scheduler.FillCell | src/scheduler.ts:108-276 | The four steps of a cell, from ready tables: the map gains exactly the listed people, each placeable beforehand, with every step's guarantee. |
| Scheduler.PlanShift | src/scheduler.ts:108-284 | One cell's plan: only placeable people, no repeats, headcount and forced bound, supervisor and trainee rules, one trailing shortfall report, and a short cell had nobody else available. |
| Scheduler.PlanDay | src/scheduler.ts:102-290 | A date's three plans in order A, B, C, each keeping its promises against the map it left, with the right date and weekday label. |
| Scheduler.InstructorNowPlaced | src/scheduler.ts:225-262 | Placing an instructor satisfies the instructor check. |
| Scheduler.SupervisorSurvives | src/scheduler.ts:364-390 | Displacing a replaceable person never removes the supervisor a shift needs. |
| Scheduler.MaximalStays | src/scheduler.ts:177-207 | A cell left short stays short of available people as later cells fill the map. |
| Scheduler.DayFromShifts | src/scheduler.ts:102-290 | Three cells planned in turn on an empty date make a finished date. |
| Scheduler.AssemblePlanFacts | src/scheduler.ts:108-284 | The steps' own promises together give the promises of the cell's plan. |
| Scheduler.UnknownCount | src/scheduler.ts:116-276 | Only the forced step reports unknown ids, so their count is the count of unknown forced ids. |
| Scheduler.MonthStep | src/scheduler.ts:102-290 | A date planned on top of the earlier dates extends the month's guarantees. |
| Scheduler.GenerateMonthlySchedule | src/scheduler.ts:67-297 | One plan per date of the month, in order; the map has a row per person and a cell per date, and lists exactly the plans' people. |
| Scheduler.OneShiftPerDate | src/scheduler.ts:490-544 | Nobody is listed on two shifts of the same date. |
| Scheduler.RestAfterNight | src/scheduler.ts:536-541 | Nobody listed on a night shift is listed on the next morning's shift. |
| Scheduler.NoChiefOnNight | src/scheduler.ts:490-544 | With distinct ids, no chief of the unit works a night shift. |
| Scheduler.ListedWereFree | src/scheduler.ts:490-544 | Everyone listed was free of weekday and date blocks for that shift and not on vacation. |
| Stats.Count | src/scheduler.ts:299-347 | A tally counts at most the dates. |
| Stats.CountZero | src/scheduler.ts:299-347 | A tally counts zero exactly when it holds on none of the dates. |
| Stats.CountStep | src/scheduler.ts:299-347 | One more date adds one exactly when the tally holds on it. |
| Stats.CountByShift | src/scheduler.ts:299-347 | The worked dates split into A, B and C dates. |
| Stats.CountMonotone | src/scheduler.ts:299-347 | A stricter tally never counts more. |
| Stats.StatsOf | src/scheduler.ts:299-347 | Total equals A+B+C and the worked dates; weekend and holiday shifts do not exceed the total; vacation days do not exceed the dates. |
| Stats.CountVacationDays | src/scheduler.ts:617-625 | Counts the dates some vacation of the person covers. |
| Stats.VacationCountIgnoresMap | src/scheduler.ts:617-625 | Vacation days do not depend on the schedule. |
| Stats.StatsFor | src/scheduler.ts:299-347 | One pass over the dates yields that person's record. |
| Stats.ComputeStats | src/scheduler.ts:299-347 | One record per roster id; the last roster entry with an id writes its record. |
| Stats.EveryoneHasStats | src/scheduler.ts:299-347 | With distinct ids, every person gets their own record. |
| AppHelpers.ClampMonth | src/App.tsx:1685-1691 | The month is in 1..12: the input when it is, the nearer bound otherwise, and 1 for a non-integer. |
| AppHelpers.CeilDiv | src/App.tsx:1700-1725 | The page count is the least that covers all items. |
| AppHelpers.Paginate | src/App.tsx:1700-1725 | The page is clamped into range: kept when in range, 1 below it, the last page above it; an empty list gives no items; otherwise its items are the slice between its first and last item numbers, at most a page long; both numbers are 0 exactly when empty. |
| AppHelpers.ItemOnItsPage | src/App.tsx:1700-1725 | Item i appears on page i / pageSize + 1, at its place. |
| AppHelpers.BuildCalendarCells | src/App.tsx:1769-1779 | Blanks up to the first weekday, then the month's dates, then blanks to a whole number of weeks. |
| AppHelpers.GridColumnIsWeekday | src/App.tsx:1769-1779 | Each date's column in the grid is its weekday. |
| AppHelpers.ActiveMonthOfIsoDate | src/App.tsx:1781-1784 | An ISO date is in the active month exactly when its year and month are the active ones. |
| AppHelpers.RangeOverlapOfIsoDates | src/App.tsx:1786-1793 | An ISO date range overlaps the month exactly when it reaches its first day and starts by its last day. |
| AppHelpers.RangeOverlapMeansSharedDate | src/App.tsx:1786-1793 | An overlapping range shares at least one date with the month. |
| AppHelpers.MatchesMonthRule | src/App.tsx:1795-1810 | A block applies when its month and year are unset or equal to the active ones. |
| AppHelpers.RemoveController | src/App.tsx:356-365 | Drops the person and everything that refers to them, and keeps everything else. |
| AppHelpers.FilterMembers | src/App.tsx:356-365 | Filtering keeps an element exactly when it passes. |
| AppHelpers.RemoveControllerTwice | src/App.tsx:356-365 | Removing the same person twice is removing them once. |
| Defaults.CreateEmptyData | src/defaults.ts:37-50 | Data for the given month with no roster, constraints, holidays or notes. |
| Defaults.Dedup | src/defaults.ts:149-161 | No repeats, and exactly the input's members. |
| Defaults.UniqueShiftList | src/defaults.ts:149-161 | The loop keeps each shift's first occurrence, as Dedup does. |
| Defaults.DedupFirstOccurrenceOrder | src/defaults.ts:149-161 | The kept shifts appear in the order of their first occurrences. |
| Defaults.DedupOfDistinct | src/defaults.ts:149-161 | A list without repeats is returned unchanged. |
| Defaults.DedupIdempotent | src/defaults.ts:149-161 | Removing repeats twice is removing them once. |
| Defaults.Prepare | src/defaults.ts:107-113 | Each shift list keeps exactly the given list's members without repeats, and a missing one becomes empty; a given attached-staff status is kept, a missing one defaults to the role. |
| Defaults.FindMatch | src/defaults.ts:115-118 | No index exactly when no name contains the pattern; otherwise the first that does. |
| Defaults.Patched | src/defaults.ts:127-135 | The patched lists have the patch's members without repeats, and a patched attached-staff status takes effect; unpatched fields are kept. |
| Defaults.ApplyRule | src/defaults.ts:115-136 | Only the first entry whose name matches changes, to its patched form; with no match nothing changes. |
| Defaults.ApplyRules | src/defaults.ts:115-138 | Applying the rules keeps the roster's length, people and tidiness. |
| Defaults.UnmatchedUntouched | src/defaults.ts:115-138 | An entry no rule matches comes out as it went in. |
| Defaults.ApplyPersonalConditionSeeds | src/defaults.ts:106-139 | The loop yields the tidied roster with each rule applied in turn. |
| Defaults.SeedIdNumber | src/defaults.ts:78 | Seed id `i` is `ctrl-` followed by a number reading as i+1. |
| Defaults.SeedIdTwoDigits | src/defaults.ts:78 | Below 99 the number has exactly two digits. |
| Defaults.SeedIdsDistinct | src/defaults.ts:78 | Distinct positions get distinct ids. |
| Defaults.CreateSeedData | src/defaults.ts:75-93 | Twenty people with the default names, roles and distinct `ctrl-NN` ids, seeded and tidy, with the fixed notes. |
| ExcelParse.ParseShift | src/excel.ts:229-247 | Empty text is no shift; a shift comes back exactly when the text names it. |
| ExcelParse.NamesOneShift | src/excel.ts:229-247 | No cell text names two shifts. |
| ExcelParse.ParseShiftNames | src/excel.ts:229-247 | A shift is returned exactly when the text names it. |
| ExcelParse.ShiftCellRoundTrip | src/excel.ts:21-27 | A day cell the export writes reads back as the same shift or free day. |
| ExcelParse.TrainingToken | src/excel.ts:235-245 | Every `OJT` token reads as the shift of its letter. |
| ExcelParse.MapRole | src/excel.ts:203-227 | Operator exactly when no keyword occurs; otherwise the role of the first keyword in checking order. |
| ExcelParse.RoleToLabel | src/excel.ts:250-252 | The label is the one the role options pair with the role. |
| ExcelParse.RoleLabelRoundTrip | src/excel.ts:24 | Every exported role label, upper-cased, imports as the same role. |
| ExcelParse.FindYear | src/excel.ts:190 | Found exactly when a `19xx`/`20xx` run occurs; the value is the leftmost run's, in 1900..2099. |
| ExcelParse.ParseMonthYearFromSheetName | src/excel.ts:188-201 | No result exactly when no month name occurs; otherwise the first listed month that occurs, and the year found or else the current year. |
| ExcelParse.ExportedSheetNameHasNoMonth | src/excel.ts:64 | The exported sheet name `MES` names no month. |
| ExcelParse.MonthAndYearSheetName | src/excel.ts:188-201 | `MARZO 2025` reads as March 2025 whatever the current year. |

## Left out

- The React components, hooks and screen layout of `src/App.tsx` and `src/components/` are not modelled. Only its pure helpers are.
- Persistence and the runtime are not modelled: saving to `localStorage`, `structuredClone`, and the status messages.
- `createId` (a random UUID or clock-based id) is not modelled. Imported people keep the ids they are given.
- The PDF export (`src/pdf.ts`) and the spreadsheet I/O are not modelled. The spreadsheet I/O is `exportToExcel`, `importFromExcel`, the XLSX library and the asynchronous file read. Only the cell and sheet-name readers, and the cells the export writes, are modelled.
- The import's fallback month taken from the clock is left out.
- ExcelParse.ParseMonthYearFromSheetName takes the current year as a parameter instead of reading the clock.
- ExcelParse.ParseShift, ExcelParse.MapRole and ExcelParse.ParseMonthYearFromSheetName take text that is already normalized. Removing diacritics (Unicode NFD), upper-casing and trimming are outside the model.
- Defaults.NameMatches lower-cases names but does not strip diacritics or trim. The seed patterns are plain lower-case words.
- Names are compared by code-unit order (`StrLess`). The Spanish collation of `localeCompare` is not modelled.
- JavaScript `Date` arithmetic is replaced by integer Gregorian functions: days from the civil date, weekday, previous day. Time zones and `toLocaleDateString` formatting are out.
- Conflicts are tagged values. The Spanish message texts are not modelled.
- `Number` on text is modelled only for digit strings. Any other text is "not a number". JavaScript's acceptance of whitespace, signs and exponents is out.
- Scheduler.GenerateMonthlySchedule, Stats.ComputeStats, Calendar.BuildMonthDates and AppHelpers.BuildCalendarCells require a month in 1..12. The screen always passes one through the month clamp, and `new Date` rolling other months over is not modelled.
- Scheduler.RequiredFor: coverage headcounts are integers. The screen's number input can store a fractional count such as 2.5, which the fill loop would round up and the shortfall report would print as a fraction; that case is not modelled.
- AppHelpers.Paginate takes the page as an integer. Non-integer pages never arise in the screen.
- Scheduler.PlanDay requires the date's cells to be empty beforehand. This holds because the dates are distinct and planned once each.
- Scheduler.RepairInstructor may displace a person who was forced onto the cell, as the source does. No property claims forced people stay.
- Scheduler.EnsureSupervisor and Scheduler.RepairInstructor state their supervisor and trainee outcomes only under distinct roster ids. With repeated ids, role lookups see only the first entry.
- Eligibility.PickBestCandidate requires a counter for every candidate. The planner creates one per roster id before planning.
- Defaults.CreateSeedData returns the seeded shift preferences and attached-staff flags beside the data. They are separate because the controller record carries only id, name, role, condition and pending.
- The counter table and the shift map that `generateMonthlySchedule` updates in place are modelled as one `Tables` value that each step takes and returns. Sharing of these tables between closures is not modelled.
- Defaults.ApplyPersonalConditionSeeds updates a sequence value, not the mutable array of the source.
- The development-mode console warning for an unmatched seed rule is left out.
- The conflict for an unavailable forced person carries the person's name and a tag for the failed check, not the Spanish message text.

# logProgress, modelled in Dafny

logProgress is a browser activity logger. Each record has a name, a quantity with a
unit, a date and the type tag `'quantity'`. The records are kept as one activity log
under the key `activity_log` of the browser's local storage. This project models four
parts of it:

- **The record store** (`storage.dfy`, module `Storage`). A `LocalStorage` class holds a
  map from keys to stored logs. Its operations load the log, change it and write it back
  whole: add a record, delete by id, delete by name.
- **The application handlers** (`app.dfy`, module `App`). The `AppState` class keeps the
  in-memory list the views render and the store it mirrors. Add, delete by id and delete
  by name update both. Delete by name issues one store delete per matching record's id.
  The two copies stay equal when ids are unique. A concrete list with a shared id shows
  the copies parting without that.
- **The dashboard** (`dashboard.dfy`, module `Dashboard`):
  - the month or year window around a selected date;
  - the per-name fold into totals and last units (a method with a loop, proved against
    the specification functions `WindowTotal` and `LastUnit`);
  - the chart with one bar per distinct name;
  - the buttons that step the selected date.
- **The entry form** (`form.dfy`, module `Form`). An `ActivityForm` class holds the
  fields. It has:
  - the rule that accepts a quantity edit only when it matches `^\d*\.?\d*$`;
  - the submit that builds a record with the quantity parsed, falling back to 1;
  - the step buttons that add or remove one, never going below 0;
  - the month buttons.

Shared pieces:

- `types.dfy` (module `Types`): the record shape, and the distinct names in
  first-occurrence order, used for both the chart labels and the form's suggestions.
- `dates.dfy` (module `Dates`): the calendar. It covers month lengths, month identity, an
  order-preserving instant, year bounds and month stepping.
- `decimal.dfy` (module `Decimal`): the quantity text. It models `parseFloat` on text that
  matches the pattern, and the decimal text of a non-negative number. It proves that
  reading back the text of a value gives that value exactly.

Modelling choices:

- Amounts are exact reals.
- A stored quantity may be missing or NaN, so the dashboard's `?.` and `|| 0` are modelled
  as written.
- Dates are (year, month, day, millisecond of day). Two dates fall in the same window when
  they have the same year and month (monthly) or when the year bounds hold (yearly).
- The monthly test compares the `'MMM yyyy'` texts. From the year 1 on, that is exactly
  "same year and month". date-fns prints the year 0 as `0001`, so for earlier years the
  text test and the month test part ways. The model keeps both; see "## Findings".
- `addMonths` clamps the day to the new month's length, as date-fns does.
- Record ids (`Date.now().toString()`) and today's date (`new Date()`) are parameters.

## Model

| member | source | states |
|---|---|---|
| Dates.DaysInMonth | src/components/ActivityForm.tsx:50 | a month has 28 to 31 days; February has 29 exactly in leap years |
| Dates.MonthIndex | src/components/Dashboard.tsx:41 | the months since January of the year 0; no contract, MonthIndexIdentifiesMonth states what it means |
| Dates.MonthIndexIdentifiesMonth | src/components/Dashboard.tsx:41 | two dates have the same month index exactly when they have the same year and month |
| Dates.EraYear | src/components/Dashboard.tsx:41 | the year the `yyyy` token prints is at least 1, and is the year itself from the year 1 on |
| Dates.FormatMonth | src/components/Dashboard.tsx:41 | `format(d, 'MMM yyyy')` as the month and the printed year; no contract |
| Dates.FormatMonthFromYearOne | src/components/Dashboard.tsx:41 | from the year 1 on, two dates print the same month text exactly when they have the same month index |
| Dates.StartOfYear | src/components/Dashboard.tsx:43 | `startOfYear`: a valid date of the same year that no date of that year precedes |
| Dates.EndOfYear | src/components/Dashboard.tsx:44 | `endOfYear`: a valid date of the same year that precedes no date of that year |
| Dates.InstantOrder | src/components/Dashboard.tsx:45 | for valid dates the instant order is the calendar order, both directions |
| Dates.WithinYear | src/components/Dashboard.tsx:43-45 | a valid date lies between `startOfYear` and `endOfYear` of the selected date, both inclusive, exactly when it has the selected year |
| Dates.AddMonths | src/components/ActivityForm.tsx:50 | the result is a valid date exactly n months on, with the day clamped to the new month and the time of day kept |
| Dates.AddMonthsRoundTrip | src/components/Dashboard.tsx:147 | n months on and n months back gives the same month, and the same date when the day is at most 28 |
| Types.Names | src/components/Dashboard.tsx:64 | one name per record, in record order |
| Types.IndexOf | src/components/Dashboard.tsx:64 | the position of the first occurrence |
| Types.Distinct | src/components/Dashboard.tsx:64 | `Array.from(new Set(xs))` has the same elements as xs and no duplicates |
| Types.DistinctKeepsFirstOccurrenceOrder | src/components/Dashboard.tsx:64 | the distinct elements come in the order of their first occurrence in xs |
| Types.ActivityNames | src/components/ActivityForm.tsx:54 | the suggestions (and chart labels) name every record's name exactly once and nothing else |
| Decimal.DigitRun | src/components/ActivityForm.tsx:38 | the leading run of digits, with no digit right after it |
| Decimal.MatchesQuantityPattern | src/components/ActivityForm.tsx:38 | the regex test `^\d*\.?\d*$`: a digit run, then nothing or a dot and digits; no contract, PatternIsOneDotAtMost characterises it |
| Decimal.PatternIsOneDotAtMost | src/components/ActivityForm.tsx:38 | text matches `^\d*\.?\d*$` exactly when it holds only digits and dots with at most one dot (the empty text included) |
| Decimal.ParseDecimal | src/components/ActivityForm.tsx:26 | a parsed decimal has a fraction below one unit of its last digit |
| Decimal.ParseFloat | src/components/ActivityForm.tsx:26 | `parseFloat`, with None for NaN; no contract, ParseNaN, ToTextRoundTrip and Form.ParsedNonNegative state its meaning |
| Decimal.ParseNaN | src/components/ActivityForm.tsx:26 | on pattern text `parseFloat` is NaN exactly for `""` and `"."` |
| Decimal.Normalize | src/components/ActivityForm.tsx:46 | dropping trailing fraction zeros keeps the value |
| Decimal.NatToDigits | src/components/ActivityForm.tsx:46 | the digits of a number read back as that number, with no leading zero; 0 is written `"0"` |
| Decimal.RenderRoundTrip | src/components/ActivityForm.tsx:46 | the text of a decimal matches the pattern and parses back to that decimal |
| Decimal.ToText | src/components/ActivityForm.tsx:46 | `toString` of a non-negative decimal; no contract, ToTextRoundTrip states that it reads back |
| Decimal.ToTextRoundTrip | src/components/ActivityForm.tsx:44-46 | `parseFloat(v.toString())` is v for every stepped value, and the text is accepted by the quantity pattern |
| Decimal.Increment | src/components/ActivityForm.tsx:45 | the value grows by exactly one |
| Decimal.Decrement | src/components/ActivityForm.tsx:45 | the value becomes max(0, v - 1) |
| Storage.Without | src/utils/storage.ts:25 | the kept records are exactly those that do not match; the length never grows, and stays the same exactly when nothing matched |
| Storage.WithoutSnoc | src/utils/storage.ts:25 | a record appended to the list is kept at the end exactly when it does not match |
| Storage.WithoutKeepsUniqueIds | src/utils/storage.ts:25 | a delete never makes two records share an id |
| Storage.Matching | src/App.tsx:56 | the selected records are exactly those that match, and they and the kept records split the list |
| Storage.WithoutConcat | src/utils/storage.ts:25 | the filter keeps the records' relative order (it distributes over concatenation) |
| Storage.WithoutAbsent | src/utils/storage.ts:25 | a delete whose id or name is absent leaves the list unchanged |
| Storage.WithoutTwice | src/utils/storage.ts:31 | deleting twice is deleting once |
| Storage.LocalStorage.LoadFromLocalStorage | src/utils/storage.ts:5-11 | an unset key gives an empty log; otherwise the stored log |
| Storage.LocalStorage.SaveToLocalStorage | src/utils/storage.ts:13-15 | only the `activity_log` entry changes, and a later load returns the saved log |
| Storage.LocalStorage.AddActivity | src/utils/storage.ts:17-21 | the stored list is the old one with the record appended; no other key changes |
| Storage.LocalStorage.DeleteActivity | src/utils/storage.ts:23-27 | the stored list loses exactly the records with that id |
| Storage.LocalStorage.DeleteActivityByName | src/utils/storage.ts:29-33 | the stored list loses exactly the records with that name |
| App.IdsOf | src/App.tsx:57 | the ids of the records, in order |
| App.WithoutIds | src/App.tsx:57 | the stored list after the `forEach` of per-id deletes; no contract, WithoutIdsAtOnce and DeleteByIdsIsDeleteByName state its meaning |
| App.WithoutIdsSnoc | src/App.tsx:57 | one more pass of the `forEach` deletes by the next id |
| App.WithoutIdsAtOnce | src/App.tsx:57 | deleting ids one at a time removes exactly the records whose id is among them |
| App.IdsSelectName | src/App.tsx:56-58 | when the ids pick out exactly the records of a name, removing by id and by name agree |
| App.DeleteByIdsIsDeleteByName | src/App.tsx:55-58 | with unique ids the per-id store deletes of delete-by-name remove exactly the records of that name |
| App.SharedIdBreaksDeleteByName | src/App.tsx:55-58 | without unique ids the per-id deletes can remove a record of another name |
| App.AppState.constructor | src/App.tsx:28 | the in-memory list starts empty |
| App.AppState.Mount | src/App.tsx:32-35 | the in-memory list becomes the stored list |
| App.AppState.HandleAddActivity | src/App.tsx:45-48 | both copies get the record appended; the store's other keys are untouched; in-sync and (for a fresh id) unique ids are preserved |
| App.AppState.HandleDeleteActivity | src/App.tsx:50-53 | both copies lose exactly the records with that id; the store's other keys are untouched; in-sync and unique ids are preserved |
| App.AppState.HandleDeleteActivityByName | src/App.tsx:55-59 | memory loses the records of that name; storage sees one delete per matching id; other keys are untouched; with no matching record the store is left exactly as it was, otherwise the key is set; in-sync with unique ids is preserved |
| Dashboard.InWindow | src/components/Dashboard.tsx:39-46 | the window test: same year and month, or between the year's start and end; no contract, MonthlyWindow and YearlyWindow characterise it |
| Dashboard.InMonthAsWritten | src/components/Dashboard.tsx:41 | the monthly test as written, comparing the printed month texts; no contract |
| Dashboard.YearZeroPrintsAsYearOne | src/components/Dashboard.tsx:41 | a record of January 5 of the year 0 passes the text test for January of the year 1, though it is not in that month |
| Dashboard.InMonthAsWrittenFromYearOne | src/components/Dashboard.tsx:41 | from the year 1 on, the text test and the month test agree |
| Dashboard.MonthlyWindow | src/components/Dashboard.tsx:40-41 | in monthly mode a record counts exactly when it has the selected month and year |
| Dashboard.YearlyWindow | src/components/Dashboard.tsx:42-46 | in yearly mode a record counts exactly when it has the selected year |
| Dashboard.InWindowActivities | src/components/Dashboard.tsx:38-47 | the filtered list holds exactly the records of the window |
| Dashboard.InWindowActivitiesSnoc | src/components/Dashboard.tsx:38-47 | one more record is kept at the end of the filtered list exactly when it is in the window |
| Dashboard.InWindowActivitiesConcat | src/components/Dashboard.tsx:38-47 | filtering a concatenation filters each part, so the kept records keep their order and multiplicity |
| Dashboard.InWindowActivitiesAllIn | src/components/Dashboard.tsx:38-47 | a list wholly inside the window is kept unchanged |
| Dashboard.Amount | src/components/Dashboard.tsx:55 | `activity.quantity?.value` or 0 when absent or falsy; no contract |
| Dashboard.UnitOf | src/components/Dashboard.tsx:56 | `activity.quantity?.unit` or the empty unit when absent; no contract |
| Dashboard.NoRecordNoStat | src/components/Dashboard.tsx:49-58 | a name with no record in the window has total 0 and unit `''` |
| Dashboard.LastUnitIsLast | src/components/Dashboard.tsx:56 | the unit is that of a record of the window with the name after which no other such record comes |
| Dashboard.FilterKeepsStats | src/components/Dashboard.tsx:38-58 | records outside the window never change a total or a unit |
| Dashboard.StatsStep | src/components/Dashboard.tsx:51-57 | one more record of the window adds its amount to its name's total and sets its unit, leaving other names alone |
| Dashboard.SummarisesStep | src/components/Dashboard.tsx:52-57 | the `stats.set` of one record of the window keeps the map describing the records seen so far |
| Dashboard.SummarisesNext | src/components/Dashboard.tsx:51-58 | the same, for the next record of the filtered list |
| Dashboard.FilterSummarises | src/components/Dashboard.tsx:38-58 | a map that describes the filtered records describes the whole list |
| Dashboard.GetActivityStats | src/components/Dashboard.tsx:37-61 | the map has a key exactly for the names with a record in the window, each with its window total (missing or NaN counting 0) and last unit |
| Dashboard.ChartData | src/components/Dashboard.tsx:64-69 | one label per distinct name of the whole list, and one value per label: the window total, 0 for names absent from the window |
| Dashboard.MonthsTotalOfLast | src/components/Dashboard.tsx:40-41 | the last record adds its amount to the first k months' totals exactly when its month is among them |
| Dashboard.YearIsSumOfMonths | src/components/Dashboard.tsx:38-58 | a name's yearly total is the sum of its twelve monthly totals |
| Dashboard.JanuaryFirst | src/components/Dashboard.tsx:149 | `new Date(year, 0, 1)`: a valid January 1, in the given year exactly when that year is not 0 to 99 |
| Dashboard.DateChangeAsWritten | src/components/Dashboard.tsx:145-151 | the step as written yields a valid date |
| Dashboard.YearStepFrom100 | src/components/Dashboard.tsx:149 | the yearly step back from the year 100 lands on January 1, 1999 |
| Dashboard.DateChange | src/components/Dashboard.tsx:145-151 | monthly: exactly one month on or back; yearly: January 1 of the next or previous year |
| Dashboard.DateChangeAgreesBeyondTwoDigitYears | src/components/Dashboard.tsx:149 | the corrected step equals the step as written whenever the target year is not 0 to 99 |
| Dashboard.DateChangeMovesWindow | src/components/Dashboard.tsx:145-151 | after a step the window is the next or previous month, or year |
| Dashboard.DateChangeBackAndForth | src/components/Dashboard.tsx:145-151 | a step forward and a step back give back the same window |
| Form.SubmittedValue | src/components/ActivityForm.tsx:26 | `parseFloat(quantity)`, or 1 when that is NaN or 0; no contract, SubmittedValuePositive and SubmitDefaultsToOne state its meaning |
| Form.CurrentValue | src/components/ActivityForm.tsx:44 | `parseFloat(quantity)`, or 0 when that is NaN; no contract |
| Form.Adjusted | src/components/ActivityForm.tsx:45 | one more, or one less but never below 0; no contract, IncrementedText and DecrementedText tie the written text to it |
| Form.ParsedNonNegative | src/components/ActivityForm.tsx:37-38 | a parsed quantity is never negative |
| Form.StartDecimal | src/components/ActivityForm.tsx:44 | the decimal the step starts from has the parsed value of the field, or 0 when the field does not parse |
| Form.IncrementedText | src/components/ActivityForm.tsx:44-46 | the text the + button writes is accepted by the pattern and reads back as the old value plus one |
| Form.DecrementedText | src/components/ActivityForm.tsx:44-46 | the text the - button writes is accepted by the pattern and reads back as max(0, old value - 1) |
| Form.SubmittedValuePositive | src/components/ActivityForm.tsx:26 | a submitted quantity is positive: the parsed value when positive, otherwise 1 |
| Form.SubmitDefaultsToOne | src/components/ActivityForm.tsx:26 | `""`, `"."` and `"0"` all submit 1 |
| Form.ActivityForm.constructor | src/components/ActivityForm.tsx:13-16 | empty name and unit, quantity `"1"`, today's date, and the field invariant holds |
| Form.ActivityForm.HandleNameChange | src/components/ActivityForm.tsx:101 | the name becomes the input; nothing else changes |
| Form.ActivityForm.HandleUnitChange | src/components/ActivityForm.tsx:176 | the unit becomes the input; nothing else changes |
| Form.ActivityForm.HandleQuantityChange | src/components/ActivityForm.tsx:35-41 | an edit is kept exactly when it matches the pattern; the field always holds digits with at most one dot |
| Form.ActivityForm.AdjustNumber | src/components/ActivityForm.tsx:43-47 | the field holds the `toString` text of the stepped decimal, which matches the pattern and reads back as its value plus one, or as max(0, value - 1), with unparseable text counting 0 |
| Form.ActivityForm.HandleMonthChange | src/components/ActivityForm.tsx:49-51 | the date becomes `addMonths` of the old date by one or minus one: it moves exactly one month, the day clamped, the time of day kept; nothing else changes |
| Form.ActivityForm.HandleSubmit | src/components/ActivityForm.tsx:18-33 | the record has the given id, the form's name, unit and date, type `'quantity'` and a positive quantity; name and unit reset to `''` and quantity to `"1"` |

## Left out

- `src/types.ts` is modelled as `Types.Activity`, with the quantity optional and its value possibly NaN, as the dashboard's `?.` and `|| 0` allow.
- Floating-point arithmetic: sums are exact reals. `Number#toString` is modelled for plain decimals only; exponent forms (values of 1e21 and above, or below 1e-6) are not modelled.
- `parseFloat` is modelled on text that matches `^\d*\.?\d*$`; on other text it is a prefix reader. Signs, leading whitespace, exponents and `Infinity` are not modelled, because the quantity field never holds them.
- `JSON.parse`/`JSON.stringify` are modelled as the identity on well-formed logs. The exception `JSON.parse` throws on malformed stored text is not modelled.
- Time zones: `parseISO`, `toISOString` and local-time `format` are modelled as one calendar. A record near midnight that changes day or month under a time-zone shift is not modelled.
- The JavaScript `Date` range and its invalid dates are not modelled: dates are taken valid (the `Dates.Valid` preconditions).
- `Date.now()` ids and `new Date()` are parameters; uniqueness of ids is an assumption of `App.AppState.HandleDeleteActivityByName`'s preservation clause, not something the model generates.
- React re-rendering, the stale closure over `activities`, and the effect ordering are not modelled: each handler runs to completion on the current state.
- Form.ActivityForm.HandleSubmit: requires a non-empty name, because the name input's `required` attribute stops the browser from submitting an empty form; the whitespace-only names it lets through are accepted.
- The dashboard's `timeframe` and `selectedDate` are modelled as parameters of `Dashboard.GetActivityStats`, `Dashboard.ChartData` and `Dashboard.DateChange`, not as a class with setters; `setTimeframe` only assigns.
- Chart.js registration, colours, fonts, tick callbacks and `toLocaleString` label formatting (src/components/Dashboard.tsx:17-25, 70-143) are presentation.
- The dark-mode effect and the view toggle (src/App.tsx:37-43, 61-139) are DOM and layout.
- `src/main.tsx`, `vite.config.ts` and `src/components/ActivityList.tsx` are not part of this model: bootstrapping, build configuration and a table whose delete button only forwards an id to `App.AppState.HandleDeleteActivity`.

## Findings

| source | as written | input that shows it | evidently intended | confidence | as-written member | corrected member |
|---|---|---|---|---|---|---|
| src/components/Dashboard.tsx:41 | the monthly test compares `format(_, 'MMM yyyy')` texts; date-fns's `yyyy` prints the year of the era, so the year 0 (1 BC) prints as `0001`, like the year 1 | selected date January 15 of the year 1, record dated January 5 of the year 0: the texts agree and the record counts | the record counts exactly when it has the selected year and month | not executed; follows from date-fns's year formatting | Dashboard.InMonthAsWritten, Dashboard.YearZeroPrintsAsYearOne | Dashboard.InWindow, Dashboard.MonthlyWindow |
| src/components/Dashboard.tsx:149 | `new Date(year ± 1, 0, 1)`; under section 21.4.2.1 of ECMA-262 (the `Date` constructor's MakeFullYear step) a year from 0 to 99 is read as 1900 plus that year | yearly mode, selected date in the year 100, step back: the target year 99 becomes 1999 | January 1 of exactly the previous or next year | not executed; follows from the ECMAScript rule | Dashboard.DateChangeAsWritten, Dashboard.YearStepFrom100 | Dashboard.DateChange, Dashboard.DateChangeMovesWindow |

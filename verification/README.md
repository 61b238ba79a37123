# Steps: a verified model of the distance ledger form

The Steps component is a form with two text inputs, a date typed as
`DD.MM.YYYY` and a distance. Pressing OK checks the date in two stages. First
comes a regular-expression shape test. Then `isValidDate` splits the text on
`.`, refuses any zero field, builds `new Date(year, month - 1, day)` and asks
for the same year, month and day back. If the distance parses as well, the
pair goes into a table of steps. A date already in the table gets the new
distance added to its row; otherwise a new row is appended. The table is then
sorted latest date first, and the form is cleared. Each row can be deleted by
its date.

The model is split into modules that follow that flow:

- `Dates`: the proleptic Gregorian calendar (leap years, month lengths), the
  lexicographic order on (year, month, day), and a day number standing in for
  `getTime()`.
- `DateText`: the shape test as a small anchored regular-expression matcher,
  `split('.')`, `Number()` on runs of ASCII digits, and fixed-width rendering.
  The rendering is used to show that a pattern text is determined by its fields.
- `Validator`: the Date constructor's arithmetic, `isValidDate`, and its
  characterisation.
- `Ledger`: the `Step` rows, the comparator, the sort, upsert and delete, and
  the table read as per-date totals.
- `StepsForm`: the form fields, `handleChange`, `handleSubmit` with its outcomes,
  and the component as a state machine over edit, submit and delete events.

Three behaviours of the code are modelled as written:

- Distances are not required to be non-negative. Nothing in the code refuses
  a negative number.
- Years 1 to 99 are refused. The Date constructor reads them as 1901 to 1999,
  so the round trip at steps/src/components/Steps.tsx:26 fails for them.
- Delete removes every row with the given date, as `filter` does. In a valid
  table that is at most one row: with the date present exactly that row goes
  (`Ledger.DeletePresent`), and with it absent nothing changes
  (`Ledger.DeleteAbsent`).

## Model

| member | source | states |
|---|---|---|
| DateText.Test | steps/src/components/Steps.tsx:37-39 | An anchored match spans the whole string: a string the atoms match is exactly as long as the atoms consume |
| DateText.MatchesPattern | steps/src/components/Steps.tsx:37-39 | No contract of its own: `datePattern.test(date)`, characterised by DateText.MatchesPatternIff |
| DateText.MatchesPatternIff | steps/src/components/Steps.tsx:37-42 | The shape test `/^\d{2}\.\d{2}\.\d{4}$/` accepts a string iff it has length 10, '.' at positions 2 and 5, and ASCII digits at every other position |
| DateText.Split | steps/src/components/Steps.tsx:18 | `split` always yields at least one part ("" gives [""]); SplitWithoutSeparator and SplitAtSeparator fix the parts |
| DateText.SplitWithoutSeparator | steps/src/components/Steps.tsx:18 | A text with no separator splits into just itself |
| DateText.SplitAtSeparator | steps/src/components/Steps.tsx:18 | Splitting at a first separator gives the text before it followed by the split of the rest |
| DateText.SplitPatternString | steps/src/components/Steps.tsx:18 | `split('.')` of a pattern string gives exactly the three digit runs: day, month, year |
| DateText.Number | steps/src/components/Steps.tsx:18 | `Number` of a run of n digits is below 10^n |
| DateText.PadNumber | steps/src/components/Steps.tsx:18 | Writing `Number` of a digit run back with as many digits, leading zeros kept, gives the run back |
| DateText.NumberPad | steps/src/components/Steps.tsx:18 | `Number` of n written with w digits is n whenever n < 10^w, so `Number` reads decimal notation |
| DateText.Fields | steps/src/components/Steps.tsx:18 | The destructured [day, month, year] of a pattern string are at most 99, 99 and 9999 |
| DateText.FieldsAtIsFields | steps/src/components/Steps.tsx:62-63 | Reading digit positions 0-1, 3-4 and 6-9 gives the same fields as split and Number; this is the key the sort compares |
| DateText.FormatFields | steps/src/components/Steps.tsx:52 | Writing the fields of a pattern string back as DD.MM.YYYY gives the string back |
| DateText.FieldsFormat | steps/src/components/Steps.tsx:18 | Every date with fields of at most 2, 2 and 4 digits is written by a pattern string whose fields are that date |
| DateText.SameTextIffSameFields | steps/src/components/Steps.tsx:52-57 | On pattern strings, the string equality used as the row key is equality of (day, month, year) |
| Validator.JsYear | steps/src/components/Steps.tsx:22 | The constructor changes a year argument iff it is in 0..99, and moves those years into 1900..1999 |
| Validator.RollDays | steps/src/components/Steps.tsx:22 | Date's day overflow always lands on a real calendar date, never in an earlier year; it keeps the day iff the day fits the month, and otherwise gives a smaller day |
| Validator.RollDaysCounts | steps/src/components/Steps.tsx:22 | The rolled date is exactly day - 1 days after the first of the month |
| Validator.NewDate | steps/src/components/Steps.tsx:22 | `new Date(y, m, d)` with m >= 0 and d >= 1 gives a calendar date, in year 1 or later when y >= 1 |
| Validator.NewDateRoundTrip | steps/src/components/Steps.tsx:22-29 | The constructor returns the same day, month and year iff they form a calendar date with year >= 100 |
| Validator.IsValidDate | steps/src/components/Steps.tsx:17-30 | No contract of its own: isValidDate on a pattern string, characterised by Validator.IsValidDateIff |
| Validator.IsValidDateIff | steps/src/components/Steps.tsx:17-30 | For a pattern string, isValidDate holds iff day >= 1, month in 1..12, day <= days in that month (Gregorian leap rule), and year >= 100 |
| Validator.ZeroFieldRejected | steps/src/components/Steps.tsx:20 | A zero day, month or year is refused |
| Validator.LeapDayAccepted | steps/src/components/Steps.tsx:17-30 | "29.02.2024" passes both checks |
| Validator.NonLeapDayRejected | steps/src/components/Steps.tsx:17-30 | "29.02.2023" passes the shape test and fails isValidDate |
| Validator.AprilRollsOver | steps/src/components/Steps.tsx:22 | `new Date(2024, 3, 31)` is 1 May 2024 |
| Validator.ThirtyFirstOfAprilRejected | steps/src/components/Steps.tsx:25-29 | "31.04.2024" passes the shape test and fails isValidDate |
| Validator.TwoDigitYearShifts | steps/src/components/Steps.tsx:22 | `new Date(99, 0, 1)` is 1 January 1999 |
| Validator.TwoDigitYearRejected | steps/src/components/Steps.tsx:26 | "01.01.0099" passes the shape test and fails isValidDate, because the year comes back as 1999 |
| Validator.MissingLeadingZerosRejected | steps/src/components/Steps.tsx:37-42 | "1.1.2000" fails the shape test |
| Dates.DayNumberOrder | steps/src/components/Steps.tsx:64 | On calendar dates the day number (the `getTime()` stand-in) orders dates exactly as (year, month, day) does lexicographically, and is equal only for equal dates |
| Dates.BeforeIsStrictTotalOrder | steps/src/components/Steps.tsx:61-65 | The date order the sort uses is irreflexive, asymmetric, transitive and total |
| Ledger.Compare | steps/src/components/Steps.tsx:61-65 | Rows with equal date texts compare as 0; Ledger.CompareMatchesKeyOrder gives the sign in full |
| Ledger.CompareMatchesKeyOrder | steps/src/components/Steps.tsx:61-65 | On accepted dates the comparator is negative iff the first row is the later date, and zero iff the two date texts are equal |
| Ledger.ValidLedgerSortedByCompare | steps/src/components/Steps.tsx:67-71 | A valid table is in the order the comparator asks for, strictly |
| Ledger.ValidLedgerHasUniqueDates | steps/src/components/Steps.tsx:52-71 | A valid table never has two rows with one date |
| Ledger.Insert | steps/src/components/Steps.tsx:67-71 | Inserting one row adds exactly that row to the multiset of rows and puts it first or after the old first row |
| Ledger.InsertKeepsDescending | steps/src/components/Steps.tsx:67-71 | Inserting into a latest-first table keeps it latest-first |
| Ledger.InsertKeepsStrictlyDescending | steps/src/components/Steps.tsx:67-71 | Inserting a row with a new date into a strictly latest-first table keeps it strict |
| Ledger.InsertSplits | steps/src/components/Steps.tsx:67 | Insert keeps all old rows in their order and places the new row somewhere among them |
| Ledger.SortByDate | steps/src/components/Steps.tsx:61-71 | The sort returns a permutation of its input, latest date first |
| Ledger.SortSortedIsIdentity | steps/src/components/Steps.tsx:55-65 | Sorting a table that is already latest-first changes nothing |
| Ledger.SortAppended | steps/src/components/Steps.tsx:67-71 | Sorting an ordered table with a new date appended gives the same result as inserting that row in place |
| Ledger.SortedPermutationUnique | steps/src/components/Steps.tsx:61-71 | Two strictly latest-first tables with the same rows are equal, so any correct sort gives the table the model gives |
| Ledger.AddDistance | steps/src/components/Steps.tsx:55-60 | The map keeps the length and every row's date |
| Ledger.AddDistanceKeepsOrder | steps/src/components/Steps.tsx:55-60 | Adding distances moves no row, so a valid table stays valid |
| Ledger.Upsert | steps/src/components/Steps.tsx:51-73 | After an upsert the date has a row, and the table keeps its length when the date was present and grows by one otherwise; UpsertExisting and UpsertNew give the rows themselves |
| Ledger.UpsertExisting | steps/src/components/Steps.tsx:52-65 | For a date already present, the length stays the same, that row's distance becomes old + new, every other row stays where it was unchanged, and the table stays valid |
| Ledger.UpsertNew | steps/src/components/Steps.tsx:66-71 | For a new accepted date, the table grows by one, holds the new row plus all old rows in their old relative order, and stays valid |
| Ledger.UpsertKeepsValid | steps/src/components/Steps.tsx:51-73 | After upserting an accepted date, dates are unique, the table is strictly latest-first, and the date has a row |
| Ledger.UpsertAddsToTotal | steps/src/components/Steps.tsx:51-73 | Upsert adds the distance to its date's total and leaves every other date's total unchanged |
| Ledger.UpsertAccumulates | steps/src/components/Steps.tsx:52-65 | Upserting one date twice leaves one row for it whose total grew by both distances |
| Ledger.TotalAbsent | steps/src/components/Steps.tsx:66-71 | A date with no row has total 0, so a first submission records exactly its distance |
| Ledger.Delete | steps/src/components/Steps.tsx:78-80 | The filter keeps exactly the rows whose date differs from the argument, and never grows the table |
| Ledger.DeleteAppend | steps/src/components/Steps.tsx:79 | Delete works row by row, so the rows it keeps stay in their relative order |
| Ledger.DeleteAbsent | steps/src/components/Steps.tsx:79 | Deleting a date that has no row changes nothing |
| Ledger.DeleteIdempotent | steps/src/components/Steps.tsx:79 | Deleting a date twice is the same as deleting it once |
| Ledger.DeletePresent | steps/src/components/Steps.tsx:78-80 | With unique dates, deleting the date of row i removes exactly row i |
| Ledger.DeleteKeepsValid | steps/src/components/Steps.tsx:78-80 | Deleting keeps a valid table valid |
| Ledger.DeleteClearsTotal | steps/src/components/Steps.tsx:78-80 | After delete, the deleted date's total is 0 and every other date's total is unchanged |
| StepsForm.Change | steps/src/components/Steps.tsx:12-15 | handleChange sets the named field to the value and leaves the other field as it was |
| StepsForm.Submit | steps/src/components/Steps.tsx:32-76 | A failed submission leaves the form and the table unchanged; a saved one clears both form fields |
| StepsForm.SubmitOutcome | steps/src/components/Steps.tsx:36-49 | Format error iff the shape is wrong; calendar error iff the shape is right but the fields are not a calendar date from year 100; silent abort iff the date is accepted but the distance is NaN; saved iff the date is accepted and the distance parses |
| StepsForm.SubmitAddsDistance | steps/src/components/Steps.tsx:51-75 | An accepted date with a parsing distance is saved, and the save adds the parsed distance to the submitted date's total and changes no other date's total |
| StepsForm.SubmitKeepsValid | steps/src/components/Steps.tsx:51-73 | Submitting keeps the table valid, and after a save the submitted date has a row |
| StepsForm.NotANumberChangesNothing | steps/src/components/Steps.tsx:49 | A distance that parses to NaN leaves form and table unchanged |
| StepsForm.Apply | steps/src/components/Steps.tsx:12-80 | No contract of its own: one event handed to handleChange, handleSubmit or handleDelete; see StepsForm.ApplyKeepsValid |
| StepsForm.ApplyKeepsValid | steps/src/components/Steps.tsx:12-80 | Every event (edit, submit, delete) keeps the table valid |
| StepsForm.Run | steps/src/components/Steps.tsx:12-80 | No contract of its own: events handled one after another; see StepsForm.RunKeepsValid and StepsForm.ReachableTablesAreValid |
| StepsForm.RunKeepsValid | steps/src/components/Steps.tsx:12-80 | Any sequence of events keeps a valid table valid |
| StepsForm.ReachableTablesAreValid | steps/src/components/Steps.tsx:9-10 | Every table reachable from the empty initial state has accepted, unique dates, strictly latest first |

## Left out

- Rendering, JSX, CSS classes, `useState` mechanics and event plumbing (`preventDefault`, `onChange`, `onClick`) are not modelled. The state updates are plain functions over an explicit `State`.
- The two alert texts are not modelled. They appear only as the `FormatError` and `CalendarError` outcomes; the silent return is `NotANumber`.
- `parseFloat` is not modelled. It is a parameter `string -> Option<real>`, where `None` stands for NaN.
- Distances are reals. Floating-point rounding of `+` and the one-decimal `toFixed(1)` display are left out.
- The Date object's time of day, time zone and millisecond scale are left out. The Date constructor is modelled by its calendar arithmetic: the 19xx reading of years 0-99, month carry into the year, and day carry into later months.
- `getTime()` is replaced by a day number. `Dates.DayNumberOrder` shows that it orders dates exactly as (year, month, day) does.
- Validator.IsValidDate covers only strings that passed the shape test. The component never calls it on any other string. `Number()` on arbitrary text (whitespace, signs, hex, exponents) is not modelled.
- Array.prototype.sort is modelled as an insertion sort. `Ledger.SortedPermutationUnique` shows that with unique dates every correct sort gives the same table. The sort's tie behaviour does not matter here, because a valid table has no ties.
- `prev.find` is modelled only by whether some row has the date (`HasDate`). The map that follows changes every row with that date, and a valid table has at most one.
- Ledger.Key reads digit positions without checking them. A text that fails the shape test would give a meaningless key, but no such text is ever stored (`StepsForm.ReachableTablesAreValid`).

# Conversation journal: entry store and date helpers

The journal keeps a list of named records. Each record holds one small
annotation per calendar date: an optional mood (sad, neutral, good, great)
and an optional note. This project is a Dafny model of the journal's logic,
with proofs:

- `addEntry` validates and normalises a name. It defaults the date to today
  and finds the record of that name, case-insensitively. If the record
  already has the date, or the name is blank, it refuses. A known record
  gets the new date pushed onto its `dates` in place, and the dates are then
  sorted by key. A new name gets a fresh record appended.
- `getNiceDateLabelFromDateString` turns `YYYY-MM-DD` into a label such as
  `March 1, 2024`.
- `calculateDays` / `calculateDaysSinceToday` count the whole days between
  the clock and the record's most recent date.

`src/lib/utils/entries.ts` and `src/lib/utils/dates.ts` carry identical copies
of the label helper and of the day count. Each helper is defined once here.
Its rows below cite one copy or the other; both copies say the same.

Modules:

- `Wrappers`: the `Option` type.
- `JsStrings`: the JavaScript string primitives the code relies on:
  - `slice(0, n)`;
  - `trim` over the ECMAScript whitespace and line-terminator set;
  - `toLowerCase`, over ASCII letters;
  - the `<` order on strings, which is used by `sort()` and, for the date
    keys, by `localeCompare`;
  - `split` on one character;
  - `Number` and `String` on decimal integers.
- `Entries`: the data model and `addEntry`, in two layers:
  - `AddEntrySpec` is the operation on record values.
  - The class `Entry` and the method `AddEntry` run it on record objects.
    As in the source, the record that gains a date is mutated in place and
    stays shared with the caller's collection.
  - When the collection holds no record object twice, the records
    afterwards are exactly those `AddEntrySpec` computes.
- `Dates`: the label and the day count.

Parameters stand in for what the source reads from the environment:

- `today`: the current date string, which the source reads from the clock.
- `nowMs`: the clock in milliseconds.
- `offsetMs`: the module-level timezone offset.
- `epochOf`: the parsing of a date key by `new Date(key).getTime()`; `None`
  stands for an invalid date.

Two details of the code that the model keeps as written:

- The name is sliced to 50 characters first and trimmed afterwards
  (`entries.ts:51`). So a name that starts with 50 blanks is rejected
  whatever follows them (`Entries.PaddedNameRejected`).
- `targetDate in dateObj` is JavaScript's `in`. It is also true of the
  property names every object inherits (`toString`, `constructor`, ...).
  So when the matching record has at least one date, a date string equal
  to one of those names counts as a duplicate. A record with no dates never
  does, because `some` on an empty array is false. `HasKey` and `HasDate`
  model this as written.

## Model

| member | source | states |
|---|---|---|
| `JsStrings.SlicePrefix` | src/lib/utils/entries.ts:51 | `slice(0, n)` keeps the first min(n, length) characters |
| `JsStrings.Trim` | src/lib/utils/entries.ts:51 | `trim()` returns an infix of its input. A whitespace prefix and a whitespace suffix are removed, and the result neither starts nor ends with whitespace |
| `JsStrings.TrimIdempotent` | src/lib/utils/entries.ts:51 | trimming twice is trimming once |
| `JsStrings.TrimEmptyIffBlank` | src/lib/utils/entries.ts:52 | the trimmed name is empty (falsy) exactly when every character of the input is whitespace |
| `JsStrings.Lower` | src/lib/utils/entries.ts:55 | `toLowerCase()` maps each character by itself and keeps the length |
| `JsStrings.SameIgnoringCase` | src/lib/utils/entries.ts:55 | `a.toLowerCase() === b.toLowerCase()`; no ensures of its own. Its meaning is given by `Entries.FindByName`, `Entries.FindByNameSameNames` and `Entries.AddToNamedTwice` |
| `JsStrings.Below` | src/lib/utils/entries.ts:60 | the strict string order of `sort()` and, on the date keys, of `localeCompare`; no ensures of its own. `BelowIrreflexive`, `BelowAsymmetric`, `BelowTransitive` and `BelowTotal` state that it is a strict total order |
| `JsStrings.AtMost` | src/lib/utils/dates.ts:37 | the non-strict order; no ensures of its own. `AtMostTransitive` and `AtMostAntisymmetric` state that it is a total order, which `Dates.MaxKey` and `Entries.SortByKeySorted` rely on |
| `JsStrings.BelowTotal` | src/lib/utils/entries.ts:60 | any two distinct keys are ordered one way or the other |
| `JsStrings.BelowTransitive` | src/lib/utils/entries.ts:60 | the key order is transitive |
| `JsStrings.BelowIrreflexive` | src/lib/utils/entries.ts:60 | no key is below itself |
| `JsStrings.BelowAsymmetric` | src/lib/utils/entries.ts:60 | two keys are never below each other |
| `JsStrings.AtMostAntisymmetric` | src/lib/utils/entries.ts:86 | keys at most each other are equal, so the maximum is unique |
| `JsStrings.AtMostTransitive` | src/lib/utils/entries.ts:86 | the non-strict order is transitive |
| `JsStrings.Split` | src/lib/utils/dates.ts:15 | `split('-')` gives at least one part; no part holds a dash; joined with dashes the parts give back the input |
| `JsStrings.SplitJoin` | src/lib/utils/dates.ts:15 | splitting a dash-join of dash-free parts gives the parts back |
| `JsStrings.NatToString` | src/lib/utils/dates.ts:30 | the printed number is a non-empty digit run that reads back as the number. It starts with `0` only when it is exactly `"0"` |
| `JsStrings.LeadingZerosIgnored` | src/lib/utils/dates.ts:15 | leading zeros do not change the value a digit run denotes |
| `JsStrings.NatToStringOfCanonical` | src/lib/utils/dates.ts:30 | a digit run without leading zeros is exactly how its value prints |
| `Entries.NormalizeName` | src/lib/utils/entries.ts:51 | the stored name has at most 50 characters and no surrounding whitespace. It is a trimming of the first 50 characters of the input: truncation happens before trimming |
| `Entries.NormalizeNameIdempotent` | src/lib/utils/entries.ts:51 | normalising a normalised name gives it back unchanged |
| `Entries.TargetDate` | src/lib/utils/entries.ts:54 | the supplied date when it is non-empty, today's date string otherwise |
| `Entries.NewAnnotation` | src/lib/utils/entries.ts:59 | the stored object has the target date as its key. `mood` is present exactly when a mood is given. `note` is present exactly when a non-empty note is given, and then equals it |
| `Entries.HasKey` | src/lib/utils/entries.ts:58 | `targetDate in dateObj`: the object's own key, or one of the inherited property names; no ensures of its own. Its effect is given by `Entries.AddToNamed` and `Entries.AddEntrySpec` |
| `Entries.HasDate` | src/lib/utils/entries.ts:58 | `dates.some(dateObj => targetDate in dateObj)`, false on no dates; no ensures of its own. `Entries.AddToNamedTwice` and `Entries.AddDateWellFormed` state its use |
| `Entries.IsDuplicateDate` | src/lib/utils/entries.ts:55-58 | the found record has the target date; no ensures of its own. `Entries.AddToNamed` and `Entries.AddEntrySpec` state that it is exactly the failure case for a non-blank name |
| `Entries.FindByName` | src/lib/utils/entries.ts:55 | `find` returns the first record whose lower-cased name equals the lower-cased name, or nothing when no record matches |
| `Entries.FindByNameSameNames` | src/lib/utils/entries.ts:55 | the lookup depends only on the records' names, and on the searched name only up to case |
| `Entries.FindByNameAppended` | src/lib/utils/entries.ts:66-69 | a name that matched nothing is found at the record appended for it |
| `Entries.InsertByKey` | src/lib/utils/entries.ts:60 | insertion adds exactly the new element: same elements plus one, length plus one |
| `Entries.SortByKey` | src/lib/utils/entries.ts:60 | the sort is a permutation of its input |
| `Entries.InsertByKeyStable` | src/lib/utils/entries.ts:60 | insertion places the new date before every date with the same key and keeps the order of all the others |
| `Entries.SortByKeyStable` | src/lib/utils/entries.ts:60 | the sort is stable: for each key, the dates with that key appear in the same order as in the input |
| `Entries.SortByKeySorted` | src/lib/utils/entries.ts:60 | the sorted dates ascend by key, whatever the input order |
| `Entries.InsertByKeySorted` | src/lib/utils/entries.ts:60 | inserting into sorted dates keeps them sorted |
| `Entries.InsertByKeyWellFormed` | src/lib/utils/entries.ts:59-60 | inserting a key the dates lack keeps the keys distinct and ascending |
| `Entries.SortAfterPush` | src/lib/utils/entries.ts:59-60 | pushing a new key and then sorting well-formed dates is the same as inserting the key in place |
| `Entries.AddDateWellFormed` | src/lib/utils/entries.ts:58-60 | push-then-sort of a date the record lacks keeps the record's keys distinct and ascending |
| `Entries.AddToRecord` | src/lib/utils/entries.ts:59-60 | the record keeps its name. Its dates grow by exactly the new annotation and end up sorted by key |
| `Entries.AddToNamed` | src/lib/utils/entries.ts:55-69 | for a non-blank name: a duplicate date fails and returns the collection unchanged. A known name changes only its own record, adding the date. A new name appends one record holding only the new date |
| `Entries.AddEntrySpec` | src/lib/utils/entries.ts:44-70 | success exactly when the name is not blank and its record, if any, lacks the target date. A failure returns the input collection. A known name's record gains the new date, stays sorted, keeps its name's casing, and no other record changes. A new name appends `Record(trimmed name, [the new date])` after the unchanged input records |
| `Entries.AddEntryPreservesWellFormed` | src/lib/utils/entries.ts:57-63 | if every record's date keys are distinct and ascending before the call, they still are after it |
| `Entries.InsertByKeyDistinct` | src/lib/utils/entries.ts:60 | inserting a key the dates lack keeps their keys distinct, whether or not they were sorted |
| `Entries.SortByKeyDistinct` | src/lib/utils/entries.ts:60 | sorting keeps distinct keys distinct |
| `Entries.AddDateDistinct` | src/lib/utils/entries.ts:58-60 | push-then-sort of a date the record lacks keeps the record's keys distinct, sorted or not |
| `Entries.AddEntryPreservesDistinctKeys` | src/lib/utils/entries.ts:57-63 | if every record's date keys are distinct before the call, they still are after it, also for unsorted records loaded from storage |
| `Entries.AddEntryPreservesUniqueNames` | src/lib/utils/entries.ts:55-69 | if no two records' names are equal up to case before the call, none are after it |
| `Entries.AppendKeepsUniqueNames` | src/lib/utils/entries.ts:66-69 | appending a record whose name matches none keeps the names unique |
| `Entries.AddToNamedTwice` | src/lib/utils/entries.ts:58 | after a date was added under a name, adding a date with the same key under that name, in any case, fails |
| `Entries.AddEntryTwiceRejected` | src/lib/utils/entries.ts:58 | a second `addEntry` with the same date under a name that normalises to the same name up to case fails, whatever its mood and note |
| `Entries.PaddedNameRejected` | src/lib/utils/entries.ts:51-52 | a name whose first 50 characters are whitespace normalises to the empty name. The call fails and returns the input unchanged |
| `Entries.Entry.constructor` | src/lib/utils/entries.ts:68 | a record object with the given name and dates |
| `Entries.Entry.AddDate` | src/lib/utils/entries.ts:59-60 | the in-place push then sort: the name is unchanged and the dates become the sort of the old dates plus the new one |
| `Entries.AddDateAt` | src/lib/utils/entries.ts:59-60 | only record i changes. Without aliasing, the collection's records are the old ones with record i's dates pushed and sorted |
| `Entries.AppendRecord` | src/lib/utils/entries.ts:66-69 | `[...entries, record]` with a fresh record object holding the name and the single date; the input records stay as they were |
| `Entries.AddToNamedObjects` | src/lib/utils/entries.ts:55-69 | AddToNamed on record objects. A failure changes nothing. A known name mutates only its own record object, and the collection returned has the same objects. A new name appends a fresh object. Without aliasing, the records afterwards are those of AddToNamed |
| `Entries.AddEntry` | src/lib/utils/entries.ts:44-70 | `addEntry` on record objects. Success agrees with AddEntrySpec; a failure changes nothing. A known name mutates only its own record object, which gains the new date and is re-sorted. A new name appends a fresh object. Without aliasing, the resulting records are exactly AddEntrySpec's |
| `Dates.ToNumber` | src/lib/utils/dates.ts:15 | `Number(part)` on decimal forms; no ensures of its own. `Dates.NumberOfPart` and `Dates.NumberOfDigits` state its meaning |
| `Dates.PartAt` | src/lib/utils/dates.ts:15 | the destructuring `const [year, month, day]`: element i converted, or undefined past the end; no ensures of its own. `Dates.RenderedPart`, `Dates.MonthPart` and `Dates.NiceLabelMissingParts` state its meaning |
| `Dates.Render` | src/lib/utils/dates.ts:30 | a value inside the template literal: a number's decimal form, `NaN` or `undefined`; no ensures of its own. `Dates.RenderedPart` and `Dates.NonNumericPart` state its meaning |
| `Dates.LabelOfParts` | src/lib/utils/dates.ts:30 | the template literal over the split parts; no ensures of its own. `Dates.LabelOfNumbers` and `Dates.NiceLabelMonthOutOfRange` state its meaning |
| `Dates.NiceLabel` | src/lib/utils/entries.ts:25-41 | `getNiceDateLabelFromDateString`, with the same body at `dates.ts:14-31`; no ensures of its own. `Dates.NiceLabelOfDigits`, `Dates.NiceLabelOfPadded`, `Dates.NiceLabelMonthOutOfRange` and `Dates.NiceLabelMissingParts` state its meaning |
| `Dates.NumberOfPart` | src/lib/utils/dates.ts:15 | the conversion of a part is never undefined. It is a number exactly when the trimmed part is a decimal digit run, and 0 for a blank part; any other part is NaN here (see `Dates.ToNumber` under Left out) |
| `Dates.NumberOfDigits` | src/lib/utils/dates.ts:15 | a run of digits converts to its decimal value |
| `Dates.MonthLabel` | src/lib/utils/dates.ts:30 | `months[month - 1]` is the month's name for 1..12 and `undefined` otherwise (no range check) |
| `Dates.MonthPart` | src/lib/utils/dates.ts:30 | a month part converting to 1..12 prints as that month's name |
| `Dates.RenderedPart` | src/lib/utils/dates.ts:30 | a part converting to a number prints as the number's decimal form |
| `Dates.NonNumericPart` | src/lib/utils/dates.ts:30 | a part whose trimmed form is neither blank nor a decimal digit run converts to NaN here and prints as `NaN` |
| `Dates.LabelOfNumbers` | src/lib/utils/dates.ts:30 | parts converting to a year, a month in 1..12 and a day give "month-name day, year" |
| `Dates.SplitOfDigits` | src/lib/utils/dates.ts:15 | three digit runs joined by dashes split back into the three runs |
| `Dates.NiceLabelOfDigits` | src/lib/utils/entries.ts:25-41 | for `YYYY-MM-DD` made of digits with the month in 1..12, the label is `months[month-1] + " " + day + ", " + year`, with the numbers printed without leading zeros |
| `Dates.NiceLabelOfPadded` | src/lib/utils/dates.ts:14-31 | with zero-padded month and day, the label shows the month's name, the day without its padding and the year as written. So `2024-03-01` gives `March 1, 2024` and `2024-01-05` gives `January 5, 2024` |
| `Dates.NiceLabelDropsLeadingZeros` | src/lib/utils/dates.ts:15 | a zero-padded digit run has the value of the run without its padding, and prints as that run |
| `Dates.NiceLabelMonthOutOfRange` | src/lib/utils/dates.ts:30 | a month outside 1..12 prints as `undefined`, followed by the day and the year |
| `Dates.NiceLabelMissingParts` | src/lib/utils/dates.ts:15 | a string without a dash is read as the year alone; the month and the day print as `undefined` |
| `Dates.FirstKeys` | src/lib/utils/dates.ts:36 | `Object.keys(dateObj)[0]` of each date object, in order |
| `Dates.MaxKey` | src/lib/utils/dates.ts:37-38 | `sort().reverse()[0]` is one of the keys and no key is above it |
| `Dates.MaxKeyOrderFree` | src/lib/utils/dates.ts:35-38 | the maximum depends only on which keys occur, not on their order or repetition |
| `Dates.MostRecentKey` | src/lib/utils/entries.ts:84-87 | the reference date is the first key of one of the dates and no date's key is above it |
| `Dates.DaysSince` | src/lib/utils/entries.ts:82-91 | 0 for no dates. NaN exactly when the most recent date does not parse. Otherwise the whole number n with n·86400000 ≤ abs(now − date − offset) < (n+1)·86400000, which is the floor of that quotient and never negative |
| `Dates.DaysSinceOrderFree` | src/lib/utils/dates.ts:33-43 | reordering the dates, or repeating one, does not change the day count |

## Left out

- `saveEntries` and `loadEntries` (`entries.ts:72-98`) are `localStorage` and
  JSON I/O with a browser alert, so they are not modelled.
- `getTimezoneRemovedDateObject` and `getCurrentDateString` (`entries.ts:14-23`,
  `dates.ts:3-12`) read the clock and the host timezone. Today's date string,
  the clock and the offset are parameters instead.
- `new Date(key).getTime()` is host date parsing; it is the parameter
  `epochOf`.
- `src/lib/stores/alert.ts` (a timer-driven store) and `src/routes/+page.ts`
  (routing glue) are not part of this model.
- The optional `days` field of a record is never read or written by the
  modelled code, so records carry only `name` and `dates`.
- `JsStrings.Lower`: lower-cases ASCII letters only, where `toLowerCase`
  covers all of Unicode.
- `JsStrings.Below`: orders strings by character. `localeCompare` follows the
  locale's collation, and `sort()` follows UTF-16 code units. This model
  agrees with both on ISO `YYYY-MM-DD` keys.
- `SlicePrefix` and the other primitives count characters, not UTF-16 code
  units. The two differ outside the Basic Multilingual Plane.
- `Dates.ToNumber`: models `Number` on blanks and decimal digit runs
  (surrounding whitespace ignored) and gives NaN for everything else. Signs,
  decimal points, exponents and hex forms are not modelled, so parts such
  as `+3`, `1e1`, `0x1F` or `1.5` are NaN in the model.
- Numbers are unbounded integers. The double-precision rounding of very long
  digit runs and of huge millisecond differences is not modelled.
- Array identity is not modelled. On success with a known name, the source
  returns a new array `[...entries]` holding the same record objects. The
  model returns a sequence of the same objects; the two agree element by
  element.
- In `AddEntry` and `AddToNamedObjects` every record is an `Entry` object,
  and the record that gains a date is mutated in place. The date objects
  are plain values.
- The `dates` array of a record is not modelled as an object. In the
  source, `push` and `sort` (`entries.ts:59-60`) change that array in
  place, so a caller holding `entry.dates` sees the new date. In the model
  `dates` is a sequence field of the record object, and `Entry.AddDate`
  assigns it a new value. Aliasing of the `dates` array itself is
  therefore not captured.
- The model has no concrete literal examples such as
  `NiceLabel("2024-03-01")`. `Dates.NiceLabelOfPadded` states these
  examples for all zero-padded dates.

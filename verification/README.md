# Okinawa golf trip schedule: ingest and view model

This project is a Dafny model of the two parts of the trip-schedule site that transform data.

1. **The ingest script** (`scripts/convertCsvToJson.ts`). It reads the itinerary rows from the CSV file and trims every column. A row with an empty day takes the last non-empty day above it (carry-forward); a row that still has no day is dropped. Each remaining row becomes an event. The event id is `day-time-row`. The sort key is the date key of the day (the time value of `new Date(2026, m - 1, d)`) plus the minutes of the time, or 9999 when there is no time. Finally the events are sorted stably by that key.
2. **The schedule page** (`app/page.tsx`). It derives the following from the event list:
   - the list of days, sorted by date;
   - the category and area facets, each distinct and sorted;
   - the "M/D - M/D" range label;
   - the title split at the first `_`;
   - the shown events, after four successive filters (day, categories, area, map only);
   - the map links, one group of linkable events per area in first-seen order.

   Its filter state is four `useState` slots, changed by the `setActiveDay`, `toggleCategory`, `setSelectedArea` and `setMapOnly` handlers.

Modules:

- `Options`: the optional value.
- `JsText`: JavaScript's `trim`, `split` and `join` on one separator character, and `Number()` on integer numerals.
- `Calendar`: `new Date(y, m, d)`, `getMonth`, `getDate` and `getTime` at day resolution. It uses the day arithmetic of section 21.4.1 of ECMAScript 2024 (DayFromYear, MakeDay).
- `Seqs`: `filter`, `Set` insertion order and subsequences.
- `Sorting`: a stable sort by an integer key, and the default string sort.
- `TripData`: the event record and the "M/D" reading shared by both files.
- `Ingest`: the ingest script.
- `View`: the page's derived values, as pure functions.
- `Page`: the map-link grouping, which builds a `Map` step by step, and the `Home` class holding the filter state.

The ingest loop, the in-place `events.sort` and the `Map`-filling `forEach` are modelled as methods with loops. Each method is proved equal to a declarative specification function, and the properties are proved about that function.

## Model

| member | source | states |
|---|---|---|
| JsText.Trim | scripts/convertCsvToJson.ts:56 | `trim()` leaves no white space at either end and never lengthens the text |
| JsText.TrimCuts | scripts/convertCsvToJson.ts:56 | the trimmed text is the original with only white space removed from the start and the end |
| JsText.TrimIdempotent | scripts/convertCsvToJson.ts:64-69 | trimming twice is trimming once |
| JsText.SplitPieces | app/page.tsx:45 | no piece of `split(c)` contains `c`; a text without `c` splits into itself |
| JsText.JoinSplit | app/page.tsx:45-47 | joining the pieces of `split(c)` with `c` gives the text back |
| JsText.JsNumberDigits | scripts/convertCsvToJson.ts:42 | a non-blank text that `Number` reads is, once trimmed, either decimal digits, read as their value, or '+' or '-' followed by at least one digit, read as the signed value of the digits |
| JsText.JsNumberOfDigits | scripts/convertCsvToJson.ts:42 | the converse: a blank text reads as 0, trimmed decimal digits read as their value, and a sign followed by digits reads as the signed value; with JsNumberDigits, `Number` reads a non-blank text exactly when it is an optionally signed digit string |
| JsText.NumberOfNatToString | app/page.tsx:40 | `Number` reads the decimal text of a natural number back as that number |
| Calendar.Time | scripts/convertCsvToJson.ts:45 | `getTime()` of a date at midnight is a whole number of days |
| Calendar.MakeDate | scripts/convertCsvToJson.ts:44 | `new Date(y, m, d)` is a valid date with MakeDay's day number: the month carries into the year and the day rolls across month ends |
| Calendar.MakeValidDate | scripts/convertCsvToJson.ts:44 | constructing a date that exists gives that date unchanged |
| Calendar.DayNumberMonotone | scripts/convertCsvToJson.ts:44-45 | within a year, later valid dates have time values at least one day larger |
| Seqs.Filter | app/page.tsx:82-90 | `filter` keeps exactly the elements passing the test, in their order |
| Seqs.FilterCount | app/page.tsx:82-90 | `filter` keeps each passing element exactly as often as it occurs and no copy of a failing one |
| Seqs.FilterFilter | app/page.tsx:82-90 | two successive filters are one filter by both tests |
| Seqs.Dedup | app/page.tsx:56 | a `Set` built from a list holds each element of the list once |
| Seqs.DedupFirstSeen | app/page.tsx:56-57 | `Array.from(set)` lists the elements in the order they are first met |
| Sorting.InsertionSortSorted | scripts/convertCsvToJson.ts:88 | the sort leaves the keys ascending |
| Sorting.InsertionSortPermutes | scripts/convertCsvToJson.ts:88 | the sort is a permutation |
| Sorting.InsertionSortStable | scripts/convertCsvToJson.ts:88 | events with equal keys keep their relative order |
| Sorting.StableSortUnique | scripts/convertCsvToJson.ts:88 | any two sorted sequences that keep the same order within each key are equal, so any stable sort gives this result |
| Sorting.SortStringsAscending | app/page.tsx:66 | the default `sort()` orders strings by character code point, ascending |
| Sorting.SortStringsStrict | app/page.tsx:66 | sorting distinct strings gives a strictly ascending list without repeats |
| TripData.MonthDay | scripts/convertCsvToJson.ts:42-43 | the month and day read from "M/D" are both non-zero; `!m \|\| !d` turns 0 and NaN into no date |
| TripData.MonthDayNeedsSlash | scripts/convertCsvToJson.ts:42-43 | a day text without '/' gives no month and day |
| TripData.MonthDayOfCanonical | app/page.tsx:25-26 | the text `${m}/${d}` is read back as month m and day d |
| Ingest.ToDateKey | scripts/convertCsvToJson.ts:41-46 | the date key is 0 for a day text without a usable month and day, and is always a whole number of days |
| Ingest.DateKeyOf | scripts/convertCsvToJson.ts:41-46 | a day text whose month and day name an existing date of 2026 gets the `getTime()` of that very date as its key |
| Ingest.DateKeyFollowsCalendar | scripts/convertCsvToJson.ts:41-46 | valid dates of 2026, written in any form `Number` reads, get keys in calendar order, at least a day apart |
| Ingest.ReadTime | scripts/convertCsvToJson.ts:48-50 | a time reads as blank exactly when it trims to "" or "-" |
| Ingest.ReadTimeWithoutColon | scripts/convertCsvToJson.ts:50 | a time without ':' is read as an hour with no minute part |
| Ingest.ReadTimeClockHasColon | scripts/convertCsvToJson.ts:50 | a time with a minute part contains ':' |
| Ingest.ToTimeMinutesAsWritten | scripts/convertCsvToJson.ts:48-53 | `toTimeMinutes` as written: `null` for a blank time, and NaN exactly when there is no ':' and the hour is a number |
| Ingest.ToTimeMinutes | scripts/convertCsvToJson.ts:48-53 | a value exactly when both the hour and the minute read as numbers, and then it is hours * 60 + minutes; no time for a blank or "-" |
| Ingest.ToTimeMinutesOfClock | scripts/convertCsvToJson.ts:50-52 | the text `${h}:${m}` reads as h * 60 + m minutes (so "9:30" is 570) |
| Ingest.ToTimeMinutesOfDigits | scripts/convertCsvToJson.ts:49-52 | any two non-empty digit strings joined by ':', zero-padded ones such as "09:05" included, read as hours * 60 + minutes of their digit values |
| Ingest.ToTimeMinutesCorrectsNaN | scripts/convertCsvToJson.ts:51-52 | the corrected reading agrees with the script everywhere except where the script gives NaN, which becomes no time |
| Ingest.BareHourIsNaN | scripts/convertCsvToJson.ts:50-52 | every bare-number time makes the script's minutes NaN |
| Ingest.BareHourExample | scripts/convertCsvToJson.ts:50-52 | the script's `toTimeMinutes("9")` is NaN |
| Ingest.SortKey | scripts/convertCsvToJson.ts:71-73 | when the time adds less than a day, the key lies in the same day as the date key |
| Ingest.SortKeyAsWritten | scripts/convertCsvToJson.ts:71-73 | the script's sort key is NaN exactly when its minutes are |
| Ingest.TimeWithoutMinutesIsAllDay | scripts/convertCsvToJson.ts:72-73 | with the corrected reading, a time without ':' adds the 9999 "no time" offset |
| Ingest.SortKeyOrdersByDay | scripts/convertCsvToJson.ts:71-73 | events on days with smaller date keys sort first, whatever their times within the day |
| Ingest.TimedBeforeUntimed | scripts/convertCsvToJson.ts:73 | on one day, an event whose time is under 9999 minutes sorts before an event without a time |
| Ingest.CarriedDay | scripts/convertCsvToJson.ts:56-61 | the day a row is dated by is "" or a day of the column; Ingest.CarriedDayIsNearest says which |
| Ingest.CarriedDayIsNearest | scripts/convertCsvToJson.ts:56-62 | a row's day is its own, otherwise the day of the nearest dated row above it; it is "" exactly when no row up to it has a day |
| Ingest.DatedRows | scripts/convertCsvToJson.ts:55-62 | the dated rows are rows with a carried day, each once, in row order |
| Ingest.DatedComplete | scripts/convertCsvToJson.ts:61-62 | every row with a carried day produces an event |
| Ingest.MakeEvent | scripts/convertCsvToJson.ts:75-85 | the event is dated by the resolved day, and its key is computed from its own day and time; Ingest.MakeEventNormalised states the rest |
| Ingest.Pushed | scripts/convertCsvToJson.ts:55-86 | the loop pushes at most one event per row; Ingest.PushedWellFormed states the rest |
| Ingest.RowTextTrimmed | scripts/convertCsvToJson.ts:64-69 | `(field ?? "").trim()` is trimmed, and `text \|\| undefined` is absent or a trimmed non-empty text |
| Ingest.MakeEventNormalised | scripts/convertCsvToJson.ts:64-85 | each built event has a trimmed non-empty day, trimmed fields, no empty optional field, and a sort key from its own day and time |
| Ingest.MakeEventHoldsRow | scripts/convertCsvToJson.ts:64-83 | the event holds the row's own columns, trimmed: the title is the trimmed content (always present, "" when blank), and time, category, notes, area and map link read as "" exactly where their column is blank and as the trimmed column otherwise |
| Ingest.EventIdDeterminesIndex | scripts/convertCsvToJson.ts:76 | the row index can be read back from an id, so events of different rows have different ids |
| Ingest.PushedWellFormed | scripts/convertCsvToJson.ts:55-86 | the loop pushes at most one event per row; every event is normalised and the ids are distinct |
| Ingest.PushedRow | scripts/convertCsvToJson.ts:55-85 | the k-th pushed event comes from a row: it is dated by that row's carried day and holds that row's trimmed columns |
| Ingest.PushedHoldsRows | scripts/convertCsvToJson.ts:55-85 | every pushed event comes from some row of the sheet in that sense |
| Ingest.PermutationKeepsEvents | scripts/convertCsvToJson.ts:88 | reordering keeps every event normalised and the ids distinct |
| Ingest.NormaliseRow | scripts/convertCsvToJson.ts:64-85 | the callback body builds exactly the event specified for the row and its resolved day |
| Ingest.NormaliseRows | scripts/convertCsvToJson.ts:55-86 | the `forEach` with `lastDay` pushes exactly the specified events, in row order |
| Ingest.InsertNext | scripts/convertCsvToJson.ts:88 | one pass in place: the prefix becomes the insertion of the next event, and the rest is untouched |
| Ingest.SortBySortKey | scripts/convertCsvToJson.ts:88 | sorting in place leaves the array as the stable sort of its old contents by key |
| Ingest.Convert | scripts/convertCsvToJson.ts:38-88 | the output is sorted by key, a permutation of the pushed events, stable within each key, at most one event per row, all normalised, with distinct ids, each event coming from a row of the sheet and holding its trimmed columns |
| View.DayToDate | app/page.tsx:24-28 | `dayToDate` gives a valid date, or none |
| View.DayToDateNull | app/page.tsx:24-28 | `dayToDate` gives null exactly when a part is missing, or the month or the day reads as NaN or 0 |
| View.FormatDayRoundTrip | app/page.tsx:40 | a 2026 date printed as "M/D" reads back as the same date |
| View.DayKeyIsDateKey | app/page.tsx:58-60 | the page orders days by the ingest script's date key |
| View.ParsedDatesMember | app/page.tsx:32-34 | the dates in the range are exactly those of the days that parse |
| View.FormatRange | app/page.tsx:30-42 | the label is empty exactly when no date parses; View.FormatRangeSpan gives its value otherwise |
| View.FormatRangeEmpty | app/page.tsx:30-37 | the label is empty exactly when no day parses |
| View.FormatRangeSpan | app/page.tsx:30-42 | otherwise the label is "start - end", from the earliest to the latest parsed date |
| View.SplitTitle | app/page.tsx:44-50 | the prefix never contains '_'; View.SplitTitleParts states the whole split |
| View.SplitTitleParts | app/page.tsx:44-50 | without '_' there is no prefix; otherwise the prefix has no '_' and prefix + "_" + main is the title |
| View.Days | app/page.tsx:55-62 | at most one day per event; View.DaysFacet states the contents and the order |
| View.DaysFacet | app/page.tsx:55-62 | every event day appears once, nothing else appears, and the days ascend by date key |
| View.PresentTextsMember | app/page.tsx:65 | `filter(Boolean)` keeps exactly the present non-empty values |
| View.FacetValues | app/page.tsx:64-72 | a facet lists each non-empty value once, in strictly ascending order |
| View.Categories | app/page.tsx:64-67 | at most one category per event; View.CategoriesFacet states the contents and the order |
| View.CategoriesFacet | app/page.tsx:64-67 | the categories are the distinct non-empty event categories, strictly ascending |
| View.Areas | app/page.tsx:69-72 | at most one area per event; View.AreasFacet states the contents and the order |
| View.AreasFacet | app/page.tsx:69-72 | the areas are the distinct non-empty event areas, strictly ascending |
| View.FilteredEvents | app/page.tsx:81-91 | every shown event is an event that meets all four conditions; View.FilteredEventsSpec adds the converse and the order |
| View.FilteredEventsIsOneFilter | app/page.tsx:81-91 | the four successive filters are one filter by the four conditions together |
| View.FilteredEventsSpec | app/page.tsx:81-91 | the shown events keep their order; an event is shown exactly when it is on the active day, in a selected category (or none is selected), in the selected area (or "all"), and has a map URL when only those are asked for |
| View.NoEvents | app/page.tsx:55-91 | with no events there are no days, categories, areas or shown events, and the label is empty |
| View.Toggle | app/page.tsx:104-108 | the toggle adds at most one category, and no category other than the toggled one |
| View.ToggleFlips | app/page.tsx:103-109 | toggling flips the category's membership and leaves every other category's membership alone |
| View.ToggleTwice | app/page.tsx:103-109 | toggling an unselected category twice restores the selection |
| View.ToggleDistinct | app/page.tsx:103-109 | a selection without repeats stays without repeats |
| Page.LinkAreasMember | app/page.tsx:95-96 | the areas considered are exactly those of events with an area and a map URL |
| Page.AreaKeysStep | app/page.tsx:97 | a linkable event with an unseen area opens a new key at the end; otherwise the keys stay the same |
| Page.AreaGroupStep | app/page.tsx:98 | a linkable event joins the end of its own area's group and no other group |
| Page.Place | app/page.tsx:95-98 | one step of the `forEach` keeps `order` and `groups` as the grouping of the events placed so far |
| Page.AreaLinksOf | app/page.tsx:93-101 | at most one link per shown event; Page.AreaLinksGrouping states the grouping |
| Page.AreaLinks | app/page.tsx:93-101 | `areaLinks` equals the declarative grouping of the shown events |
| Page.AreaLinksGrouping | app/page.tsx:93-101 | each area appears once, in first-seen order; groups are non-empty, keep the shown order, and hold only linkable events of their area; every linkable event is in its area's group |
| Page.Home.constructor | app/page.tsx:74-77 | the initial state is the first day (or ""), no categories, "all" areas and map-only off |
| Page.Home.SetActiveDay | app/page.tsx:74 | sets the active day, keeps the selection free of repeats, and changes nothing else |
| Page.Home.ToggleCategory | app/page.tsx:103-109 | replaces the selection by its toggle, keeps it free of repeats, and changes nothing else |
| Page.Home.SetSelectedArea | app/page.tsx:76 | sets the selected area, keeps the selection free of repeats, and changes nothing else |
| Page.Home.SetMapOnly | app/page.tsx:77 | sets the map-only switch, keeps the selection free of repeats, and changes nothing else |

## Left out

- Reading the CSV file (`readFileSync`), the `csv-parse` library, `mkdirSync`, writing the JSON file and the console message (scripts/convertCsvToJson.ts:30-36, 90-93). The model starts from the parsed rows (`RawRow`, with the `google maps` column as `googleMaps`) and ends with the sorted events.
- `handleShare` (app/page.tsx:111-129). It only calls browser APIs (`navigator.share`, the clipboard, `alert`) and changes no state.
- The JSX rendering and its `area.replace` display formatting. React's `useMemo` and `useState` machinery is modelled as the `Home` class's fields plus functions of them.
- Time zones. `new Date(2026, m - 1, d)` is local midnight, but the model computes the time value in UTC. A fixed local offset would shift every key by the same amount and would not change any order.
- The ECMAScript Date range (time values within 8.64e15 ms of 1970). The month and day read from a day text may be any integers, so a text such as "100000000/1" names a date far outside that range. JavaScript then makes an invalid date: `getTime()`, `toDateKey` and the sort key are NaN, and `dayToDate` returns an invalid date that `formatRange` prints as "NaN/NaN". Ingest.ToDateKey, View.DayToDate and View.DayKey give an ordinary date and key instead. The model assumes every day text names a date within the range; only texts whose month or day is far out of the calendar are affected.
- JsText.JsNumber reads only an optional sign followed by decimal digits (and blank as 0). Fractions, exponents, hex, binary or octal literals and `Infinity` are read as NaN, so `Number("1.5")` gives NaN where JavaScript gives 1.5.
- Floating point. Minutes, date keys and sort keys are unbounded integers; a NaN sort key is modelled as `None` in Ingest.SortKeyAsWritten.
- Strings are sequences of characters, not of UTF-16 code units. `trim` uses the ECMAScript white-space and line-terminator set, and the default `sort()` compares characters by code point.
- `events.sort` is JavaScript's built-in (TimSort). It is modelled by insertion sort, and Sorting.StableSortUnique shows that every stable sort by the same key gives the same result.
- `Array.prototype.sort` with a NaN comparator result (a NaN sort key) has an implementation-defined order. The sorted model uses the corrected key (see Findings).
- View.FormatRangeSpan: it requires at least one parsable day; the empty case is stated separately by View.FormatRangeEmpty.

## Findings

| source | as written | input that shows it | evidently intended | confidence | as-written member | corrected member |
|---|---|---|---|---|---|---|
| scripts/convertCsvToJson.ts:50-52 | `const [h, m] = time.split(":")...`; when the time has no ':' the minute part `m` is `undefined`, `Number.isNaN(undefined)` is false, and `h * 60 + m` is NaN, so the sort key is NaN | time "9" (any bare number without ':') | a time without minutes counts as no time: the result is `null` and the sort key gets the 9999 offset, so the event sorts after the timed events of its day | not executed | Ingest.BareHourExample | Ingest.ToTimeMinutesCorrectsNaN |

Ingest.ToTimeMinutesAsWritten and Ingest.SortKeyAsWritten model the code as written. Ingest.BareHourIsNaN shows that every bare-number time gives NaN. The rest of the model uses Ingest.ToTimeMinutes, which Ingest.TimeWithoutMinutesIsAllDay shows adds the "no time" offset for such a time.

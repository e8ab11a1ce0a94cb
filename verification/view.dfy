/**
 * The schedule page's derived view: reading a day text as a date, the range
 * label, the title splitter, the facet lists (days, categories, areas), the
 * four-stage event filter, the category toggle, and the area-to-events
 * grouping behind the map links. Each is a pure function of the event list
 * and the page's filter state.
 */
module View {
  import opened Options
  import opened JsText
  import opened Calendar
  import opened Seqs
  import opened Sorting
  import opened TripData
  import Ingest

  // ---------------------------------------------------------------------
  // Dates

  /** `dayToDate`: the date an "M/D" day text names in the trip year, or
      `None` when the month or day part is missing, not a number, or 0. */
  function DayToDate(day: string): (r: Option<Date>)
    ensures r.Some? ==> Valid(r.value)
  {
    match MonthDay(day)
    case None => None
    case Some((m, d)) => Some(MakeDate(TripYear, m - 1, d))
  }

  /** `dayToDate` gives no date exactly when `Number` of the month or day
      part is NaN or 0, or there is no day part at all. */
  lemma DayToDateNull(day: string)
    ensures DayToDate(day).None? <==>
      var parts := Split(day, '/');
      |parts| < 2 ||
      JsNumber(parts[0]) == None || JsNumber(parts[0]) == Some(0) ||
      JsNumber(parts[1]) == None || JsNumber(parts[1]) == Some(0)
  {
  }

  /** `getTime()` of a date, which is total here; every date the page holds
      is valid, so the fallback is never taken. */
  function TimeValue(dt: Date): int {
    if 0 <= dt.month < 12 then Time(dt) else 0
  }

  /** `${d.getMonth() + 1}/${d.getDate()}`. */
  function FormatDay(dt: Date): string
    requires Valid(dt)
  {
    NatToString(dt.month + 1) + "/" + NatToString(dt.date)
  }

  /** A date of the trip year printed as "M/D" reads back as that date. */
  lemma FormatDayRoundTrip(dt: Date)
    requires Valid(dt) && dt.year == TripYear
    ensures DayToDate(FormatDay(dt)) == Some(dt)
  {
    var m, d := dt.month + 1, dt.date;
    assert MonthDay(FormatDay(dt)) == Some((m, d)) by {
      MonthDayOfCanonical(m, d);
    }
    assert MakeDate(TripYear, m - 1, d) == dt by {
      MakeValidDate(dt);
    }
  }

  /** The key `days` is sorted by: `dayToDate(day)?.getTime() ?? 0`. */
  function DayKey(day: string): int {
    match DayToDate(day)
    case None => 0
    case Some(dt) => TimeValue(dt)
  }

  /** The page orders days by the same date key the ingest script puts into
      every event's sort key. */
  lemma DayKeyIsDateKey(day: string)
    ensures DayKey(day) == Ingest.ToDateKey(day)
  {
  }

  // ---------------------------------------------------------------------
  // The range label

  /** `column.filter(v => v !== null)`: the present values, in order. */
  function Somes<T>(column: seq<Option<T>>): (values: seq<T>)
    ensures |values| <= |column|
    decreases |column|
  {
    if column == [] then []
    else
      var rest := Somes(column[..|column| - 1]);
      match column[|column| - 1]
      case None => rest
      case Some(v) => rest + [v]
  }

  lemma {:induction false} SomesMember<T>(column: seq<Option<T>>, v: T)
    ensures v in Somes(column) <==> exists j :: 0 <= j < |column| && column[j] == Some(v)
    decreases |column|
  {
    if column != [] {
      var column' := column[..|column| - 1];
      SomesMember(column', v);
      assert column == column' + [column[|column| - 1]];
    }
  }

  /** `days.map(dayToDate)`. */
  function DateColumn(days: seq<string>): seq<Option<Date>> {
    seq(|days|, i requires 0 <= i < |days| => DayToDate(days[i]))
  }

  /** `days.map(dayToDate).filter(d => d !== null)`. */
  function ParsedDates(days: seq<string>): seq<Date> {
    Somes(DateColumn(days))
  }

  /** Every parsed date is a valid date. */
  lemma ParsedDatesValid(days: seq<string>, dt: Date)
    requires dt in ParsedDates(days)
    ensures Valid(dt)
  {
    var column := DateColumn(days);
    SomesMember(column, dt);
    var j :| 0 <= j < |column| && column[j] == Some(dt);
  }

  /** The dates are exactly those of the days that parse. */
  lemma ParsedDatesMember(days: seq<string>, dt: Date)
    ensures dt in ParsedDates(days) <==>
      exists i :: 0 <= i < |days| && DayToDate(days[i]) == Some(dt)
  {
    var column := DateColumn(days);
    SomesMember(column, dt);
    assert forall j :: 0 <= j < |days| ==> column[j] == DayToDate(days[j]);
  }

  /** `formatRange`: "" for no days or no parsable day, otherwise the first
      and the last of the dates sorted by time, as "M/D - M/D". */
  function FormatRange(days: seq<string>): (text: string)
    ensures text == "" <==> ParsedDates(days) == []
  {
    if |days| == 0 then
      assert DateColumn(days) == [];
      ""
    else
      var parsed := ParsedDates(days);
      var dates := InsertionSort(parsed, TimeValue);
      if |dates| == 0 then ""
      else
        InsertionSortPermutes(parsed, TimeValue);
        assert dates[0] in multiset(parsed) && dates[|dates| - 1] in multiset(parsed);
        ParsedDatesValid(days, dates[0]);
        ParsedDatesValid(days, dates[|dates| - 1]);
        FormatDay(dates[0]) + " - " + FormatDay(dates[|dates| - 1])
  }

  /** The label is empty exactly when no day parses. */
  lemma FormatRangeEmpty(days: seq<string>)
    ensures FormatRange(days) == "" <==>
      forall i :: 0 <= i < |days| ==> DayToDate(days[i]).None?
  {
    var parsed := ParsedDates(days);
    if parsed != [] {
      var dt := parsed[0];
      ParsedDatesMember(days, dt);
    } else {
      forall i | 0 <= i < |days| ensures DayToDate(days[i]).None? {
        if DayToDate(days[i]).Some? {
          ParsedDatesMember(days, DayToDate(days[i]).value);
        }
      }
    }
  }

  /** `lo` and `hi` are parsed dates of `days`, the earliest and the latest. */
  predicate Bounds(days: seq<string>, lo: Date, hi: Date) {
    && lo in ParsedDates(days) && hi in ParsedDates(days)
    && forall dt :: dt in ParsedDates(days) ==> TimeValue(lo) <= TimeValue(dt) <= TimeValue(hi)
  }

  /** When some day parses, the label runs from the earliest to the latest date. */
  lemma FormatRangeSpan(days: seq<string>)
    requires ParsedDates(days) != []
    ensures exists lo, hi ::
      (Valid(lo) && Valid(hi) && Bounds(days, lo, hi) &&
       FormatRange(days) == FormatDay(lo) + " - " + FormatDay(hi))
  {
    var parsed := ParsedDates(days);
    var dates := InsertionSort(parsed, TimeValue);
    InsertionSortPermutes(parsed, TimeValue);
    var lo, hi := dates[0], dates[|dates| - 1];
    assert lo in multiset(parsed) && hi in multiset(parsed);
    ParsedDatesValid(days, lo);
    ParsedDatesValid(days, hi);
    assert FormatRange(days) == FormatDay(lo) + " - " + FormatDay(hi) by {
      assert |days| > 0;
    }
    assert forall dt :: dt in parsed ==> TimeValue(lo) <= TimeValue(dt) <= TimeValue(hi) by {
      InsertionSortSorted(parsed, TimeValue);
      forall dt | dt in parsed ensures TimeValue(lo) <= TimeValue(dt) <= TimeValue(hi) {
        assert dt in multiset(dates);
      }
    }
    assert Bounds(days, lo, hi);
  }

  // ---------------------------------------------------------------------
  // Titles

  /** A title split at its first '_' into a prefix and the main text. */
  datatype Title = Title(prefix: string, main: string)

  /** `splitTitle`: with at least one '_', the piece before it and the other
      pieces joined back with '_'; otherwise no prefix and the whole title. */
  function SplitTitle(title: string): (r: Title)
    ensures '_' !in r.prefix
  {
    var parts := Split(title, '_');
    SplitPieces(title, '_');
    if |parts| >= 2 then Title(parts[0], Join(parts[1..], '_'))
    else Title("", title)
  }

  /** A title without '_' has no prefix; otherwise the prefix is the text
      before the first '_' and the main text everything after it. */
  lemma SplitTitleParts(title: string)
    ensures '_' !in title ==> SplitTitle(title) == Title("", title)
    ensures '_' in title ==>
      '_' !in SplitTitle(title).prefix &&
      SplitTitle(title).prefix + "_" + SplitTitle(title).main == title
  {
    var i := IndexOf(title, '_');
    if i == |title| {
      SplitPieces(title, '_');
    } else {
      var rest := title[i + 1..];
      assert Split(title, '_') == [title[..i]] + Split(rest, '_');
      assert ([title[..i]] + Split(rest, '_'))[1..] == Split(rest, '_');
      JoinSplit(rest, '_');
      assert title == title[..i] + "_" + rest;
    }
  }

  // ---------------------------------------------------------------------
  // Facets

  /** `events.map(e => e.day)`. */
  function EventDays(events: seq<Event>): seq<string> {
    seq(|events|, i requires 0 <= i < |events| => events[i].day)
  }

  /** `days`: the distinct event days, sorted by date (unparsable days as 0). */
  function Days(events: seq<Event>): (days: seq<string>)
    ensures |days| <= |events|
  {
    InsertionSort(Dedup(EventDays(events)), DayKey)
  }

  /** Every event day appears exactly once, nothing else does, and the days
      ascend by date. */
  lemma DaysFacet(events: seq<Event>)
    ensures Distinct(Days(events))
    ensures forall x :: x in Days(events) <==> exists e :: e in events && e.day == x
    ensures SortedBy(Days(events), DayKey)
  {
    var unique := Dedup(EventDays(events));
    InsertionSortPermutes(unique, DayKey);
    InsertionSortSorted(unique, DayKey);
    PermutationDistinct(Days(events), unique);
    forall x ensures x in Days(events) <==> exists e :: e in events && e.day == x {
      assert x in Days(events) <==> x in multiset(unique);
      if x in EventDays(events) {
        var i :| 0 <= i < |events| && EventDays(events)[i] == x;
        assert events[i] in events;
      }
      if exists e :: e in events && e.day == x {
        var e :| e in events && e.day == x;
        var i :| 0 <= i < |events| && events[i] == e;
        assert EventDays(events)[i] == x;
      }
    }
  }

  /** `column.filter(Boolean)`: the values present and not empty, in order. */
  function PresentTexts(column: seq<Option<string>>): (texts: seq<string>)
    ensures |texts| <= |column|
    decreases |column|
  {
    if column == [] then []
    else
      var rest := PresentTexts(column[..|column| - 1]);
      if HasText(column[|column| - 1]) then rest + [column[|column| - 1].value] else rest
  }

  lemma {:induction false} PresentTextsMember(column: seq<Option<string>>, x: string)
    ensures x in PresentTexts(column) <==> x != "" && Some(x) in column
    decreases |column|
  {
    if column != [] {
      var column' := column[..|column| - 1];
      PresentTextsMember(column', x);
      assert column == column' + [column[|column| - 1]];
    }
  }

  /** `Array.from(new Set(column.filter(Boolean))).sort()`. */
  function Facet(column: seq<Option<string>>): (values: seq<string>)
    ensures |values| <= |column|
  {
    SortStrings(Dedup(PresentTexts(column)))
  }

  /** A facet lists each non-empty value once, in strictly ascending order. */
  lemma FacetValues(column: seq<Option<string>>)
    ensures Distinct(Facet(column))
    ensures forall i, j :: 0 <= i < j < |Facet(column)| ==> LexLess(Facet(column)[i], Facet(column)[j])
    ensures forall x :: x in Facet(column) <==> x != "" && Some(x) in column
  {
    var unique := Dedup(PresentTexts(column));
    SortStringsStrict(unique);
    forall x ensures x in Facet(column) <==> x != "" && Some(x) in column {
      assert x in Facet(column) <==> x in multiset(unique);
      PresentTextsMember(column, x);
    }
  }

  function CategoryColumn(events: seq<Event>): seq<Option<string>> {
    seq(|events|, i requires 0 <= i < |events| => events[i].category)
  }

  function AreaColumn(events: seq<Event>): seq<Option<string>> {
    seq(|events|, i requires 0 <= i < |events| => events[i].area)
  }

  /** `categories`. */
  function Categories(events: seq<Event>): (categories: seq<string>)
    ensures |categories| <= |events|
  {
    Facet(CategoryColumn(events))
  }

  /** `areas`. */
  function Areas(events: seq<Event>): (areas: seq<string>)
    ensures |areas| <= |events|
  {
    Facet(AreaColumn(events))
  }

  /** The categories are the distinct non-empty categories of the events, ascending. */
  lemma CategoriesFacet(events: seq<Event>)
    ensures Distinct(Categories(events))
    ensures forall i, j :: 0 <= i < j < |Categories(events)| ==>
      LexLess(Categories(events)[i], Categories(events)[j])
    ensures forall x :: x in Categories(events) <==>
      x != "" && exists e :: e in events && e.category == Some(x)
  {
    var column := CategoryColumn(events);
    FacetValues(column);
    forall x ensures Some(x) in column <==> exists e :: e in events && e.category == Some(x) {
      if Some(x) in column {
        var i :| 0 <= i < |column| && column[i] == Some(x);
        assert events[i] in events;
      }
      if exists e :: e in events && e.category == Some(x) {
        var e :| e in events && e.category == Some(x);
        var i :| 0 <= i < |events| && events[i] == e;
        assert column[i] == Some(x);
      }
    }
  }

  /** The areas are the distinct non-empty areas of the events, ascending. */
  lemma AreasFacet(events: seq<Event>)
    ensures Distinct(Areas(events))
    ensures forall i, j :: 0 <= i < j < |Areas(events)| ==>
      LexLess(Areas(events)[i], Areas(events)[j])
    ensures forall x :: x in Areas(events) <==>
      x != "" && exists e :: e in events && e.area == Some(x)
  {
    var column := AreaColumn(events);
    FacetValues(column);
    forall x ensures Some(x) in column <==> exists e :: e in events && e.area == Some(x) {
      if Some(x) in column {
        var i :| 0 <= i < |column| && column[i] == Some(x);
        assert events[i] in events;
      }
      if exists e :: e in events && e.area == Some(x) {
        var e :| e in events && e.area == Some(x);
        var i :| 0 <= i < |events| && events[i] == e;
        assert column[i] == Some(x);
      }
    }
  }

  // ---------------------------------------------------------------------
  // Filtering

  /** The page's filter controls. */
  datatype FilterState = FilterState(
    activeDay: string,
    selectedCategories: seq<string>,
    selectedArea: string,
    mapOnly: bool)

  /** The value of the area control that lets every area through. */
  const AllAreas: string := "all"

  function OnDay(st: FilterState): Event -> bool {
    (e: Event) => e.day == st.activeDay
  }

  function InCategories(st: FilterState): Event -> bool {
    (e: Event) => |st.selectedCategories| == 0 || e.category.GetOr("") in st.selectedCategories
  }

  function InArea(st: FilterState): Event -> bool {
    (e: Event) => st.selectedArea == AllAreas || e.area == Some(st.selectedArea)
  }

  function WithMap(st: FilterState): Event -> bool {
    (e: Event) => !st.mapOnly || HasText(e.mapUrl)
  }

  /** `filteredEvents`: the four filters, applied in the page's order. */
  function FilteredEvents(events: seq<Event>, st: FilterState): (shown: seq<Event>)
    ensures forall e :: e in shown ==> e in events && Shown(st, e)
  {
    Filter(Filter(Filter(Filter(events, OnDay(st)), InCategories(st)), InArea(st)), WithMap(st))
  }

  /** What an event must satisfy to be shown: all four conditions at once. */
  predicate Shown(st: FilterState, e: Event) {
    && e.day == st.activeDay
    && (|st.selectedCategories| == 0 || e.category.GetOr("") in st.selectedCategories)
    && (st.selectedArea == AllAreas || e.area == Some(st.selectedArea))
    && (!st.mapOnly || HasText(e.mapUrl))
  }

  function ShownTest(st: FilterState): Event -> bool {
    (e: Event) => Shown(st, e)
  }

  /** The chain of filters is one filter by the conjunction of their tests. */
  lemma FilteredEventsIsOneFilter(events: seq<Event>, st: FilterState)
    ensures FilteredEvents(events, st) == Filter(events, ShownTest(st))
  {
    var p1, p2, p3, p4 := OnDay(st), InCategories(st), InArea(st), WithMap(st);
    var p12, p123 := Both(p1, p2), Both(Both(p1, p2), p3);
    assert FilteredEvents(events, st) == Filter(events, Both(p123, p4)) by {
      FilterFilter(events, p1, p2);
      FilterFilter(events, p12, p3);
      FilterFilter(events, p123, p4);
    }
    FilterSameTest(events, Both(p123, p4), ShownTest(st));
  }

  /** The shown events keep their order in the event list, and an event is
      shown exactly when it is on the active day, in a selected category (or
      none is selected), in the selected area (or "all"), and has a map link
      when only those are asked for. */
  lemma FilteredEventsSpec(events: seq<Event>, st: FilterState)
    ensures IsSubseq(FilteredEvents(events, st), events)
    ensures |FilteredEvents(events, st)| <= |events|
    ensures forall e :: e in FilteredEvents(events, st) <==> e in events && Shown(st, e)
  {
    FilteredEventsIsOneFilter(events, st);
  }

  /** With no events there are no days, categories, areas, range or shown events. */
  lemma NoEvents(st: FilterState)
    ensures Days([]) == [] && Categories([]) == [] && Areas([]) == []
    ensures FormatRange(Days([])) == ""
    ensures FilteredEvents([], st) == []
  {
    assert EventDays([]) == [];
    assert CategoryColumn([]) == [] && AreaColumn([]) == [];
  }

  // ---------------------------------------------------------------------
  // The category toggle

  function Unequal(category: string): string -> bool {
    (c: string) => c != category
  }

  /** `toggleCategory`'s update: remove the category if selected, else append it. */
  function Toggle(prev: seq<string>, category: string): (next: seq<string>)
    ensures |next| <= |prev| + 1
    ensures forall c :: c in next ==> c in prev || c == category
  {
    if category in prev then Filter(prev, Unequal(category)) else prev + [category]
  }

  /** Toggling flips the category's membership and leaves every other
      category's membership alone. */
  lemma ToggleFlips(prev: seq<string>, category: string)
    ensures category in Toggle(prev, category) <==> category !in prev
    ensures forall c :: c != category ==> (c in Toggle(prev, category) <==> c in prev)
  {
  }

  /** Toggling a category that was not selected, twice, restores the selection. */
  lemma ToggleTwice(prev: seq<string>, category: string)
    requires category !in prev
    ensures Toggle(Toggle(prev, category), category) == prev
  {
    var added := prev + [category];
    assert category in added;
    assert added[..|prev|] == prev;
    FilterKeepsAll(prev, Unequal(category));
  }

  /** A selection without repeats stays without repeats. */
  lemma ToggleDistinct(prev: seq<string>, category: string)
    requires Distinct(prev)
    ensures Distinct(Toggle(prev, category))
  {
    if category in prev {
      FilterDistinct(prev, Unequal(category));
    }
  }
}

/**
 * The offline ingest script: turns the rows read from the itinerary CSV into
 * normalised events, dating each row by its own day or the last day seen
 * above it, dropping rows that cannot be dated, and sorting the events by a
 * chronological key (the date's time value plus the minutes of the day, or
 * 9999 for an event without a time).
 */
module Ingest {
  import opened Options
  import opened JsText
  import opened Calendar
  import opened Seqs
  import opened Sorting
  import opened TripData

  /** What an event without a usable time adds to its date key. */
  const NoTimeOffset: int := 9999

  /** One row as the CSV reader hands it over (columns by header name); a
      column the row lacks is absent. */
  datatype RawRow = RawRow(
    day: Option<string>,
    time: Option<string>,
    category: Option<string>,
    content: Option<string>,
    notes: Option<string>,
    area: Option<string>,
    googleMaps: Option<string>)

  /** `toDateKey`: the time value of the day's date in the reference year, or
      0 when the day text does not give a month and a day. */
  function ToDateKey(day: string): (k: int)
    ensures MonthDay(day) == None ==> k == 0
    ensures k % MsPerDay == 0
  {
    match MonthDay(day)
    case None => 0
    case Some((m, d)) => Time(MakeDate(TripYear, m - 1, d))
  }

  /** How `toTimeMinutes` reads a time text before combining the parts:
      blank (empty, all white space, or "-"), a text without ':' (so the
      minute part is `undefined`), or the numbers before and after the first
      ':' (`None` where `Number` gives NaN). */
  datatype TimeText = Blank | HourOnly(h: Option<int>) | Clock(h: Option<int>, m: Option<int>)

  function ReadTime(time: string): (r: TimeText)
    ensures r.Blank? <==> Trim(time) == "" || Trim(time) == "-"
  {
    if time == "" || Trim(time) == "-" || Trim(time) == "" then Blank
    else
      var parts := Split(time, ':');
      if |parts| < 2 then HourOnly(JsNumber(parts[0]))
      else Clock(JsNumber(parts[0]), JsNumber(parts[1]))
  }

  /** A time without ':' is read as an hour alone, with no minute part. */
  lemma ReadTimeWithoutColon(time: string)
    requires ':' !in time
    ensures ReadTime(time).Blank? || ReadTime(time) == HourOnly(JsNumber(time))
  {
    SplitPieces(time, ':');
  }

  /** A time with a minute part has a ':'. */
  lemma ReadTimeClockHasColon(time: string)
    requires ReadTime(time).Clock?
    ensures ':' in time
  {
    SplitPieces(time, ':');
  }

  /** `toTimeMinutes` as written: `null`, a number of minutes, or NaN. */
  datatype JsMinutes = Null | Minutes(n: int) | NaN

  /** `toTimeMinutes` exactly as the script has it. When the time has no ':'
      the minute part is `undefined`, which `Number.isNaN` does not flag, so
      the result is `h * 60 + undefined`, that is NaN. */
  function ToTimeMinutesAsWritten(time: string): (r: JsMinutes)
    ensures Trim(time) == "" || Trim(time) == "-" ==> r == Null
    ensures r.NaN? <==> ReadTime(time).HourOnly? && ReadTime(time).h.Some?
  {
    match ReadTime(time)
    case Blank => Null
    case HourOnly(h) => if h.None? then Null else NaN
    case Clock(h, m) => if h.None? || m.None? then Null else Minutes(h.value * 60 + m.value)
  }

  /** `toTimeMinutes` as intended: minutes since midnight of an "H:M" time, or
      no time when the text is blank, is "-", lacks either part, or either part
      is not a number. Only a missing minute part is read differently from
      the script (see ToTimeMinutesAsWritten). */
  function ToTimeMinutes(time: string): (r: Option<int>)
    ensures Trim(time) == "" || Trim(time) == "-" ==> r == None
    ensures r.Some? <==> ReadTime(time).Clock? && ReadTime(time).h.Some? && ReadTime(time).m.Some?
    ensures r.Some? ==> r.value == ReadTime(time).h.value * 60 + ReadTime(time).m.value
  {
    match ReadTime(time)
    case Clock(Some(h), Some(m)) => Some(h * 60 + m)
    case _ => None
  }

  /** Two digit strings joined by ':' are already trimmed and split back
      into the two strings. */
  lemma ClockTextParts(a: string, b: string)
    requires a != [] && b != [] && AllDigits(a) && AllDigits(b)
    ensures Trim(a + ":" + b) == a + ":" + b
    ensures Split(a + ":" + b, ':') == [a, b]
  {
    var t := a + ":" + b;
    assert t[0] == a[0] && t[|t| - 1] == b[|b| - 1];
    TrimmedIsFixed(t);
    assert ':' !in a && ':' !in b;
    assert t == a + [':'] + b;
    SplitAtFirst(a, ':', b);
    SplitPieces(b, ':');
  }

  /** The text `${h}:${m}` reads as `h` hours and `m` minutes. */
  lemma ToTimeMinutesOfClock(h: nat, m: nat)
    ensures ToTimeMinutes(NatToString(h) + ":" + NatToString(m)) == Some(h * 60 + m)
  {
    NumberOfNatToString(h);
    NumberOfNatToString(m);
    ClockOfNumbers(NatToString(h), NatToString(m), h, m);
  }

  /** Zero-padded clock texts such as "09:05" read as the minutes their
      digits give. */
  lemma ToTimeMinutesOfDigits(a: string, b: string, h: nat, m: nat)
    requires a != [] && b != [] && AllDigits(a) && AllDigits(b)
    requires h == DigitsValue(a) && m == DigitsValue(b)
    ensures ToTimeMinutes(a + ":" + b) == Some(h * 60 + m)
  {
    DigitsNumber(a);
    DigitsNumber(b);
    ClockOfNumbers(a, b, h, m);
  }

  /** A non-empty digit string reads as its value. */
  lemma DigitsNumber(a: string)
    requires a != [] && AllDigits(a)
    ensures JsNumber(a) == Some(DigitsValue(a))
  {
  }

  /** Two digit strings joined by ':' read as hours and minutes. */
  lemma ClockOfNumbers(a: string, b: string, h: int, m: int)
    requires a != [] && b != [] && AllDigits(a) && AllDigits(b)
    requires JsNumber(a) == Some(h) && JsNumber(b) == Some(m)
    ensures ToTimeMinutes(a + ":" + b) == Some(h * 60 + m)
  {
    var t := a + ":" + b;
    ClockTextParts(a, b);
    assert |t| >= 3 && t != "-";
    ClockMinutes(t, a, b, h, m);
  }

  lemma ClockMinutes(t: string, a: string, b: string, h: int, m: int)
    requires ReadTime(t) == Clock(JsNumber(a), JsNumber(b))
    requires JsNumber(a) == Some(h) && JsNumber(b) == Some(m)
    ensures ToTimeMinutes(t) == Some(h * 60 + m)
  {
  }

  /** The corrected reading differs from the script's only where the script
      produces NaN, which it reads as "no time". */
  lemma ToTimeMinutesCorrectsNaN(time: string)
    ensures ToTimeMinutes(time) ==
      match ToTimeMinutesAsWritten(time)
      case Minutes(n) => Some(n)
      case _ => None
  {
  }

  /** A time that is a bare number, such as "9", makes the script's
      `toTimeMinutes` NaN, and with it the event's sort key. */
  lemma BareHourIsNaN(time: string)
    requires Trim(time) != "" && Trim(time) != "-"
    requires ':' !in time && JsNumber(time).Some?
    ensures ToTimeMinutesAsWritten(time) == NaN
    ensures ToTimeMinutes(time) == None
  {
    ReadTimeWithoutColon(time);
  }

  lemma BareHourExample()
    ensures ToTimeMinutesAsWritten("9") == NaN
  {
    assert !IsSpace('9');
    TrimmedIsFixed("9");
    assert Decimal("9") == Some(9);
    BareHourIsNaN("9");
  }

  /** What the time adds to the date key. */
  function TimeOffset(time: string): int {
    match ToTimeMinutes(time)
    case Some(m) => m
    case None => NoTimeOffset
  }

  /** `dateKey + (minutes ?? 9999)`. */
  function SortKey(resolvedDay: string, time: string): (k: int)
    ensures 0 <= TimeOffset(time) < MsPerDay ==> k / MsPerDay == ToDateKey(resolvedDay) / MsPerDay
  {
    var dateKey, offset := ToDateKey(resolvedDay), TimeOffset(time);
    if 0 <= offset < MsPerDay then
      QuotientUnique(dateKey + offset, MsPerDay, dateKey / MsPerDay, offset);
      dateKey + offset
    else dateKey + offset
  }

  /** The script's sort key, NaN (`None`) whenever its `toTimeMinutes` is. */
  function SortKeyAsWritten(resolvedDay: string, time: string): (r: Option<int>)
    ensures ToTimeMinutesAsWritten(time) == NaN <==> r == None
  {
    match ToTimeMinutesAsWritten(time)
    case NaN => None
    case Null => Some(ToDateKey(resolvedDay) + NoTimeOffset)
    case Minutes(m) => Some(ToDateKey(resolvedDay) + m)
  }

  /** With the corrected reading a time without minutes counts as no time: the
      event sorts after the timed events of its day instead of getting a NaN key. */
  lemma TimeWithoutMinutesIsAllDay(day: string, time: string)
    requires ':' !in time
    ensures SortKey(day, time) == ToDateKey(day) + NoTimeOffset
  {
    ReadTimeWithoutColon(time);
  }

  /** Sort keys order events by day first: on days whose date keys differ, any
      two times that stay within one day order the events as their days. */
  lemma SortKeyOrdersByDay(day1: string, time1: string, day2: string, time2: string)
    requires ToDateKey(day1) < ToDateKey(day2)
    requires 0 <= TimeOffset(time1) < MsPerDay && 0 <= TimeOffset(time2) < MsPerDay
    ensures SortKey(day1, time1) < SortKey(day2, time2)
  {
    var k1, k2 := ToDateKey(day1), ToDateKey(day2);
    assert k1 == (k1 / MsPerDay) * MsPerDay && k2 == (k2 / MsPerDay) * MsPerDay;
    assert k1 / MsPerDay < k2 / MsPerDay;
    assert k1 + MsPerDay <= k2;
  }

  /** On one day, an event whose time reads below 9999 minutes sorts before an
      event without a time. */
  lemma TimedBeforeUntimed(day: string, time1: string, time2: string)
    requires ToTimeMinutes(time1).Some? && ToTimeMinutes(time1).value < NoTimeOffset
    requires ToTimeMinutes(time2).None?
    ensures SortKey(day, time1) < SortKey(day, time2)
  {
  }

  /** A day text that names an existing date of the reference year gets the
      time value of that very date as its key. */
  lemma DateKeyOf(day: string, m: int, d: int)
    requires MonthDay(day) == Some((m, d)) && Valid(Date(TripYear, m - 1, d))
    ensures ToDateKey(day) == Time(Date(TripYear, m - 1, d))
  {
    MakeValidDate(Date(TripYear, m - 1, d));
  }

  /** Valid dates of the reference year, written "M/D" in any way `Number`
      reads, get date keys in calendar order, a whole day apart or more. */
  lemma DateKeyFollowsCalendar(day1: string, day2: string, m1: int, d1: int, m2: int, d2: int)
    requires MonthDay(day1) == Some((m1, d1)) && MonthDay(day2) == Some((m2, d2))
    requires Valid(Date(TripYear, m1 - 1, d1)) && Valid(Date(TripYear, m2 - 1, d2))
    requires m1 < m2 || (m1 == m2 && d1 < d2)
    ensures ToDateKey(day1) + MsPerDay <= ToDateKey(day2)
  {
    var a, b := Date(TripYear, m1 - 1, d1), Date(TripYear, m2 - 1, d2);
    DateKeyOf(day1, m1, d1);
    DateKeyOf(day2, m2, d2);
    DayNumberMonotone(a, b);
  }

  /** `(field ?? "").trim()`. */
  function RowText(field: Option<string>): string {
    Trim(field.GetOr(""))
  }

  /** `text || undefined`. */
  function Present(text: string): Option<string> {
    if text == "" then None else Some(text)
  }

  /** `${resolvedDay}-${time || "na"}-${index}`. */
  function EventId(resolvedDay: string, time: string, index: nat): string {
    resolvedDay + "-" + (if time == "" then "na" else time) + "-" + NatToString(index)
  }

  /** The event the script pushes for row `index`, dated `resolvedDay`. */
  function MakeEvent(row: RawRow, resolvedDay: string, index: nat): (e: Event)
    ensures e.day == resolvedDay && e.sortKey == SortKey(e.day, e.time.GetOr(""))
  {
    var time := RowText(row.time);
    Event(
      EventId(resolvedDay, time, index),
      resolvedDay,
      Present(time),
      Present(RowText(row.category)),
      RowText(row.content),
      Present(RowText(row.notes)),
      Present(RowText(row.area)),
      Present(RowText(row.googleMaps)),
      SortKey(resolvedDay, time))
  }

  /** The trimmed `day` column of the rows. */
  function DayColumn(records: seq<RawRow>): (days: seq<string>)
    ensures |days| == |records|
    decreases |records|
  {
    if records == [] then []
    else DayColumn(records[..|records| - 1]) + [RowText(records[|records| - 1].day)]
  }

  lemma {:induction false} DayColumnAt(records: seq<RawRow>, i: nat)
    requires i < |records|
    ensures DayColumn(records)[i] == RowText(records[i].day)
    decreases |records|
  {
    if i < |records| - 1 {
      var init := records[..|records| - 1];
      DayColumnAt(init, i);
      assert init[i] == records[i];
    }
  }

  /** Which row an event comes from, and the day it was given. */
  datatype Origin = Origin(day: string, row: nat)

  /** The day row `i` is dated by: its own day when it has one, else the
      nearest non-empty day above it, else "". */
  function CarriedDay(days: seq<string>, i: nat): (day: string)
    requires i < |days|
    ensures day == "" || day in days
  {
    if days[i] != "" then days[i]
    else if i == 0 then ""
    else CarriedDay(days, i - 1)
  }

  /** Carry-forward: a row is undated exactly when neither it nor any row
      above has a day, and otherwise carries the day of the nearest row at
      or above it that has one. */
  lemma {:induction false} CarriedDayIsNearest(days: seq<string>, i: nat)
    requires i < |days|
    ensures CarriedDay(days, i) == "" <==> forall j :: 0 <= j <= i ==> days[j] == ""
    ensures CarriedDay(days, i) != "" ==>
      exists j :: 0 <= j <= i && CarriedDay(days, i) == days[j] &&
        forall k :: j < k <= i ==> days[k] == ""
  {
    if days[i] == "" && i > 0 {
      CarriedDayIsNearest(days, i - 1);
      if CarriedDay(days, i) != "" {
        var j :| 0 <= j <= i - 1 && CarriedDay(days, i - 1) == days[j] &&
          forall k :: j < k <= i - 1 ==> days[k] == "";
        assert forall k :: j < k <= i ==> days[k] == "";
      }
    }
  }

  /** The origins of the events for the first `n` rows, declaratively: one
      for each row that has a carried day, in row order, dated by it. */
  function Dated(days: seq<string>, n: nat): seq<Origin>
    requires n <= |days|
  {
    if n == 0 then []
    else
      var day := CarriedDay(days, n - 1);
      Dated(days, n - 1) + (if day != "" then [Origin(day, n - 1)] else [])
  }

  /** The dated rows are rows with a carried day, each once, in increasing
      order, each dated by its carried day. */
  lemma {:induction false} DatedRows(days: seq<string>, n: nat)
    requires n <= |days|
    ensures |Dated(days, n)| <= n
    ensures forall k :: 0 <= k < |Dated(days, n)| ==>
      var o := Dated(days, n)[k];
      o.row < n && o.day != "" && o.day == CarriedDay(days, o.row)
    ensures forall k, l :: 0 <= k < l < |Dated(days, n)| ==>
      Dated(days, n)[k].row < Dated(days, n)[l].row
  {
    if n > 0 {
      DatedRows(days, n - 1);
      var r, r' := Dated(days, n - 1), Dated(days, n);
      assert forall k :: 0 <= k < |r| ==> r'[k] == r[k];
    }
  }

  /** Every row with a carried day is dated. */
  lemma {:induction false} DatedComplete(days: seq<string>, n: nat, i: nat)
    requires i < n <= |days|
    requires CarriedDay(days, i) != ""
    ensures exists k :: 0 <= k < |Dated(days, n)| && Dated(days, n)[k].row == i
  {
    var r, r' := Dated(days, n - 1), Dated(days, n);
    if i == n - 1 {
      assert r'[|r|].row == i;
    } else {
      DatedComplete(days, n - 1, i);
      var k :| 0 <= k < |r| && r[k].row == i;
      assert r'[k] == r[k];
    }
  }

  /** The events for a list of origins. */
  function Build(records: seq<RawRow>, dated: seq<Origin>): (events: seq<Event>)
    requires forall k :: 0 <= k < |dated| ==> dated[k].row < |records|
    ensures |events| == |dated|
    decreases |dated|
  {
    if dated == [] then []
    else
      var o := dated[|dated| - 1];
      Build(records, dated[..|dated| - 1]) + [MakeEvent(records[o.row], o.day, o.row)]
  }

  lemma {:induction false} BuildAt(records: seq<RawRow>, dated: seq<Origin>, k: nat)
    requires forall k :: 0 <= k < |dated| ==> dated[k].row < |records|
    requires k < |dated|
    ensures Build(records, dated)[k] ==
      MakeEvent(records[dated[k].row], dated[k].day, dated[k].row)
    decreases |dated|
  {
    if k < |dated| - 1 {
      var init := dated[..|dated| - 1];
      BuildAt(records, init, k);
      assert init[k] == dated[k];
    }
  }

  /** The events the script pushes, in push order (before sorting). */
  function Pushed(records: seq<RawRow>): (events: seq<Event>)
    ensures |events| <= |records|
  {
    DatedRows(DayColumn(records), |records|);
    Build(records, Dated(DayColumn(records), |records|))
  }

  /** Everything the script promises of one event it writes: a non-empty
      trimmed day, a trimmed title, optional fields that are absent or
      trimmed and non-empty, and a sort key computed from its own day and
      time. */
  predicate Normalised(e: Event) {
    e.day != "" && Trim(e.day) == e.day && Trim(e.title) == e.title &&
    TrimmedText(e.time) && TrimmedText(e.category) && TrimmedText(e.notes) &&
    TrimmedText(e.area) && TrimmedText(e.mapUrl) &&
    e.sortKey == SortKey(e.day, e.time.GetOr(""))
  }

  /** The event carries the row's own columns, trimmed: the title is always
      there (empty when the content is blank) and an optional field reads as
      "" exactly where the column is blank. */
  predicate HoldsRow(e: Event, row: RawRow) {
    e.title == RowText(row.content) &&
    e.time.GetOr("") == RowText(row.time) &&
    e.category.GetOr("") == RowText(row.category) &&
    e.notes.GetOr("") == RowText(row.notes) &&
    e.area.GetOr("") == RowText(row.area) &&
    e.mapUrl.GetOr("") == RowText(row.googleMaps)
  }

  predicate TrimmedText(o: Option<string>) {
    o.Some? ==> o.value != "" && Trim(o.value) == o.value
  }

  /** A trimmed column is its own trim. */
  lemma RowTextTrimmed(field: Option<string>)
    ensures Trim(RowText(field)) == RowText(field)
    ensures TrimmedText(Present(RowText(field)))
  {
    var t := RowText(field);
    TrimIdempotent(field.GetOr(""));
    assert Trim(t) == t;
    if t != "" {
      assert Present(t) == Some(t);
    }
  }

  /** `(text || undefined) ?? ""` gives the text back. */
  lemma PresentOrEmpty(text: string)
    ensures Present(text).GetOr("") == text
  {
  }

  /** Every event built for a dated row is normalised. */
  lemma MakeEventNormalised(row: RawRow, resolvedDay: string, index: nat)
    requires resolvedDay != "" && Trim(resolvedDay) == resolvedDay
    ensures Normalised(MakeEvent(row, resolvedDay, index))
  {
    var e := MakeEvent(row, resolvedDay, index);
    RowTextTrimmed(row.time);
    RowTextTrimmed(row.category);
    RowTextTrimmed(row.content);
    RowTextTrimmed(row.notes);
    RowTextTrimmed(row.area);
    RowTextTrimmed(row.googleMaps);
    PresentOrEmpty(RowText(row.time));
    assert e.sortKey == SortKey(e.day, e.time.GetOr(""));
  }

  /** Every day of the day column is trimmed, so every carried day is. */
  lemma {:induction false} CarriedDayTrimmed(records: seq<RawRow>, i: nat)
    requires i < |records|
    ensures Trim(CarriedDay(DayColumn(records), i)) == CarriedDay(DayColumn(records), i)
  {
    var days := DayColumn(records);
    DayColumnAt(records, i);
    RowTextTrimmed(records[i].day);
    if days[i] == "" && i > 0 {
      CarriedDayTrimmed(records, i - 1);
    }
  }

  /** The text after the last `c` in `x` (all of `x` when it has none). */
  function AfterLast(x: string, c: char): (r: string)
    ensures c !in r
    decreases |x|
  {
    if x == [] || x[|x| - 1] == c then [] else AfterLast(x[..|x| - 1], c) + [x[|x| - 1]]
  }

  lemma {:induction false} AfterLastSeparator(p: string, c: char, s: string)
    requires c !in s
    ensures AfterLast(p + [c] + s, c) == s
    decreases |s|
  {
    var x := p + [c] + s;
    if s == [] {
      assert x[|x| - 1] == c;
    } else {
      var s' := s[..|s| - 1];
      assert x[..|x| - 1] == p + [c] + s';
      AfterLastSeparator(p, c, s');
      assert s == s' + [s[|s| - 1]];
    }
  }

  /** An id ends in its row index: ids of different rows differ. */
  lemma EventIdDeterminesIndex(d1: string, t1: string, i1: nat, d2: string, t2: string, i2: nat)
    requires EventId(d1, t1, i1) == EventId(d2, t2, i2)
    ensures i1 == i2
  {
    var s1, s2 := NatToString(i1), NatToString(i2);
    var p1 := d1 + "-" + (if t1 == "" then "na" else t1);
    var p2 := d2 + "-" + (if t2 == "" then "na" else t2);
    assert EventId(d1, t1, i1) == p1 + ['-'] + s1;
    assert EventId(d2, t2, i2) == p2 + ['-'] + s2;
    AfterLastSeparator(p1, '-', s1);
    AfterLastSeparator(p2, '-', s2);
    NatToStringInjective(i1, i2);
  }

  /** What the loop emits: at most one event per row, every one normalised,
      no two with the same id. */
  lemma PushedWellFormed(records: seq<RawRow>)
    ensures |Pushed(records)| <= |records|
    ensures forall e :: e in Pushed(records) ==> Normalised(e)
    ensures forall k, l :: 0 <= k < l < |Pushed(records)| ==>
      Pushed(records)[k].id != Pushed(records)[l].id
  {
    var days := DayColumn(records);
    var dated := Dated(days, |records|);
    DatedRows(days, |records|);
    var pushed := Pushed(records);
    forall k | 0 <= k < |pushed| ensures Normalised(pushed[k]) {
      BuildAt(records, dated, k);
      CarriedDayTrimmed(records, dated[k].row);
      MakeEventNormalised(records[dated[k].row], dated[k].day, dated[k].row);
    }
    forall k, l | 0 <= k < l < |pushed| ensures pushed[k].id != pushed[l].id {
      BuildAt(records, dated, k);
      BuildAt(records, dated, l);
      var i, j := dated[k].row, dated[l].row;
      if pushed[k].id == pushed[l].id {
        EventIdDeterminesIndex(dated[k].day, RowText(records[i].time), i,
                               dated[l].day, RowText(records[j].time), j);
      }
    }
  }

  /** The event made from a row holds that row's trimmed columns. */
  lemma MakeEventHoldsRow(row: RawRow, resolvedDay: string, index: nat)
    ensures HoldsRow(MakeEvent(row, resolvedDay, index), row)
  {
  }

  /** Event `e` comes from row `i`: it is dated by the row's carried day
      and holds the row's trimmed columns. */
  predicate FromRow(e: Event, records: seq<RawRow>, i: nat) {
    i < |records| && e.day == CarriedDay(DayColumn(records), i) && HoldsRow(e, records[i])
  }

  /** Every pushed event comes from a row of the sheet. */
  lemma PushedHoldsRows(records: seq<RawRow>)
    ensures forall e :: e in Pushed(records) ==> exists i :: FromRow(e, records, i)
  {
    var pushed := Pushed(records);
    forall e | e in pushed ensures exists i :: FromRow(e, records, i) {
      var k :| 0 <= k < |pushed| && pushed[k] == e;
      var i := PushedRow(records, k);
    }
  }

  /** The row the `k`-th pushed event comes from. */
  lemma PushedRow(records: seq<RawRow>, k: nat) returns (i: nat)
    requires k < |Pushed(records)|
    ensures FromRow(Pushed(records)[k], records, i)
  {
    var dated := Dated(DayColumn(records), |records|);
    DatedRows(DayColumn(records), |records|);
    i := dated[k].row;
    BuildAt(records, dated, k);
    MakeEventHoldsRow(records[i], dated[k].day, i);
  }

  /** A permutation keeps every element and keeps ids distinct. */
  lemma PermutationKeepsEvents(a: seq<Event>, b: seq<Event>)
    requires multiset(a) == multiset(b)
    requires forall e :: e in b ==> Normalised(e)
    requires forall k, l :: 0 <= k < l < |b| ==> b[k].id != b[l].id
    ensures forall e :: e in a ==> Normalised(e)
    ensures forall k, l :: 0 <= k < l < |a| ==> a[k].id != a[l].id
  {
    forall e | e in a ensures Normalised(e) {
      assert e in multiset(a);
    }
    assert Distinct(b) by {
      forall k, l | 0 <= k < l < |b| ensures b[k] != b[l] {
        assert b[k].id != b[l].id;
      }
    }
    PermutationDistinct(a, b);
    forall k, l | 0 <= k < l < |a| ensures a[k].id != a[l].id {
      assert a[k] in multiset(b) && a[l] in multiset(b);
      var k' :| 0 <= k' < |b| && b[k'] == a[k];
      var l' :| 0 <= l' < |b| && b[l'] == a[l];
      assert k' != l';
    }
  }

  /** `events.sort((a, b) => a.sortKey - b.sortKey)`, in place: a stable
      sort, here the insertion sort (StableSortUnique shows that every stable
      sort by the key gives the same result). */
  method SortBySortKey(a: array<Event>)
    modifies a
    ensures a[..] == InsertionSort(old(a[..]), SortKeyOf)
  {
    ghost var s := a[..];
    for i := 0 to a.Length
      invariant a[..i] == InsertionSort(s[..i], SortKeyOf)
      invariant a[i..] == s[i..]
    {
      ghost var sorted, unsorted := a[..i], a[i..];
      InsertNext(a, i);
      assert a[..i + 1] == InsertionSort(s[..i + 1], SortKeyOf) by {
        assert unsorted[0] == s[i];
        assert s[..i + 1][..i] == s[..i];
      }
      assert a[i + 1..] == s[i + 1..] by {
        assert unsorted[1..] == s[i + 1..];
      }
    }
    assert s[..a.Length] == s;
  }

  /** One pass of the insertion sort: moves `a[i]` down past the larger
      keys before it. */
  method InsertNext(a: array<Event>, i: nat)
    requires i < a.Length
    modifies a
    ensures a[..i + 1] == Insert(old(a[..i]), old(a[i]), SortKeyOf)
    ensures a[i + 1..] == old(a[i + 1..])
  {
    var x := a[i];
    ghost var p := a[..i];
    ghost var rest := a[i + 1..];
    var j := i;
    while j > 0 && a[j - 1].sortKey > x.sortKey
      invariant 0 <= j <= i
      invariant forall k :: 0 <= k < j ==> a[k] == p[k]
      invariant forall k :: j < k <= i ==> a[k] == p[k - 1]
      invariant forall k :: j <= k < i ==> p[k].sortKey > x.sortKey
      invariant a[i + 1..] == rest
    {
      a[j] := a[j - 1];
      j := j - 1;
    }
    a[j] := x;
    SplicedAt(a[..i + 1], p, x, j);
    InsertAt(p, x, SortKeyOf, j);
  }

  /** The body of the `forEach` callback once the row is dated: trims the
      columns, computes the sort key and builds the event. */
  method NormaliseRow(row: RawRow, resolvedDay: string, index: nat) returns (event: Event)
    ensures event == MakeEvent(row, resolvedDay, index)
  {
    var time := Trim(row.time.GetOr(""));
    var category := Trim(row.category.GetOr(""));
    var title := Trim(row.content.GetOr(""));
    var notes := Trim(row.notes.GetOr(""));
    var area := Trim(row.area.GetOr(""));
    var mapUrl := Trim(row.googleMaps.GetOr(""));
    var dateKey := ToDateKey(resolvedDay);
    var minutes := ToTimeMinutes(time);
    var sortKey := dateKey + minutes.GetOr(NoTimeOffset);
    assert sortKey == SortKey(resolvedDay, time);
    event := Event(
      resolvedDay + "-" + (if time == "" then "na" else time) + "-" + NatToString(index),
      resolvedDay,
      if time == "" then None else Some(time),
      if category == "" then None else Some(category),
      title,
      if notes == "" then None else Some(notes),
      if area == "" then None else Some(area),
      if mapUrl == "" then None else Some(mapUrl),
      sortKey);
  }

  /** Pushing the event of the next dated row extends the built events. */
  lemma PushNext(records: seq<RawRow>, dated: seq<Origin>, pushed: seq<Event>,
                 resolvedDay: string, index: nat, event: Event)
    requires forall k :: 0 <= k < |dated| ==> dated[k].row < index
    requires index < |records|
    requires pushed == Build(records, dated)
    requires event == MakeEvent(records[index], resolvedDay, index)
    ensures forall k :: 0 <= k < |dated| + 1 ==>
      (dated + [Origin(resolvedDay, index)])[k].row < index + 1
    ensures pushed + [event] == Build(records, dated + [Origin(resolvedDay, index)])
  {
    var dated' := dated + [Origin(resolvedDay, index)];
    assert dated'[..|dated|] == dated;
  }

  /** `records.forEach(...)`: normalises the rows in order, carrying the
      day forward and skipping rows that cannot be dated. */
  method NormaliseRows(records: seq<RawRow>) returns (pushed: seq<Event>)
    ensures pushed == Pushed(records)
  {
    ghost var days := DayColumn(records);
    ghost var dated: seq<Origin> := [];
    var lastDay := "";
    pushed := [];
    for index := 0 to |records|
      invariant lastDay == if index == 0 then "" else CarriedDay(days, index - 1)
      invariant dated == Dated(days, index)
      invariant forall k :: 0 <= k < |dated| ==> dated[k].row < index
      invariant pushed == Build(records, dated)
    {
      var row := records[index];
      var day := Trim(row.day.GetOr(""));
      assert day == days[index] by {
        DayColumnAt(records, index);
      }
      if day != "" {
        lastDay := day;
      }
      var resolvedDay := if day != "" then day else lastDay;
      assert resolvedDay == lastDay == CarriedDay(days, index);
      if resolvedDay == "" {
        continue;
      }
      var event := NormaliseRow(row, resolvedDay, index);
      PushNext(records, dated, pushed, resolvedDay, index, event);
      pushed := pushed + [event];
      dated := dated + [Origin(resolvedDay, index)];
    }
  }

  /** The script: normalise the rows, then sort the events stably by key. */
  method Convert(records: seq<RawRow>) returns (events: seq<Event>)
    ensures events == InsertionSort(Pushed(records), SortKeyOf)
    ensures SortedBy(events, SortKeyOf)
    ensures multiset(events) == multiset(Pushed(records))
    ensures forall k :: WithKey(events, SortKeyOf, k) == WithKey(Pushed(records), SortKeyOf, k)
    ensures |events| <= |records|
    ensures forall e :: e in events ==> Normalised(e)
    ensures forall k, l :: 0 <= k < l < |events| ==> events[k].id != events[l].id
    ensures forall e :: e in events ==> exists i :: FromRow(e, records, i)
  {
    var pushed := NormaliseRows(records);
    var a := new Event[|pushed|](k requires 0 <= k < |pushed| => pushed[k]);
    assert a[..] == pushed;
    SortBySortKey(a);
    events := a[..];
    InsertionSortSorted(pushed, SortKeyOf);
    InsertionSortPermutes(pushed, SortKeyOf);
    forall k ensures WithKey(events, SortKeyOf, k) == WithKey(pushed, SortKeyOf, k) {
      InsertionSortStable(pushed, SortKeyOf, k);
    }
    PushedWellFormed(records);
    PermutationKeepsEvents(events, pushed);
    assert forall e :: e in events ==> exists i :: FromRow(e, records, i) by {
      PushedHoldsRows(records);
      forall e | e in events ensures e in pushed {
        assert e in multiset(pushed);
      }
    }
  }
}

/**
 * The normalised trip event, as the ingest script writes it and the page
 * reads it back, and the "M/D" day text both of them parse.
 */
module TripData {
  import opened Options
  import opened JsText

  /** The year every day text is read in, by the ingest script and the page alike. */
  const TripYear: int := 2026

  /** One itinerary entry. Optional fields are absent rather than empty. */
  datatype Event = Event(
    id: string,
    day: string,
    time: Option<string>,
    category: Option<string>,
    title: string,
    notes: Option<string>,
    area: Option<string>,
    mapUrl: Option<string>,
    sortKey: int)

  function SortKeyOf(e: Event): int {
    e.sortKey
  }

  /** JavaScript truthiness of an optional string: present and not empty. */
  predicate HasText(o: Option<string>) {
    o.Some? && o.value != ""
  }

  /** `const [m, d] = day.split("/").map(Number); if (!m || !d) ...`: the month
      and day numbers of a day text, or `None` when either part is missing,
      is not a number, or is 0. */
  function MonthDay(day: string): (r: Option<(int, int)>)
    ensures r.Some? ==> r.value.0 != 0 && r.value.1 != 0
  {
    var parts := Split(day, '/');
    if |parts| < 2 then None
    else
      match (JsNumber(parts[0]), JsNumber(parts[1]))
      case (Some(m), Some(d)) => if m == 0 || d == 0 then None else Some((m, d))
      case _ => None
  }

  /** A day text without a '/' gives no month and day. */
  lemma MonthDayNeedsSlash(day: string)
    requires '/' !in day
    ensures MonthDay(day) == None
  {
    SplitPieces(day, '/');
  }

  /** The canonical "M/D" text of a month and day reads back as that month and day. */
  lemma MonthDayOfCanonical(m: nat, d: nat)
    requires m > 0 && d > 0
    ensures MonthDay(NatToString(m) + "/" + NatToString(d)) == Some((m, d))
  {
    var a, b := NatToString(m), NatToString(d);
    assert '/' !in a;
    SplitAtFirst(a, '/', b);
    assert a + "/" + b == a + ['/'] + b;
    NumberOfNatToString(m);
    NumberOfNatToString(d);
  }
}

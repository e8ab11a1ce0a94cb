/**
 * The schedule page component: its four pieces of filter state with the
 * handlers that replace them, and the grouping of the shown events by area
 * behind the map links, which fills a `Map` event by event.
 */
module Page {
  import opened Options
  import opened Seqs
  import opened TripData
  import opened View

  // ---------------------------------------------------------------------
  // Map links by area

  /** An event that can get a map link: it has an area and a map URL. */
  predicate Linkable(e: Event) {
    HasText(e.area) && HasText(e.mapUrl)
  }

  /** The areas of the linkable events, in order, with repeats. */
  function LinkAreas(events: seq<Event>): (areas: seq<string>)
    ensures |areas| <= |events|
    decreases |events|
  {
    if events == [] then []
    else
      var e := events[|events| - 1];
      LinkAreas(events[..|events| - 1]) + (if Linkable(e) then [e.area.value] else [])
  }

  lemma {:induction false} LinkAreasMember(events: seq<Event>, a: string)
    ensures a in LinkAreas(events) <==> exists e :: e in events && Linkable(e) && e.area == Some(a)
    decreases |events|
  {
    if events != [] {
      var events' := events[..|events| - 1];
      LinkAreasMember(events', a);
      assert events == events' + [events[|events| - 1]];
    }
  }

  /** The keys of the grouping: the areas in the order they are first met. */
  function AreaKeys(events: seq<Event>): seq<string> {
    Dedup(LinkAreas(events))
  }

  function InGroup(area: string): Event -> bool {
    (e: Event) => Linkable(e) && e.area == Some(area)
  }

  /** The linkable events of one area, in order. */
  function AreaGroup(events: seq<Event>, area: string): seq<Event> {
    Filter(events, InGroup(area))
  }

  /** `Array.from(map.entries())` once every event has been placed. */
  function AreaLinksOf(events: seq<Event>): (links: seq<(string, seq<Event>)>)
    ensures |links| <= |events|
  {
    var keys := AreaKeys(events);
    seq(|keys|, k requires 0 <= k < |keys| => (keys[k], AreaGroup(events, keys[k])))
  }

  /** One more event: a linkable event with a new area opens a new key at the end. */
  lemma AreaKeysStep(events: seq<Event>, e: Event)
    ensures AreaKeys(events + [e]) ==
      if Linkable(e) && e.area.value !in AreaKeys(events) then AreaKeys(events) + [e.area.value]
      else AreaKeys(events)
  {
    var s := events + [e];
    assert s[..|s| - 1] == events;
    var areas := LinkAreas(events);
    if Linkable(e) {
      var a := e.area.value;
      assert LinkAreas(s) == areas + [a];
      assert (areas + [a])[..|areas|] == areas;
    } else {
      assert LinkAreas(s) == areas;
    }
  }

  /** One more event: a linkable event joins the end of its area's group. */
  lemma AreaGroupStep(events: seq<Event>, e: Event, area: string)
    ensures AreaGroup(events + [e], area) ==
      AreaGroup(events, area) + if Linkable(e) && e.area == Some(area) then [e] else []
  {
    var s := events + [e];
    assert s[..|s| - 1] == events;
  }

  /** An area that is not a key has an empty group. */
  lemma NoKeyNoGroup(events: seq<Event>, area: string)
    requires area !in AreaKeys(events)
    ensures AreaGroup(events, area) == []
  {
    LinkAreasMember(events, area);
    FilterNone(events, InGroup(area));
  }

  /** `order` and `groups` hold the grouping of `placed`: the keys in the
      order first met, and for each key its group. */
  ghost predicate Grouped(placed: seq<Event>, order: seq<string>, groups: map<string, seq<Event>>) {
    && order == AreaKeys(placed)
    && (forall a :: a in groups <==> a in order)
    && (forall a :: a in order ==> groups[a] == AreaGroup(placed, a))
  }

  /** An event without an area or a map URL changes nothing. */
  lemma PlaceSkipped(placed: seq<Event>, order: seq<string>, groups: map<string, seq<Event>>, event: Event)
    requires Grouped(placed, order, groups) && !Linkable(event)
    ensures Grouped(placed + [event], order, groups)
  {
    AreaKeysStep(placed, event);
    forall a | a in order ensures groups[a] == AreaGroup(placed + [event], a) {
      AreaGroupStep(placed, event, a);
    }
  }

  /** A linkable event of a new area opens a group of its own at the end. */
  lemma PlaceNewArea(placed: seq<Event>, order: seq<string>, groups: map<string, seq<Event>>, event: Event)
    requires Grouped(placed, order, groups) && Linkable(event) && event.area.value !in groups
    ensures Grouped(placed + [event], order + [event.area.value], groups[event.area.value := [] + [event]])
  {
    var area, s := event.area.value, placed + [event];
    var order', groups' := order + [area], groups[area := [] + [event]];
    assert AreaKeys(s) == order' by {
      AreaKeysStep(placed, event);
    }
    assert forall a :: a in groups' <==> a in order';
    forall a | a in order' ensures groups'[a] == AreaGroup(s, a) {
      AreaGroupStep(placed, event, a);
      if a == area {
        NoKeyNoGroup(placed, area);
      } else {
        assert a in order;
      }
    }
  }

  /** A linkable event of a known area joins the end of its group. */
  lemma PlaceKnownArea(placed: seq<Event>, order: seq<string>, groups: map<string, seq<Event>>, event: Event)
    requires Grouped(placed, order, groups) && Linkable(event) && event.area.value in groups
    ensures Grouped(placed + [event], order, groups[event.area.value := groups[event.area.value] + [event]])
  {
    var area, s := event.area.value, placed + [event];
    var groups' := groups[area := groups[area] + [event]];
    assert AreaKeys(s) == order by {
      AreaKeysStep(placed, event);
    }
    forall a | a in order ensures groups'[a] == AreaGroup(s, a) {
      AreaGroupStep(placed, event, a);
    }
  }

  /** The body of the `forEach`: places one event. */
  method Place(ghost placed: seq<Event>, order: seq<string>, groups: map<string, seq<Event>>, event: Event)
    returns (order': seq<string>, groups': map<string, seq<Event>>)
    requires Grouped(placed, order, groups)
    ensures Grouped(placed + [event], order', groups')
  {
    if event.area.None? || event.area.value == "" || event.mapUrl.None? || event.mapUrl.value == "" {
      PlaceSkipped(placed, order, groups, event);
      return order, groups;
    }
    var area := event.area.value;
    order', groups' := order, groups;
    if area !in groups' {
      PlaceNewArea(placed, order, groups, event);
      groups' := groups'[area := []];
      order' := order' + [area];
    } else {
      PlaceKnownArea(placed, order, groups, event);
    }
    groups' := groups'[area := groups'[area] + [event]];
  }

  /** `areaLinks`: walks the shown events, skips those without an area or a
      map URL, opens a group the first time an area is met (the `Map` keeps
      that order, modelled by `order`) and appends the event to its group. */
  method AreaLinks(filtered: seq<Event>) returns (links: seq<(string, seq<Event>)>)
    ensures links == AreaLinksOf(filtered)
  {
    var order: seq<string> := [];
    var groups: map<string, seq<Event>> := map[];
    assert Grouped(filtered[..0], order, groups) by {
      assert filtered[..0] == [];
    }
    for i := 0 to |filtered|
      invariant Grouped(filtered[..i], order, groups)
    {
      order, groups := Place(filtered[..i], order, groups, filtered[i]);
      assert filtered[..i + 1] == filtered[..i] + [filtered[i]];
    }
    assert Grouped(filtered, order, groups) by {
      assert filtered[..|filtered|] == filtered;
    }
    links := seq(|order|, k requires 0 <= k < |order| => (order[k], groups[order[k]]));
    GroupedLinks(filtered, order, groups);
  }

  /** Listing the keys in order, each with its group, gives the links. */
  lemma GroupedLinks(events: seq<Event>, order: seq<string>, groups: map<string, seq<Event>>)
    requires Grouped(events, order, groups)
    ensures seq(|order|, k requires 0 <= k < |order| => (order[k], groups[order[k]])) == AreaLinksOf(events)
  {
    var links := seq(|order|, k requires 0 <= k < |order| => (order[k], groups[order[k]]));
    assert forall k :: 0 <= k < |links| ==> links[k] == AreaLinksOf(events)[k];
  }

  /** The grouping lists each area once, in the order the areas are first
      met; every group is non-empty, keeps the order of the shown events and
      holds only linkable events of its area; and every linkable event is in
      the group of its area. */
  lemma AreaLinksGrouping(events: seq<Event>)
    ensures forall i, j :: 0 <= i < j < |AreaLinksOf(events)| ==>
      AreaLinksOf(events)[i].0 != AreaLinksOf(events)[j].0 &&
      FirstIndex(LinkAreas(events), AreaLinksOf(events)[i].0) <
      FirstIndex(LinkAreas(events), AreaLinksOf(events)[j].0)
    ensures forall i :: 0 <= i < |AreaLinksOf(events)| ==>
      AreaLinksOf(events)[i].1 != [] && IsSubseq(AreaLinksOf(events)[i].1, events) &&
      forall e :: e in AreaLinksOf(events)[i].1 ==>
        e in events && Linkable(e) && e.area == Some(AreaLinksOf(events)[i].0)
    ensures forall e :: e in events && Linkable(e) ==>
      exists i :: 0 <= i < |AreaLinksOf(events)| &&
        AreaLinksOf(events)[i].0 == e.area.value && e in AreaLinksOf(events)[i].1
  {
    var links, keys := AreaLinksOf(events), AreaKeys(events);
    DedupFirstSeen(LinkAreas(events));
    forall i | 0 <= i < |links| ensures links[i].1 != [] {
      LinkAreasMember(events, keys[i]);
      var e :| e in events && Linkable(e) && e.area == Some(keys[i]);
      assert e in links[i].1;
    }
    forall e | e in events && Linkable(e)
      ensures exists i :: 0 <= i < |links| && links[i].0 == e.area.value && e in links[i].1
    {
      LinkAreasMember(events, e.area.value);
      var i := FirstIndex(keys, e.area.value);
      assert e in links[i].1;
    }
  }

  // ---------------------------------------------------------------------
  // The page state

  /** The page component: the event list it was given and its filter state.
      The facets, the range label, the shown events and the map links are
      recomputed from these. */
  class Home {
    const events: seq<Event>
    var activeDay: string
    var selectedCategories: seq<string>
    var selectedArea: string
    var mapOnly: bool

    /** The selected categories never repeat. */
    predicate Valid()
      reads this
    {
      Distinct(selectedCategories)
    }

    /** The first day (or "" without events), no category, all areas, all events. */
    constructor (events: seq<Event>)
      ensures Valid()
      ensures this.events == events
      ensures activeDay == if |Days(events)| > 0 then Days(events)[0] else ""
      ensures selectedCategories == [] && selectedArea == AllAreas && !mapOnly
    {
      this.events := events;
      var days := Days(events);
      activeDay := if |days| > 0 then days[0] else "";
      selectedCategories := [];
      selectedArea := AllAreas;
      mapOnly := false;
    }

    /** `setActiveDay`. */
    method SetActiveDay(day: string)
      requires Valid()
      modifies this
      ensures Valid()
      ensures activeDay == day
      ensures selectedCategories == old(selectedCategories)
      ensures selectedArea == old(selectedArea) && mapOnly == old(mapOnly)
    {
      activeDay := day;
    }

    /** `toggleCategory`: keeps the selection free of repeats. */
    method ToggleCategory(category: string)
      requires Valid()
      modifies this
      ensures Valid()
      ensures selectedCategories == Toggle(old(selectedCategories), category)
      ensures activeDay == old(activeDay)
      ensures selectedArea == old(selectedArea) && mapOnly == old(mapOnly)
    {
      ToggleDistinct(selectedCategories, category);
      selectedCategories := Toggle(selectedCategories, category);
    }

    /** `setSelectedArea`. */
    method SetSelectedArea(area: string)
      requires Valid()
      modifies this
      ensures Valid()
      ensures selectedArea == area
      ensures activeDay == old(activeDay) && selectedCategories == old(selectedCategories)
      ensures mapOnly == old(mapOnly)
    {
      selectedArea := area;
    }

    /** `setMapOnly`. */
    method SetMapOnly(on: bool)
      requires Valid()
      modifies this
      ensures Valid()
      ensures mapOnly == on
      ensures activeDay == old(activeDay) && selectedCategories == old(selectedCategories)
      ensures selectedArea == old(selectedArea)
    {
      mapOnly := on;
    }
  }
}

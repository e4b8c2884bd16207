/** `parse_html` and `find_events` (parse.py:69-78, 123-127): the events of
    the tournament menu, in page order, kept when they match the search
    words, cut to the limit, and sorted by date on request. */
module Listing {
  import opened Wrappers
  import opened Search
  import opened DateRange
  import opened Anchors
  import opened Sorting

  /** `event and contains(event, search_words)`. */
  predicate Wanted(e: Event, searchWords: Option<Groups>)
  {
    e != [] && Matches(e, searchWords)
  }

  /** The events appended to `events` by the loop of `parse_html`, in order. */
  function Kept(events: seq<Event>, searchWords: Option<Groups>): (r: seq<Event>)
    ensures |r| <= |events|
  {
    if events == [] then []
    else
      var last := events[|events| - 1];
      Kept(events[..|events| - 1], searchWords) + (if Wanted(last, searchWords) then [last] else [])
  }

  /** An event is kept exactly when it is listed and wanted. */
  lemma {:induction false} KeptMembers(events: seq<Event>, searchWords: Option<Groups>, e: Event)
    ensures e in Kept(events, searchWords) <==> e in events && Wanted(e, searchWords)
  {
    if events != [] {
      var init := events[..|events| - 1];
      KeptMembers(init, searchWords, e);
      assert events == init + [events[|events| - 1]];
    }
  }

  /** Keeping is applied to each half of a listing separately. */
  lemma {:induction false} KeptAppend(a: seq<Event>, b: seq<Event>, searchWords: Option<Groups>)
    ensures Kept(a + b, searchWords) == Kept(a, searchWords) + Kept(b, searchWords)
  {
    if b == [] {
      assert a + b == a;
    } else {
      var init := b[..|b| - 1];
      KeptAppend(a, init, searchWords);
      assert (a + b)[..|a + b| - 1] == a + init;
    }
  }

  /** Filtering twice filters no further. */
  lemma {:induction false} KeptIdempotent(events: seq<Event>, searchWords: Option<Groups>)
    ensures Kept(Kept(events, searchWords), searchWords) == Kept(events, searchWords)
  {
    if events != [] {
      var init := events[..|events| - 1];
      var last := events[|events| - 1];
      KeptIdempotent(init, searchWords);
      var tail := if Wanted(last, searchWords) then [last] else [];
      KeptAppend(Kept(init, searchWords), tail, searchWords);
      if Wanted(last, searchWords) {
        assert Kept(tail, searchWords) == Kept([], searchWords) + [last];
      }
    }
  }

  /** Without search words every non-empty event is kept. */
  lemma {:induction false} KeptWithoutTerms(events: seq<Event>, searchWords: Option<Groups>)
    requires NoTerms(searchWords)
    requires forall k :: 0 <= k < |events| ==> events[k] != []
    ensures Kept(events, searchWords) == events
  {
    if events != [] {
      var init := events[..|events| - 1];
      KeptWithoutTerms(init, searchWords);
      assert events == init + [events[|events| - 1]];
    }
  }

  /** `events if limit < 0 else events[:limit]`: a negative limit keeps
      everything, any other keeps at most `limit` events from the front. */
  function Limited(events: seq<Event>, limit: int): (r: seq<Event>)
    ensures limit < 0 ==> r == events
    ensures limit >= 0 ==> |r| == Min(limit, |events|)
    ensures r == events[..|r|]
  {
    if limit < 0 then events else events[..Min(limit, |events|)]
  }

  /** The event, if any, each anchor gives, in page order. */
  function AnchorEvents(thisYear: int, anchors: seq<Anchor>): seq<Result<Event, Error>>
  {
    seq(|anchors|, k requires 0 <= k < |anchors| => AnchorEvent(thisYear, anchors[k]))
  }

  /** What `parse_html` returns for the menu's anchors, or the error of the
      first anchor whose dates do not parse. */
  function HtmlEvents(thisYear: int, anchors: seq<Anchor>, limit: int, searchWords: Option<Groups>): Result<seq<Event>, Error>
  {
    match AllOk(AnchorEvents(thisYear, anchors))
    case Err(e) => Err(e)
    case Ok(events) => Ok(Limited(Kept(events, searchWords), limit))
  }

  /** Every listed event has a series, a name, a start and an end, and
      matches the search words; no more than `limit` are listed when the
      limit is not negative. */
  lemma HtmlEventsShape(thisYear: int, anchors: seq<Anchor>, limit: int, searchWords: Option<Groups>)
    requires HtmlEvents(thisYear, anchors, limit, searchWords).Ok?
    ensures var events := HtmlEvents(thisYear, anchors, limit, searchWords).value;
      && (limit >= 0 ==> |events| <= limit)
      && forall e :: e in events ==> |e| >= 4 && Matches(e, searchWords)
  {
    var parsed := AllOk(AnchorEvents(thisYear, anchors)).value;
    var events := HtmlEvents(thisYear, anchors, limit, searchWords).value;
    forall e | e in events
      ensures |e| >= 4 && Matches(e, searchWords)
    {
      assert e in Kept(parsed, searchWords);
      KeptMembers(parsed, searchWords, e);
      var k :| 0 <= k < |parsed| && parsed[k] == e;
      assert AnchorEvent(thisYear, anchors[k]) == Ok(e);
      AnchorEventDates(thisYear, anchors[k]);
    }
  }

  lemma KeptSnoc(events: seq<Event>, e: Event, searchWords: Option<Groups>)
    ensures Kept(events + [e], searchWords) == Kept(events, searchWords) + (if Wanted(e, searchWords) then [e] else [])
  {
    assert (events + [e])[..|events|] == events;
  }

  /** The first anchor whose dates fail gives the page's error. */
  lemma {:induction false} StopsAt(thisYear: int, anchors: seq<Anchor>, limit: int, searchWords: Option<Groups>, i: nat)
    requires i < |anchors| && AllOk(AnchorEvents(thisYear, anchors)[..i]).Ok?
    requires AnchorEvent(thisYear, anchors[i]).Err?
    ensures HtmlEvents(thisYear, anchors, limit, searchWords) == Err(AnchorEvent(thisYear, anchors[i]).error)
  {
    FirstError(AnchorEvents(thisYear, anchors), i);
  }

  /** When every anchor gave its event, the page's events are those kept. */
  lemma {:induction false} Finished(thisYear: int, anchors: seq<Anchor>, limit: int, searchWords: Option<Groups>, parsed: seq<Event>)
    requires AllOk(AnchorEvents(thisYear, anchors)[..|anchors|]) == Ok(parsed)
    ensures HtmlEvents(thisYear, anchors, limit, searchWords) == Ok(Limited(Kept(parsed, searchWords), limit))
  {
    assert AnchorEvents(thisYear, anchors)[..|anchors|] == AnchorEvents(thisYear, anchors);
  }

  /** One anchor that gives its event extends both the events so far and
      the events kept so far. */
  lemma ParseHtmlStep(thisYear: int, anchors: seq<Anchor>, searchWords: Option<Groups>, parsed: seq<Event>, i: nat, e: Event)
    requires i < |anchors| && AllOk(AnchorEvents(thisYear, anchors)[..i]) == Ok(parsed)
    requires AnchorEvent(thisYear, anchors[i]) == Ok(e)
    ensures AllOk(AnchorEvents(thisYear, anchors)[..i + 1]) == Ok(parsed + [e])
    ensures Kept(parsed + [e], searchWords) == Kept(parsed, searchWords) + (if Wanted(e, searchWords) then [e] else [])
  {
    KeptSnoc(parsed, e, searchWords);
    AllOkSnoc(AnchorEvents(thisYear, anchors), parsed, i);
  }

  /** `parse_html`: anchor by anchor, an event that is there and matches is
      appended; the first anchor whose dates fail ends the page with that
      error. */
  method ParseHtml(thisYear: int, anchors: seq<Anchor>, limit: int, searchWords: Option<Groups>)
    returns (r: Result<seq<Event>, Error>)
    ensures r == HtmlEvents(thisYear, anchors, limit, searchWords)
  {
    ghost var results := AnchorEvents(thisYear, anchors);
    ghost var parsed: seq<Event> := [];
    var events: seq<Event> := [];
    for i := 0 to |anchors|
      invariant AllOk(results[..i]) == Ok(parsed)
      invariant events == Kept(parsed, searchWords)
    {
      var event := ParseEventAnchor(thisYear, anchors[i]);
      if event.Err? {
        StopsAt(thisYear, anchors, limit, searchWords, i);
        return Err(event.error);
      }
      var keep := false;
      if event.value != [] {
        keep := Contains(event.value, searchWords);
      }
      ParseHtmlStep(thisYear, anchors, searchWords, parsed, i, event.value);
      parsed := parsed + [event.value];
      if keep {
        events := events + [event.value];
      }
    }
    Finished(thisYear, anchors, limit, searchWords, parsed);
    r := Ok(Limited(events, limit));
  }

  /** What `find_events` returns: the page's events, sorted by start date,
      series and name when `order_by` is `"date"`. */
  function FoundEvents(thisYear: int, anchors: seq<Anchor>, limit: int, searchWords: Option<Groups>, orderBy: Option<string>): Result<seq<Event>, Error>
  {
    match HtmlEvents(thisYear, anchors, limit, searchWords)
    case Err(e) => Err(e)
    case Ok(events) =>
      if orderBy == Some("date") then
        HtmlEventsShape(thisYear, anchors, limit, searchWords);
        Ok(SortedByKey(events))
      else Ok(events)
  }

  /** Sorting by date reorders the page's events and nothing else: the
      result is sorted, holds the same events, and events with equal keys
      stay in page order. */
  lemma FoundEventsSorted(thisYear: int, anchors: seq<Anchor>, limit: int, searchWords: Option<Groups>, k: Event)
    requires FoundEvents(thisYear, anchors, limit, searchWords, Some("date")).Ok?
    requires Keyed(k)
    ensures var events := HtmlEvents(thisYear, anchors, limit, searchWords).value;
      var sorted := FoundEvents(thisYear, anchors, limit, searchWords, Some("date")).value;
      && AllKeyed(events) && AllKeyed(sorted) && Sorted(sorted)
      && multiset(sorted) == multiset(events)
      && WithKey(sorted, k) == WithKey(events, k)
  {
    var events := HtmlEvents(thisYear, anchors, limit, searchWords).value;
    HtmlEventsShape(thisYear, anchors, limit, searchWords);
    SortedByKeySorted(events);
    SortedByKeyPermutes(events);
    SortedByKeyStable(events, k);
  }

  /** `find_events`: `parse_html`, then an in-place sort when asked for. */
  method FindEvents(thisYear: int, anchors: seq<Anchor>, limit: int, searchWords: Option<Groups>, orderBy: Option<string>)
    returns (r: Result<seq<Event>, Error>)
    ensures r == FoundEvents(thisYear, anchors, limit, searchWords, orderBy)
  {
    var parsed := ParseHtml(thisYear, anchors, limit, searchWords);
    if parsed.Err? || orderBy != Some("date") {
      return parsed;
    }
    HtmlEventsShape(thisYear, anchors, limit, searchWords);
    var events := parsed.value;
    var a := new Event[|events|](k requires 0 <= k < |events| => events[k]);
    assert a[..] == events;
    SortByDate(a);
    r := Ok(a[..]);
  }
}

/** `create_past_filter(today, enabled)`: the filter `main` applies to the
    listing before `add_gaps`. When enabled it keeps the events whose end
    date (field 3) is today or later; otherwise it passes the listing
    through unchanged. The returned closure is the datatype `EventFilter`. */
module PastFilter {
  import opened Calendar
  import opened Anchors
  import opened Sorting

  /** Every event has an end date `fromisoformat` accepts. */
  predicate EndDated(events: seq<Event>)
  {
    forall k :: 0 <= k < |events| ==> |events[k]| >= 4 && IsIsoDate(events[k][3])
  }

  /** `datetime.date.fromisoformat(e[3]) >= today`. */
  predicate Upcoming(e: Event, today: Date)
    requires |e| >= 4 && IsIsoDate(e[3])
  {
    !Before(FromIsoFormat(e[3]), today)
  }

  /** The list `filter_past` builds: the upcoming events, in order. */
  function NotPast(events: seq<Event>, today: Date): (r: seq<Event>)
    requires EndDated(events)
    ensures |r| <= |events| && EndDated(r)
  {
    if events == [] then []
    else
      var init := events[..|events| - 1];
      var last := events[|events| - 1];
      NotPast(init, today) + (if Upcoming(last, today) then [last] else [])
  }

  /** The two closures `create_past_filter` can return. */
  datatype EventFilter = FilterPast(today: Date) | FilterNothing

  /** `create_past_filter(today, enabled)`. */
  function CreatePastFilter(today: Date, enabled: bool): (f: EventFilter)
    ensures enabled <==> f.FilterPast?
    ensures f.FilterPast? ==> f.today == today
  {
    if enabled then FilterPast(today) else FilterNothing
  }

  /** What calling the filter on `events` returns. */
  function Filtered(f: EventFilter, events: seq<Event>): seq<Event>
    requires f.FilterPast? ==> EndDated(events)
  {
    match f
    case FilterPast(today) => NotPast(events, today)
    case FilterNothing => events
  }

  /** Calling the filter: `filter_past` walks the events once, appending the
      upcoming ones; `filter_nothing` returns its argument. */
  method Apply(f: EventFilter, events: seq<Event>) returns (filtered: seq<Event>)
    requires f.FilterPast? ==> EndDated(events)
    ensures filtered == Filtered(f, events)
  {
    if f.FilterNothing? {
      return events;
    }
    filtered := [];
    for i := 0 to |events|
      invariant filtered == NotPast(events[..i], f.today)
    {
      var each := events[i];
      assert events[..i + 1][..i] == events[..i];
      if !Before(FromIsoFormat(each[3]), f.today) {
        filtered := filtered + [each];
      }
    }
    assert events[..|events|] == events;
  }

  /** An event survives exactly when it is listed and upcoming. */
  lemma {:induction false} NotPastMembers(events: seq<Event>, today: Date, e: Event)
    requires EndDated(events)
    ensures e in NotPast(events, today) <==> e in events && |e| >= 4 && IsIsoDate(e[3]) && Upcoming(e, today)
  {
    if events != [] {
      var init := events[..|events| - 1];
      NotPastMembers(init, today, e);
      assert events == init + [events[|events| - 1]];
    }
  }

  /** The filter works on each half of a listing separately, so it keeps the
      events' order. */
  lemma {:induction false} NotPastAppend(a: seq<Event>, b: seq<Event>, today: Date)
    requires EndDated(a) && EndDated(b)
    ensures EndDated(a + b)
    ensures NotPast(a + b, today) == NotPast(a, today) + NotPast(b, today)
  {
    forall k | 0 <= k < |a + b|
      ensures |(a + b)[k]| >= 4 && IsIsoDate((a + b)[k][3])
    {
      if k >= |a| {
        assert (a + b)[k] == b[k - |a|];
      }
    }
    if b == [] {
      assert a + b == a;
    } else {
      var init := b[..|b| - 1];
      var last := b[|b| - 1];
      NotPastAppend(a, init, today);
      assert (a + b)[..|a + b| - 1] == a + init;
      assert (a + b)[|a + b| - 1] == last;
    }
  }

  /** Filtering twice with the same day filters no further. */
  lemma {:induction false} NotPastIdempotent(events: seq<Event>, today: Date)
    requires EndDated(events)
    ensures NotPast(NotPast(events, today), today) == NotPast(events, today)
  {
    NotPastLater(events, today, today);
  }

  /** Filtering at a later day after filtering at an earlier one is filtering
      at the later day. */
  lemma {:induction false} NotPastLater(events: seq<Event>, earlier: Date, later: Date)
    requires EndDated(events)
    requires !Before(later, earlier)
    ensures NotPast(NotPast(events, earlier), later) == NotPast(events, later)
  {
    if events != [] {
      var init := events[..|events| - 1];
      var last := events[|events| - 1];
      NotPastLater(init, earlier, later);
      var tail := if Upcoming(last, earlier) then [last] else [];
      NotPastAppend(NotPast(init, earlier), tail, later);
      if Upcoming(last, earlier) {
        assert NotPast(tail, later) == NotPast([], later) + (if Upcoming(last, later) then [last] else []);
      } else {
        assert !Upcoming(last, later);
      }
    }
  }

  /** When no event has ended before `today`, nothing is dropped. */
  lemma {:induction false} NotPastNothingEnded(events: seq<Event>, today: Date)
    requires EndDated(events)
    requires forall k :: 0 <= k < |events| ==> Upcoming(events[k], today)
    ensures NotPast(events, today) == events
  {
    if events != [] {
      var init := events[..|events| - 1];
      NotPastNothingEnded(init, today);
      assert events == init + [events[|events| - 1]];
    }
  }

  /** The `>=` of dates is the `>=` of their ordinals, the day numbers
      `add_gaps` subtracts. */
  lemma UpcomingOrdinal(e: Event, today: Date)
    requires |e| >= 4 && IsIsoDate(e[3]) && Valid(today)
    ensures Upcoming(e, today) <==> Ordinal(FromIsoFormat(e[3])) >= Ordinal(today)
  {
    OrdinalOrder(FromIsoFormat(e[3]), today);
  }

  /** A listing sorted by `find_events` stays sorted after the filter. */
  lemma {:induction false} NotPastSorted(events: seq<Event>, today: Date)
    requires EndDated(events) && AllKeyed(events) && Sorted(events)
    ensures AllKeyed(NotPast(events, today)) && Sorted(NotPast(events, today))
  {
    var r := NotPast(events, today);
    if events != [] {
      var init := events[..|events| - 1];
      var last := events[|events| - 1];
      assert AllKeyed(init) && Sorted(init);
      NotPastSorted(init, today);
      var s := NotPast(init, today);
      if Upcoming(last, today) {
        assert r == s + [last];
        forall i, j | 0 <= i < j < |r|
          ensures !KeyLess(r[j], r[i])
        {
          if j == |r| - 1 {
            NotPastMembers(init, today, r[i]);
            var k :| 0 <= k < |init| && init[k] == r[i];
            assert events[k] == r[i] && events[|events| - 1] == r[j];
          }
        }
      }
    }
  }

  /** The filtered listing still carries the dates `add_gaps` reads at
      `index`. */
  lemma NotPastDated(events: seq<Event>, today: Date, index: nat)
    requires EndDated(events)
    requires forall k :: 0 <= k < |events| ==> |events[k]| > index && IsIsoDate(events[k][index])
    ensures var r := NotPast(events, today);
      forall k :: 0 <= k < |r| ==> |r[k]| > index && IsIsoDate(r[k][index])
  {
    var r := NotPast(events, today);
    forall k | 0 <= k < |r|
      ensures |r[k]| > index && IsIsoDate(r[k][index])
    {
      NotPastMembers(events, today, r[k]);
    }
  }
}

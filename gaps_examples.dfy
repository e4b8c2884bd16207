/** The cases of `test_add_gaps` (test_parse.py:76-105): one-field events
    `f"{year}-01-{day:02d}"` for a list of January days, with the date at
    index 0. */
module GapsExamples {
  import opened Wrappers
  import opened Numerals
  import opened Calendar
  import opened Anchors
  import opened Gaps

  predicate JanuaryDays(days: seq<int>)
  {
    forall k :: 0 <= k < |days| ==> 1 <= days[k] <= 31
  }

  /** `f"{year}-01-{day:02d}"`. */
  function JanuaryText(year: nat, day: nat): string
  {
    NatToString(year) + "-01-" + Pad2(day)
  }

  /** `to_events(days)` of the test: `None` stays a marker. */
  function Layout(year: nat, days: seq<Option<int>>): seq<Option<Event>>
    requires forall k :: 0 <= k < |days| && days[k].Some? ==> days[k].value >= 0
  {
    seq(|days|, k requires 0 <= k < |days| =>
      if days[k].None? then None else Some([JanuaryText(year, days[k].value)]))
  }

  function January(year: nat, days: seq<int>): seq<Event>
    requires JanuaryDays(days)
  {
    seq(|days|, k requires 0 <= k < |days| => [JanuaryText(year, days[k])])
  }

  /** The test's text is the ISO form of the January date. */
  lemma JanuaryIso(year: nat, day: nat)
    requires 1000 <= year <= 9999 && 1 <= day <= 31
    ensures Valid(Date(year, 1, day))
    ensures JanuaryText(year, day) == IsoFormat(Date(year, 1, day))
  {
    WidthFour(year);
    assert Width(day) <= 2;
    assert Digits(1, 2) == "01" by {
      assert Digits(0, 1) == "0";
    }
  }

  /** Event `k` holds the ISO text of its January day. */
  lemma JanuaryDate(year: nat, days: seq<int>, k: nat)
    requires 1000 <= year <= 9999 && JanuaryDays(days) && k < |days|
    ensures |January(year, days)[k]| > 0 && IsIsoDate(January(year, days)[k][0])
    ensures Valid(Date(year, 1, days[k]))
    ensures FromIsoFormat(January(year, days)[k][0]) == Date(year, 1, days[k])
  {
    JanuaryIso(year, days[k]);
    IsoRoundTrip(Date(year, 1, days[k]), January(year, days)[k][0]);
  }

  /** Every event of `January(year, days)` holds an ISO date. */
  lemma JanuaryDatesAt(year: nat, days: seq<int>)
    requires 1000 <= year <= 9999 && JanuaryDays(days)
    ensures DatesAt(January(year, days), 0)
  {
    forall k | 0 <= k < |days|
      ensures |January(year, days)[k]| > 0 && IsIsoDate(January(year, days)[k][0])
    {
      JanuaryDate(year, days, k);
    }
  }

  /** Two January days are close exactly when they are at most one day
      apart. */
  lemma JanuaryCloseness(year: nat, days: seq<int>)
    requires 1000 <= year <= 9999 && JanuaryDays(days) && |days| >= 2
    ensures DatesAt(January(year, days), 0)
    ensures forall j :: 0 <= j < |days| - 1 ==>
      Closeness(January(year, days), 0)[j] == (days[j + 1] - days[j] <= 1)
  {
    JanuaryDatesAt(year, days);
    forall j | 0 <= j < |days| - 1
      ensures Closeness(January(year, days), 0)[j] == (days[j + 1] - days[j] <= 1)
    {
      JanuaryPair(year, days, j);
    }
  }

  /** One adjacent pair of January days. */
  lemma JanuaryPair(year: nat, days: seq<int>, j: nat)
    requires 1000 <= year <= 9999 && JanuaryDays(days) && j + 1 < |days|
    requires DatesAt(January(year, days), 0)
    ensures Closeness(January(year, days), 0)[j] == (days[j + 1] - days[j] <= 1)
  {
    var events := January(year, days);
    JanuaryDayOf(year, days, j);
    JanuaryDayOf(year, days, j + 1);
    assert DayOf(events, 0, j + 1) - DayOf(events, 0, j) == days[j + 1] - days[j];
  }

  /** In January, the day number is the days before the year plus the
      day. */
  lemma JanuaryDayOf(year: nat, days: seq<int>, k: nat)
    requires 1000 <= year <= 9999 && JanuaryDays(days) && 2 <= |days| && k < |days|
    requires DatesAt(January(year, days), 0)
    ensures DayOf(January(year, days), 0, k) == DaysBeforeYear(year) + days[k]
  {
    JanuaryDate(year, days, k);
  }

  /** The gap pattern of `days` in the closeness `c`. */
  lemma ClosenessIs(year: nat, days: seq<int>, c: seq<bool>)
    requires 1000 <= year <= 9999 && JanuaryDays(days) && |days| >= 2
    requires |c| == |days| - 1
    requires forall j :: 0 <= j < |c| ==> c[j] == (days[j + 1] - days[j] <= 1)
    ensures DatesAt(January(year, days), 0) && Closeness(January(year, days), 0) == c
  {
    JanuaryCloseness(year, days);
  }

  /** No input, no output. */
  lemma NoEvents()
    ensures Gapped([], 0) == []
  {
  }

  /** The output for three events with closeness `c` and the marker
      pattern `out`. */
  lemma SpreadThree(events: seq<Event>, c: seq<bool>)
    requires |events| == 3 && |c| == 2
    ensures c == [true, false] ==> Spread(events, c, 3) == [Some(events[0]), Some(events[1]), None, Some(events[2])]
    ensures c == [false, true] ==> Spread(events, c, 3) == [Some(events[0]), None, Some(events[1]), Some(events[2])]
  {
    assert Spread(events, c, 1) == [Some(events[0])] by {
      assert Spread(events, c, 1) == Spread(events, c, 0) + Slot(events, c, 0);
    }
  }

  lemma SpreadTwo(events: seq<Event>, c: seq<bool>)
    requires |events| == 2 && |c| == 1
    ensures Spread(events, c, 2) == [Some(events[0]), Some(events[1])]
  {
    assert Spread(events, c, 1) == [Some(events[0])] by {
      assert Spread(events, c, 1) == Spread(events, c, 0) + Slot(events, c, 0);
    }
  }

  lemma LayoutThree(year: nat, a: int, b: int, d: int)
    requires 1000 <= year <= 9999 && 1 <= a <= 31 && 1 <= b <= 31 && 1 <= d <= 31
    ensures var e := January(year, [a, b, d]);
      && Layout(year, [Some(a), Some(b), None, Some(d)]) == [Some(e[0]), Some(e[1]), None, Some(e[2])]
      && Layout(year, [Some(a), None, Some(b), Some(d)]) == [Some(e[0]), None, Some(e[1]), Some(e[2])]
  {
  }

  /** `[a, b, d]` of `year` with closeness `c`. */
  lemma ThreeDays(year: nat, a: int, b: int, d: int)
    requires 1000 <= year <= 9999 && 1 <= a <= 31 && 1 <= b <= 31 && 1 <= d <= 31
    ensures DatesAt(January(year, [a, b, d]), 0)
    ensures b - a <= 1 && d - b > 1 ==>
      Gapped(January(year, [a, b, d]), 0) == Layout(year, [Some(a), Some(b), None, Some(d)])
    ensures b - a > 1 && d - b <= 1 ==>
      Gapped(January(year, [a, b, d]), 0) == Layout(year, [Some(a), None, Some(b), Some(d)])
  {
    var c := [b - a <= 1, d - b <= 1];
    ClosenessIs(year, [a, b, d], c);
    SpreadThree(January(year, [a, b, d]), c);
    LayoutThree(year, a, b, d);
  }

  /** `[a, b]` of `year`: no marker either way. */
  lemma TwoDays(year: nat, a: int, b: int)
    requires 1000 <= year <= 9999 && 1 <= a <= 31 && 1 <= b <= 31
    ensures DatesAt(January(year, [a, b]), 0)
    ensures Gapped(January(year, [a, b]), 0) == Layout(year, [Some(a), Some(b)])
  {
    ClosenessIs(year, [a, b], [b - a <= 1]);
    SpreadTwo(January(year, [a, b]), [b - a <= 1]);
  }

  lemma OneDay(year: nat, a: int)
    requires 1000 <= year <= 9999 && 1 <= a <= 31
    ensures DatesAt(January(year, [a]), 0)
    ensures Gapped(January(year, [a]), 0) == Layout(year, [Some(a)])
  {
    var events := January(year, [a]);
    assert Spread(events, [], 1) == Spread(events, [], 0) + Slot(events, [], 0);
  }

  /** `[1]` stays `[1]`. */
  lemma OneEvent()
    ensures DatesAt(January(2010, [1]), 0)
    ensures Gapped(January(2010, [1]), 0) == Layout(2010, [Some(1)])
  {
    OneDay(2010, 1);
  }

  /** `[1, 2]` and `[1, 3]` stay as they are. */
  lemma TwoEvents()
    ensures DatesAt(January(2011, [1, 2]), 0) && DatesAt(January(2012, [1, 3]), 0)
    ensures Gapped(January(2011, [1, 2]), 0) == Layout(2011, [Some(1), Some(2)])
    ensures Gapped(January(2012, [1, 3]), 0) == Layout(2012, [Some(1), Some(3)])
  {
    TwoDays(2011, 1, 2);
    TwoDays(2012, 1, 3);
  }

  /** `[1, 2, 4]` gives `[1, 2, None, 4]`: a marker after the run. */
  lemma MarkerAfterRun()
    ensures DatesAt(January(2013, [1, 2, 4]), 0)
    ensures Gapped(January(2013, [1, 2, 4]), 0) == Layout(2013, [Some(1), Some(2), None, Some(4)])
  {
    ThreeDays(2013, 1, 2, 4);
  }

  /** `[1, 3, 4]` gives `[1, None, 3, 4]`: a marker before the run. */
  lemma MarkerBeforeRun()
    ensures DatesAt(January(2014, [1, 3, 4]), 0)
    ensures Gapped(January(2014, [1, 3, 4]), 0) == Layout(2014, [Some(1), None, Some(3), Some(4)])
  {
    ThreeDays(2014, 1, 3, 4);
  }

  /** The closeness of the nine-event case: runs at pairs 0, 2 and 4. */
  predicate NineCase(events: seq<Event>, c: seq<bool>)
  {
    |events| == 9 && c == [true, false, true, false, true, false, false, false]
  }

  /** Two more slots of the output. */
  lemma SpreadTwoMore(events: seq<Event>, c: seq<bool>, m: nat)
    requires |c| == PairCount(|events|) && m + 2 <= |events|
    ensures Spread(events, c, m + 2) == Spread(events, c, m) + Slot(events, c, m) + Slot(events, c, m + 1)
  {
  }

  lemma NineFirst(events: seq<Event>, c: seq<bool>)
    requires NineCase(events, c)
    ensures Spread(events, c, 1) == [Some(events[0])]
  {
    assert Spread(events, c, 1) == Spread(events, c, 0) + Slot(events, c, 0);
  }

  lemma NineToThree(events: seq<Event>, c: seq<bool>)
    requires NineCase(events, c)
    ensures Spread(events, c, 3) == Spread(events, c, 1) + [Some(events[1]), None, Some(events[2])]
  {
    SpreadTwoMore(events, c, 1);
    assert !Marked(c, 1) && Marked(c, 2);
  }

  lemma NineToFive(events: seq<Event>, c: seq<bool>)
    requires NineCase(events, c)
    ensures Spread(events, c, 5) == Spread(events, c, 3) + [Some(events[3]), None, Some(events[4])]
  {
    SpreadTwoMore(events, c, 3);
    assert !Marked(c, 3) && Marked(c, 4);
  }

  lemma NineToSeven(events: seq<Event>, c: seq<bool>)
    requires NineCase(events, c)
    ensures Spread(events, c, 7) == Spread(events, c, 5) + [Some(events[5]), None, Some(events[6])]
  {
    SpreadTwoMore(events, c, 5);
    assert !Marked(c, 5) && Marked(c, 6);
  }

  lemma NineToNine(events: seq<Event>, c: seq<bool>)
    requires NineCase(events, c)
    ensures Spread(events, c, 9) == Spread(events, c, 7) + [Some(events[7]), Some(events[8])]
  {
    SpreadTwoMore(events, c, 7);
    assert !Marked(c, 7) && !Marked(c, 8);
  }

  /** Nine events whose runs are the pairs 0-1, 2-3 and 4-5, followed by
      far-apart events: a marker before events 2, 4 and 6 only. */
  lemma SpreadNine(events: seq<Event>, c: seq<bool>)
    requires NineCase(events, c)
    ensures Spread(events, c, 9) == [Some(events[0]), Some(events[1]), None, Some(events[2]),
      Some(events[3]), None, Some(events[4]), Some(events[5]), None, Some(events[6]),
      Some(events[7]), Some(events[8])]
  {
    var e0, e1, e2, e3, e4 := Some(events[0]), Some(events[1]), Some(events[2]), Some(events[3]), Some(events[4]);
    var e5, e6, e7, e8 := Some(events[5]), Some(events[6]), Some(events[7]), Some(events[8]);
    NineFirst(events, c);
    NineToThree(events, c);
    assert Spread(events, c, 3) == [e0, e1, None, e2];
    NineToFive(events, c);
    assert Spread(events, c, 5) == [e0, e1, None, e2, e3, None, e4];
    NineToSeven(events, c);
    assert Spread(events, c, 7) == [e0, e1, None, e2, e3, None, e4, e5, None, e6];
    NineToNine(events, c);
  }

  lemma ClosenessNine(year: nat)
    requires 1000 <= year <= 9999
    ensures DatesAt(January(year, [1, 2, 4, 5, 7, 8, 10, 12, 14]), 0)
    ensures Closeness(January(year, [1, 2, 4, 5, 7, 8, 10, 12, 14]), 0) ==
      [true, false, true, false, true, false, false, false]
  {
    ClosenessIs(year, [1, 2, 4, 5, 7, 8, 10, 12, 14], [true, false, true, false, true, false, false, false]);
  }

  /** `[1, 2, 4, 5, 7, 8, 10, 12, 14]` gives
      `[1, 2, None, 4, 5, None, 7, 8, None, 10, 12, 14]`: markers after runs,
      none between far-apart events. */
  lemma MarkersAfterRuns()
    ensures DatesAt(January(2015, [1, 2, 4, 5, 7, 8, 10, 12, 14]), 0)
    ensures var e := January(2015, [1, 2, 4, 5, 7, 8, 10, 12, 14]);
      Gapped(e, 0) == [Some(e[0]), Some(e[1]), None, Some(e[2]), Some(e[3]), None,
        Some(e[4]), Some(e[5]), None, Some(e[6]), Some(e[7]), Some(e[8])]
  {
    ClosenessNine(2015);
    SpreadNine(January(2015, [1, 2, 4, 5, 7, 8, 10, 12, 14]), [true, false, true, false, true, false, false, false]);
  }
}

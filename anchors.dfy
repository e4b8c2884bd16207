/** `strip` and `parse_event_anchor` (parse.py:14-34): one menu anchor of
    the tournament page becomes an event `[series, name, start, end]`, or
    the empty list when it names no date. The anchor is given by what the
    HTML tree and the regular expression would tell about it. */
module Anchors {
  import opened Wrappers
  import opened PyStrings
  import opened DateRange

  /** An event as the scraper keeps it: a Python list of strings, normally
      `[series, name, start, end]`; the empty list stands for "no event". */
  type Event = seq<string>

  /** What the scraper reads from one `<a>` element of the menu.
      `text` is `anchor.string` (None when the element has no single string),
      `found` is `date_pattern.findall` and `firstMatch` the offset of
      `date_pattern.search` on the stripped text, and `series` is what
      `extract_series(anchor)` returns. */
  datatype Anchor = Anchor(text: Option<string>, found: seq<string>, firstMatch: nat, series: string)

  /** `strip(value)`: no text and blank text are both `None`; anything else
      is returned with the whitespace around it removed. */
  function StripText(value: Option<string>): (r: Option<string>)
    ensures value.None? ==> r.None?
    ensures value.Some? ==> (r.None? <==> forall k :: 0 <= k < |value.value| ==> IsSpace(value.value[k]))
    ensures r.Some? ==> value.Some? && r.value == Strip(value.value)
    ensures r.Some? ==> r.value != [] && !IsSpace(r.value[0]) && !IsSpace(r.value[|r.value| - 1])
  {
    if value.None? then value
    else
      var stripped := Strip(value.value);
      if stripped == [] then None else Some(stripped)
  }

  /** Stripping what `strip` returned changes nothing. */
  lemma StripTextIdempotent(value: Option<string>)
    ensures StripText(StripText(value)) == StripText(value)
  {
    var r := StripText(value);
    if r.Some? {
      StripWhereExact(r.value, IsSpace, 0, |r.value|);
      assert r.value[0..|r.value|] == r.value;
    }
  }

  /** `text[:start_index].strip()`: the event name in front of the first
      date; Python's slice stops at the end of the text. */
  function Primary(text: string, firstMatch: nat): string
  {
    Strip(text[..Min(firstMatch, |text|)])
  }

  /** A single date is both the start and the end. */
  function StartEnd(dates: seq<string>): seq<string>
  {
    if |dates| == 1 then dates + dates else dates
  }

  /** `parse_event_anchor(this_year, anchor)`. */
  function AnchorEvent(thisYear: int, anchor: Anchor): (r: Result<Event, Error>)
  {
    var text := StripText(anchor.text);
    if text.None? then Ok([])
    else
      match ResolveRange(thisYear, anchor.found)
      case Err(e) => Err(e)
      case Ok(dateRange) =>
        if dateRange == [] then Ok([])
        else
          var primary := Primary(text.value, anchor.firstMatch);
          Ok([anchor.series] + [primary] + StartEnd(dateRange))
  }

  /** A blank anchor and an anchor without dates give no event; an
      anchor whose dates fail gives their error; any other gives its
      series, its name in front of the first date, and its dates, the only
      date twice. */
  lemma AnchorEventFields(thisYear: int, anchor: Anchor)
    ensures var r := AnchorEvent(thisYear, anchor);
      var text := StripText(anchor.text);
      var dates := ResolveRange(thisYear, anchor.found);
      && (text.None? ==> r == Ok([]))
      && (text.Some? ==> (r.Err? <==> dates.Err?))
      && (r.Err? ==> r.error == dates.error)
      && (r.Ok? && r.value == [] ==> text.None? || anchor.found == [])
      && (r.Ok? && r.value != [] ==>
        && text.Some? && anchor.found != []
        && |r.value| == 2 + |StartEnd(dates.value)|
        && r.value[0] == anchor.series
        && r.value[1] == Primary(text.value, anchor.firstMatch)
        && r.value[2..] == StartEnd(dates.value))
  {
    var text := StripText(anchor.text);
    if text.Some? {
      var dates := ResolveRange(thisYear, anchor.found);
      if dates.Ok? && dates.value != [] {
        var e := [anchor.series] + [Primary(text.value, anchor.firstMatch)] + StartEnd(dates.value);
        assert AnchorEvent(thisYear, anchor) == Ok(e);
        assert e[2..] == StartEnd(dates.value);
      }
    }
  }

  /** `parse_event_anchor`, calling the date-range parser. It restates
      `AnchorEvent` as straight-line code because it is the caller of the
      loop-based `ParseDateRange` method, and its postcondition ties it back
      to `AnchorEvent`. */
  method ParseEventAnchor(thisYear: int, anchor: Anchor) returns (r: Result<Event, Error>)
    ensures r == AnchorEvent(thisYear, anchor)
  {
    var text := StripText(anchor.text);
    if text.None? {
      return Ok([]);
    }
    var dateRange := ParseDateRange(thisYear, anchor.found);
    if dateRange.Err? {
      return Err(dateRange.error);
    }
    var dates := dateRange.value;
    if dates == [] {
      return Ok([]);
    }
    var primary := Primary(text.value, anchor.firstMatch);
    if |dates| == 1 {
      dates := dates + dates;
    }
    r := Ok([anchor.series] + [primary] + dates);
  }

  /** An anchor with dates gives an event of at least four fields whose
      dates are the tokens' dates in order; with exactly one date token the
      event starts and ends on that date. */
  lemma AnchorEventDates(thisYear: int, anchor: Anchor)
    requires AnchorEvent(thisYear, anchor).Ok? && AnchorEvent(thisYear, anchor).value != []
    ensures var e := AnchorEvent(thisYear, anchor).value;
      var dates := ResolveRange(thisYear, anchor.found).value;
      && |e| >= 4
      && |dates| == |anchor.found|
      && (|anchor.found| == 1 ==> e[2] == e[3] == dates[0])
      && (|anchor.found| >= 2 ==> e[2..] == dates)
  {
    AnchorEventFields(thisYear, anchor);
    var e := AnchorEvent(thisYear, anchor).value;
    var dates := ResolveRange(thisYear, anchor.found).value;
    StartEndFields(dates);
    DatesAfterName(e, StartEnd(dates));
  }

  /** Doubling a single date gives two dates, both of them that date. */
  lemma StartEndFields(dates: seq<string>)
    requires dates != []
    ensures |StartEnd(dates)| >= 2
    ensures |dates| == 1 ==> StartEnd(dates)[0] == StartEnd(dates)[1] == dates[0]
    ensures |dates| >= 2 ==> StartEnd(dates) == dates
  {
  }

  lemma DatesAfterName(e: Event, dates: seq<string>)
    requires |e| >= 2 && e[2..] == dates
    ensures |e| == 2 + |dates|
    ensures forall k :: 0 <= k < |dates| ==> e[2 + k] == dates[k]
  {
    forall k | 0 <= k < |dates|
      ensures e[2 + k] == dates[k]
    {
      assert e[2..][k] == e[2 + k];
    }
  }

  /** The name field carries no whitespace at either end. */
  lemma AnchorEventName(thisYear: int, anchor: Anchor)
    requires AnchorEvent(thisYear, anchor).Ok? && AnchorEvent(thisYear, anchor).value != []
    ensures NoOuterSpace(AnchorEvent(thisYear, anchor).value[1])
  {
    AnchorEventFields(thisYear, anchor);
    PrimaryTrimmed(StripText(anchor.text).value, anchor.firstMatch);
  }

  lemma PrimaryTrimmed(text: string, firstMatch: nat)
    ensures NoOuterSpace(Primary(text, firstMatch))
  {
  }
}

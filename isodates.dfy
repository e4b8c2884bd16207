/** The strings `parse_date_range` returns are what `add_gaps` and
    `filter_past` hand to `datetime.date.fromisoformat` (parse.py:144-145,
    178). Each is the dash-joined completed pieces of one token: a year,
    then month and day as `f"{n:02d}"` text. Such a string is a
    `YYYY-MM-DD` text `fromisoformat` accepts exactly when the pieces name
    a valid date whose year has four digits, and it then reads back as
    that date. */
module IsoDates {
  import opened Wrappers
  import opened Numerals
  import opened PyStrings
  import opened DateRange
  import Calendar

  /** Month or day text as `f"{n:02d}"` writes it. */
  predicate TwoDigitText(p: Piece)
  {
    p.Padded? && ParseInt(p.text).Some? && p.text == Pad2(ParseInt(p.text).value)
  }

  /** A completed piece list: a year, then month and day as two-digit
      text. */
  predicate YearMonthDay(p: seq<Piece>)
  {
    |p| == 3 && p[0].Year? && TwoDigitText(p[1]) && TwoDigitText(p[2])
  }

  /** The date a completed piece list names. */
  function DateOf(p: seq<Piece>): Calendar.Date
    requires YearMonthDay(p)
  {
    Calendar.Date(p[0].value, ParseInt(p[1].text).value, ParseInt(p[2].text).value)
  }

  /** `"-".join` of three pieces. */
  lemma JoinDashThree(p: seq<Piece>)
    requires |p| == 3
    ensures JoinDash(p) == Render(p[0]) + "-" + Render(p[1]) + "-" + Render(p[2])
  {
    var r := seq(|p|, k requires 0 <= k < |p| => Render(p[k]));
    assert r[1..][1..] == [r[2]];
    assert Join(r[1..], '-') == r[1] + "-" + r[2];
  }

  /** Where the three parts sit in the joined text. */
  lemma PartsAt(a: string, b: string, c: string, s: string)
    requires s == a + "-" + b + "-" + c
    ensures |s| == |a| + |b| + |c| + 2
    ensures forall k :: 0 <= k < |a| ==> s[k] == a[k]
    ensures s[|a|] == '-' && s[|a| + 1 + |b|] == '-'
    ensures forall k :: 0 <= k < |b| ==> s[|a| + 1 + k] == b[k]
    ensures forall k :: 0 <= k < |c| ==> s[|a| + |b| + 2 + k] == c[k]
  {
  }

  /** A joined text `fromisoformat` accepts has its year in four places,
      with no sign, and its month in two. */
  lemma IsoWidths(y: int, b: string, c: string, s: string)
    requires s == IntToString(y) + "-" + b + "-" + c
    requires |b| >= 2 && AllDigits(b) && AllDigits(c)
    requires Calendar.IsIsoDate(s)
    ensures y >= 0 && |IntToString(y)| == 4 && |b| == 2
  {
    var a := IntToString(y);
    PartsAt(a, b, c, s);
    assert s[..4][0] == s[0];
    assert IsDigit(s[0]);
    assert y >= 0;
    assert a == ZeroPadded(y, 0);
    assert forall k :: 0 <= k < 4 ==> IsDigit(s[k]) by {
      forall k | 0 <= k < 4
        ensures IsDigit(s[k])
      {
        assert s[..4][k] == s[k];
      }
    }
    assert forall k :: 0 <= k < |a| ==> IsDigit(s[k]);
  }

  /** The year text of a four-digit year. */
  lemma FourDigitYear(y: int)
    requires y >= 0 && |IntToString(y)| == 4
    ensures 1000 <= y <= 9999 && IntToString(y) == Digits(y, 4)
  {
    assert Width(y) == 4;
    assert Pow10(3) == 1000 && Pow10(4) == 10000;
  }

  /** Month or day text of a number below 100 is its two digits. */
  lemma TwoDigits(n: nat)
    requires n < 100
    ensures Pad2(n) == Digits(n, 2)
  {
    assert Width(n) <= 2;
  }

  /** The joined text is accepted by `fromisoformat` when the pieces name a
      valid date with a four-digit year. */
  lemma JoinDashValid(p: seq<Piece>)
    requires YearMonthDay(p) && 1000 <= p[0].value && Calendar.Valid(DateOf(p))
    ensures JoinDash(p) == Calendar.IsoFormat(DateOf(p))
  {
    var d := DateOf(p);
    JoinDashThree(p);
    WidthFour(d.year);
    TwoDigits(d.month);
    TwoDigits(d.day);
  }

  /** A joined text `fromisoformat` accepts reads back as the date the
      pieces name, which is valid and has a four-digit year. */
  lemma JoinDashAccepted(p: seq<Piece>)
    requires YearMonthDay(p) && Calendar.IsIsoDate(JoinDash(p))
    ensures 1000 <= p[0].value && Calendar.Valid(DateOf(p))
    ensures Calendar.FromIsoFormat(JoinDash(p)) == DateOf(p)
  {
    var s := JoinDash(p);
    var y, b, c := p[0].value, p[1].text, p[2].text;
    JoinDashThree(p);
    assert s == IntToString(y) + "-" + b + "-" + c;
    IsoWidths(y, b, c, s);
    FourDigitYear(y);
    var a := IntToString(y);
    PartsAt(a, b, c, s);
    assert s[..4] == a;
    assert s[5..7] == b;
    assert s[8..] == c;
    DigitsValue(y, 4);
  }

  /** The completed pieces of a token, dash-joined, are a `YYYY-MM-DD` text
      `fromisoformat` accepts exactly when they name a valid date with a
      four-digit year, and the text then reads back as that date. */
  lemma JoinDashIso(p: seq<Piece>)
    requires YearMonthDay(p)
    ensures Calendar.IsIsoDate(JoinDash(p)) <==> 1000 <= p[0].value && Calendar.Valid(DateOf(p))
    ensures Calendar.IsIsoDate(JoinDash(p)) ==> Calendar.FromIsoFormat(JoinDash(p)) == DateOf(p)
  {
    if Calendar.IsIsoDate(JoinDash(p)) {
      JoinDashAccepted(p);
    } else if 1000 <= p[0].value && Calendar.Valid(DateOf(p)) {
      JoinDashValid(p);
      Calendar.IsoRoundTrip(DateOf(p), JoinDash(p));
    }
  }

  /** What `parse_date` leaves for a token of at most three pieces: the
      last two entries are two-digit text, and a third entry in front is a
      year, of four digits at least when `thisYear` has them. */
  predicate Shaped(thisYear: int, l: seq<Piece>)
  {
    && 1 <= |l| <= 3
    && TwoDigitText(l[|l| - 1])
    && (|l| >= 2 ==> TwoDigitText(l[|l| - 2]))
    && (|l| == 3 ==> l[0].Year? && (1000 <= thisYear ==> 1000 <= l[0].value))
  }

  /** The piece at `index` is two-digit text for the day and month. */
  lemma PieceAtShape(thisYear: int, index: nat, numeric: nat)
    ensures index < 2 ==> TwoDigitText(PieceAt(thisYear, index, numeric))
    ensures index >= 2 ==> PieceAt(thisYear, index, numeric).Year?
    ensures index >= 2 && 1000 <= thisYear ==> 1000 <= PieceAt(thisYear, index, numeric).value
  {
    if index < 2 {
      assert ParseInt(Pad2(numeric)) == Some(numeric);
    }
  }

  /** `parse_date` on a token of at most three pieces. */
  lemma TokenShaped(thisYear: int, text: string, l: seq<Piece>)
    requires DatePieces(thisYear, text) == Ok(l) && |TokenPieces(text)| <= 3
    ensures Shaped(thisYear, l)
  {
    var pieces := TokenPieces(text);
    var n := |pieces|;
    PieceAtShape(thisYear, 0, ParseInt(pieces[0]).value);
    if n >= 2 {
      PieceAtShape(thisYear, 1, ParseInt(pieces[1]).value);
    }
    if n == 3 {
      PieceAtShape(thisYear, 2, ParseInt(pieces[2]).value);
    }
  }

  /** The month a day-only token borrows is two-digit text. */
  lemma {:induction false} MonthFromShaped(thisYear: int, lists: seq<seq<Piece>>, k: nat)
    requires k < |lists| && |lists[|lists| - 1]| >= 2
    requires forall j :: 0 <= j < |lists| ==> Shaped(thisYear, lists[j])
    ensures TwoDigitText(MonthFrom(lists, k))
    decreases |lists| - k
  {
    assert Shaped(thisYear, lists[k]);
    if |lists[k]| < 2 {
      MonthFromShaped(thisYear, lists, k + 1);
    }
  }

  /** Every token completes to a year, a month and a day. */
  lemma CompletedShaped(thisYear: int, lists: seq<seq<Piece>>, k: nat)
    requires k < |lists| && |lists[|lists| - 1]| >= 2
    requires forall j :: 0 <= j < |lists| ==> Shaped(thisYear, lists[j])
    ensures YearMonthDay(CompletedAt(thisYear, lists, k))
    ensures 1000 <= thisYear ==> 1000 <= CompletedAt(thisYear, lists, k)[0].value
  {
    var l := lists[k];
    var p := CompletedAt(thisYear, lists, k);
    assert Shaped(thisYear, l);
    if |l| == 3 {
      assert p == l;
    } else if |l| == 2 {
      assert p[1] == l[0] && p[2] == l[1];
    } else {
      MonthFromShaped(thisYear, lists, k + 1);
      assert p[1] == MonthFrom(lists, k + 1) && p[2] == l[0];
    }
  }

  /** Every string a successful `parse_date_range` returns for tokens of the
      date pattern (at most three pieces) is the dash-joined year, month
      and day of its token. It is a `YYYY-MM-DD` text `fromisoformat`
      accepts exactly when that date is valid and its year has four
      digits, which a four-digit `thisYear` guarantees for the year; it
      then reads back as that date. */
  lemma ResolveRangeIso(thisYear: int, found: seq<string>, lists: seq<seq<Piece>>, k: nat)
    requires found != [] && ParseAll(thisYear, found) == Ok(lists)
    requires |lists[|lists| - 1]| >= 2
    requires forall j :: 0 <= j < |found| ==> |TokenPieces(found[j])| <= 3
    requires k < |found|
    ensures ResolveRange(thisYear, found).Ok?
    ensures var p := CompletedAt(thisYear, lists, k);
      && YearMonthDay(p)
      && (1000 <= thisYear ==> 1000 <= p[0].value)
      && ResolveRange(thisYear, found).value[k] == JoinDash(p)
      && (Calendar.IsIsoDate(JoinDash(p)) <==> 1000 <= p[0].value && Calendar.Valid(DateOf(p)))
      && (Calendar.IsIsoDate(JoinDash(p)) ==> Calendar.FromIsoFormat(JoinDash(p)) == DateOf(p))
  {
    forall j | 0 <= j < |lists|
      ensures Shaped(thisYear, lists[j])
    {
      TokenShaped(thisYear, found[j], lists[j]);
    }
    ResolveRangeDates(thisYear, found, lists);
    CompletedShaped(thisYear, lists, k);
    JoinDashIso(CompletedAt(thisYear, lists, k));
  }
}

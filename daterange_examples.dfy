/** The date tokens of the scraper's tests, worked through the model of
    `parse_date_range` with `this_year` 2024. Each lemma takes the tokens
    `date_pattern.findall` returns for the test's text. */
module DateRangeExamples {
  import opened Wrappers
  import opened Numerals
  import opened PyStrings
  import opened DateRange

  lemma Pieces1(thisYear: int, a: string)
    requires ParseInt(a).Some?
    ensures PiecesOf(thisYear, [a]) == Ok([PieceAt(thisYear, 0, ParseInt(a).value)])
  {
    var p := [a];
    assert p[0] == a;
    assert AllNumeric(p);
    var r := PiecesOf(thisYear, p);
    assert r.value == [r.value[0]];
  }

  lemma Pieces2(thisYear: int, a: string, b: string)
    requires ParseInt(a).Some? && ParseInt(b).Some?
    ensures PiecesOf(thisYear, [a, b]) ==
      Ok([PieceAt(thisYear, 1, ParseInt(b).value), PieceAt(thisYear, 0, ParseInt(a).value)])
  {
    var p := [a, b];
    assert p[0] == a && p[1] == b;
    assert AllNumeric(p);
    var r := PiecesOf(thisYear, p);
    assert r.value == [r.value[0], r.value[1]];
  }

  lemma Pieces3(thisYear: int, a: string, b: string, c: string)
    requires ParseInt(a).Some? && ParseInt(b).Some? && ParseInt(c).Some?
    ensures PiecesOf(thisYear, [a, b, c]) ==
      Ok([PieceAt(thisYear, 2, ParseInt(c).value), PieceAt(thisYear, 1, ParseInt(b).value),
          PieceAt(thisYear, 0, ParseInt(a).value)])
  {
    var p := [a, b, c];
    assert p[0] == a && p[1] == b && p[2] == c;
    assert AllNumeric(p);
    var r := PiecesOf(thisYear, p);
    assert r.value == [r.value[0], r.value[1], r.value[2]];
  }

  lemma OneDigitPiece(thisYear: int, i: nat, s: string)
    requires i < 2 && |s| == 1 && AllDigits(s)
    ensures ParseInt(s).Some? && PieceAt(thisYear, i, ParseInt(s).value) == Padded(['0', s[0]])
  {
    OneDigitText(s);
  }

  lemma TwoDigitPiece(thisYear: int, i: nat, s: string)
    requires i < 2 && |s| == 2 && AllDigits(s)
    ensures ParseInt(s).Some? && PieceAt(thisYear, i, ParseInt(s).value) == Padded(s)
  {
    TwoDigitText(s);
  }

  lemma ShortYearPiece(thisYear: int, s: string)
    requires |s| == 2 && AllDigits(s)
    ensures ParseInt(s).Some? && PieceAt(thisYear, 2, ParseInt(s).value) == Year(1000 * (thisYear / 1000) + DecimalValue(s))
  {
    DecimalBound(s);
  }

  /** A token of one two-digit day. */
  lemma DayPieces(thisYear: int, text: string, day: string)
    requires TokenPieces(text) == [day] && |day| == 2 && AllDigits(day)
    ensures DatePieces(thisYear, text) == Ok([Padded(day)])
  {
    TwoDigitPiece(thisYear, 0, day);
    Pieces1(thisYear, day);
  }

  /** A token of a two-digit day and a one-digit month. */
  lemma DayMonthPieces(thisYear: int, text: string, day: string, month: string, padded: string)
    requires TokenPieces(text) == [day, month]
    requires |day| == 2 && AllDigits(day) && |month| == 1 && AllDigits(month)
    requires padded == ['0', month[0]]
    ensures DatePieces(thisYear, text) == Ok([Padded(padded), Padded(day)])
  {
    TwoDigitPiece(thisYear, 0, day);
    OneDigitPiece(thisYear, 1, month);
    Pieces2(thisYear, day, month);
  }

  /** A token of a two-digit day and a two-digit month. */
  lemma DayMonthPieces2(thisYear: int, text: string, day: string, month: string)
    requires TokenPieces(text) == [day, month]
    requires |day| == 2 && AllDigits(day) && |month| == 2 && AllDigits(month)
    ensures DatePieces(thisYear, text) == Ok([Padded(month), Padded(day)])
  {
    TwoDigitPiece(thisYear, 0, day);
    TwoDigitPiece(thisYear, 1, month);
    Pieces2(thisYear, day, month);
  }

  /** A token of a one-digit day, a one-digit month and a two-digit year. */
  lemma ShortDatePieces(thisYear: int, text: string, day: string, month: string, year: string,
                        d: string, m: string, y: int)
    requires TokenPieces(text) == [day, month, year]
    requires |day| == 1 && AllDigits(day) && |month| == 1 && AllDigits(month)
    requires |year| == 2 && AllDigits(year)
    requires d == ['0', day[0]] && m == ['0', month[0]] && y == 1000 * (thisYear / 1000) + DecimalValue(year)
    ensures DatePieces(thisYear, text) == Ok([Year(y), Padded(m), Padded(d)])
  {
    OneDigitPiece(thisYear, 0, day);
    OneDigitPiece(thisYear, 1, month);
    ShortYearPiece(thisYear, year);
    Pieces3(thisYear, day, month, year);
  }

  lemma Join3(a: string, b: string, c: string, sep: char)
    ensures Join([a, b, c], sep) == a + [sep] + b + [sep] + c
  {
    assert [a, b, c][1..] == [b, c];
    assert [b, c][1..] == [c];
    assert Join([b, c], sep) == b + [sep] + Join([c], sep);
    assert Join([a, b, c], sep) == a + [sep] + Join([b, c], sep);
  }

  lemma JoinDash3(a: Piece, b: Piece, c: Piece)
    ensures JoinDash([a, b, c]) == Render(a) + "-" + Render(b) + "-" + Render(c)
  {
    var parts := seq(3, k requires 0 <= k < 3 => Render([a, b, c][k]));
    assert parts == [Render(a), Render(b), Render(c)];
    Join3(Render(a), Render(b), Render(c), '-');
  }

  /** A year, a month and a day rendered as an ISO date. */
  lemma RenderedOne(y: Piece, m: string, d: string, text: string)
    requires text == Render(y) + "-" + m + "-" + d
    ensures Rendered([[y, Padded(m), Padded(d)]]) == [text]
  {
    JoinDash3(y, Padded(m), Padded(d));
    var r := Rendered([[y, Padded(m), Padded(d)]]);
    assert r == [r[0]];
  }

  lemma Year2024()
    ensures IntToString(2024) == "2024"
  {
    FourDigitValue("2024");
    FourDigitText("2024");
  }

  lemma Year2010()
    ensures IntToString(2010) == "2010"
  {
    FourDigitValue("2010");
    FourDigitText("2010");
  }

  /** A token of two dot-separated pieces with clean ends. */
  lemma SplitTwo(text: string, a: string, b: string)
    requires text == a + "." + b
    requires '.' !in a && '.' !in b && a != [] && b != []
    requires !IsSpaceOrDot(a[0]) && !IsSpaceOrDot(b[|b| - 1])
    ensures TokenPieces(text) == [a, b]
  {
    assert [a, b][1..] == [b];
    assert Join([a, b], '.') == text;
    TokenPiecesJoin([a, b]);
  }

  /** A token of three dot-separated pieces with clean ends. */
  lemma SplitThree(text: string, a: string, b: string, c: string)
    requires text == a + "." + b + "." + c
    requires '.' !in a && '.' !in b && '.' !in c && a != [] && c != []
    requires !IsSpaceOrDot(a[0]) && !IsSpaceOrDot(c[|c| - 1])
    ensures TokenPieces(text) == [a, b, c]
  {
    Join3(a, b, c, '.');
    TokenPiecesJoin([a, b, c]);
  }

  /** One completed date of 2024, rendered. */
  lemma Rendered2024(m: string, d: string, text: string)
    requires text == "2024-" + m + "-" + d
    ensures Rendered([[Year(2024), Padded(m), Padded(d)]]) == [text]
  {
    Year2024();
    RenderedOne(Year(2024), m, d, text);
  }

  /** Two completed dates of 2024, rendered. */
  lemma RenderedTwo2024(m1: string, d1: string, t1: string, m2: string, d2: string, t2: string)
    requires t1 == "2024-" + m1 + "-" + d1 && t2 == "2024-" + m2 + "-" + d2
    ensures Rendered([[Year(2024), Padded(m1), Padded(d1)], [Year(2024), Padded(m2), Padded(d2)]]) == [t1, t2]
  {
    Year2024();
    DateText(Year(2024), m1, d1, t1);
    DateText(Year(2024), m2, d2, t2);
    RenderedTwo([Year(2024), Padded(m1), Padded(d1)], [Year(2024), Padded(m2), Padded(d2)], t1, t2);
  }

  /** A `day.month` token of a one-digit day and a one-digit month. */
  lemma ShortDayMonthToken(text: string, day: char, month: char)
    requires text == [day, '.', month] && '1' <= day <= '9' && '1' <= month <= '9'
    ensures DatePieces(2024, text) == Ok([Padded(['0', month]), Padded(['0', day])])
  {
    SplitTwo(text, [day], [month]);
    ShortDayMonthPieces(2024, text, [day], [month], ['0', day], ['0', month]);
  }

  lemma Split12Dot()
    ensures TokenPieces("12.") == ["12"]
  {
    StripWhereExact("12.", IsSpaceOrDot, 0, 2);
    assert "12."[0..2] == "12";
    SplitNoSeparator("12", '.');
  }

  lemma Token12Dot()
    ensures DatePieces(2024, "12.") == Ok([Padded("12")])
  {
    Split12Dot();
    DayPieces(2024, "12.", "12");
  }

  lemma Token14Dot7()
    ensures DatePieces(2024, "14.7") == Ok([Padded("07"), Padded("14")])
  {
    SplitTwo("14.7", "14", "7");
    DayMonthPieces(2024, "14.7", "14", "7", "07");
  }

  lemma ParseTwo(thisYear: int, a: string, b: string, la: seq<Piece>, lb: seq<Piece>)
    requires DatePieces(thisYear, a) == Ok(la) && DatePieces(thisYear, b) == Ok(lb)
    ensures ParseAll(thisYear, [a, b]) == Ok([la, lb])
  {
    var tokens := ParsedTokens(thisYear, [a, b]);
    AllValues(tokens, [la, lb]);
  }

  lemma ParsedDayOnly()
    ensures ParseAll(2024, ["12.", "14.7"]) == Ok([[Padded("12")], [Padded("07"), Padded("14")]])
  {
    Token12Dot();
    Token14Dot7();
    ParseTwo(2024, "12.", "14.7", [Padded("12")], [Padded("07"), Padded("14")]);
  }

  lemma CompleteDayOnly()
    ensures Complete(2024, [[Padded("12")], [Padded("07"), Padded("14")]]) ==
      Ok([[Year(2024), Padded("07"), Padded("12")], [Year(2024), Padded("07"), Padded("14")]])
  {
    var lists := [[Padded("12")], [Padded("07"), Padded("14")]];
    CompleteByToken(2024, lists);
    assert CompletedAt(2024, lists, 0) == [Year(2024), Padded("07"), Padded("12")];
    assert CompletedAt(2024, lists, 1) == [Year(2024), Padded("07"), Padded("14")];
    var done := Complete(2024, lists).value;
    assert done == [done[0], done[1]];
  }

  lemma RangeOf(thisYear: int, found: seq<string>, lists: seq<seq<Piece>>, done: seq<seq<Piece>>)
    requires found != [] && ParseAll(thisYear, found) == Ok(lists) && Complete(thisYear, lists) == Ok(done)
    ensures ResolveRange(thisYear, found) == Ok(Rendered(done))
  {
  }

  lemma DateText(y: Piece, m: string, d: string, text: string)
    requires text == Render(y) + "-" + m + "-" + d
    ensures JoinDash([y, Padded(m), Padded(d)]) == text
  {
    JoinDash3(y, Padded(m), Padded(d));
  }

  lemma RenderedTwo(a: seq<Piece>, b: seq<Piece>, ta: string, tb: string)
    requires JoinDash(a) == ta && JoinDash(b) == tb
    ensures Rendered([a, b]) == [ta, tb]
  {
    var r := Rendered([a, b]);
    assert r == [r[0], r[1]];
  }

  /** "12.-14.7": the day-only first token takes month 7 from the token
      after it, and both get the current year. */
  lemma DayOnlyTakesNextMonth()
    ensures ResolveRange(2024, ["12.", "14.7"]) == Ok(["2024-07-12", "2024-07-14"])
  {
    RenderedTwo2024("07", "12", "2024-07-12", "07", "14", "2024-07-14");
    var lists := [[Padded("12")], [Padded("07"), Padded("14")]];
    var done := [[Year(2024), Padded("07"), Padded("12")], [Year(2024), Padded("07"), Padded("14")]];
    ParsedDayOnly();
    CompleteDayOnly();
    RangeOf(2024, ["12.", "14.7"], lists, done);
  }

  lemma ParseOne(thisYear: int, a: string, la: seq<Piece>)
    requires DatePieces(thisYear, a) == Ok(la)
    ensures ParseAll(thisYear, [a]) == Ok([la])
  {
    var tokens := ParsedTokens(thisYear, [a]);
    AllValues(tokens, [la]);
  }

  lemma Token1Dot1Dot10()
    ensures DatePieces(2024, "1.1.10") == Ok([Year(2010), Padded("01"), Padded("01")])
  {
    SplitThree("1.1.10", "1", "1", "10");
    TwoDigitValue("10");
    ShortDatePieces(2024, "1.1.10", "1", "1", "10", "01", "01", 2010);
  }

  lemma CompleteFullToken(thisYear: int, pieces: seq<Piece>)
    requires |pieces| >= 3
    ensures Complete(thisYear, [pieces]) == Ok([pieces])
  {
    CompleteByToken(thisYear, [pieces]);
    var done := Complete(thisYear, [pieces]).value;
    assert done == [done[0]];
  }

  lemma CompleteDayMonthToken(thisYear: int, pieces: seq<Piece>)
    requires |pieces| == 2
    ensures Complete(thisYear, [pieces]) == Ok([[Year(thisYear)] + pieces])
  {
    CompleteByToken(thisYear, [pieces]);
    var done := Complete(thisYear, [pieces]).value;
    assert done == [done[0]];
  }

  lemma Rendered2010()
    ensures Rendered([[Year(2010), Padded("01"), Padded("01")]]) == ["2010-01-01"]
  {
    Year2010();
    RenderedOne(Year(2010), "01", "01", "2010-01-01");
  }

  lemma Parsed1Dot1Dot10()
    ensures ParseAll(2024, ["1.1.10"]) == Ok([[Year(2010), Padded("01"), Padded("01")]])
  {
    Token1Dot1Dot10();
    ParseOne(2024, "1.1.10", [Year(2010), Padded("01"), Padded("01")]);
  }

  /** "1.1.10": a two-digit year lands in the current millennium. */
  lemma ShortYearExpands()
    ensures ResolveRange(2024, ["1.1.10"]) == Ok(["2010-01-01"])
  {
    var pieces := [Year(2010), Padded("01"), Padded("01")];
    Parsed1Dot1Dot10();
    CompleteFullToken(2024, pieces);
    Rendered2010();
    RangeOf(2024, ["1.1.10"], [pieces], [pieces]);
  }

  lemma Token39Dot19()
    ensures DatePieces(2024, "39.19") == Ok([Padded("19"), Padded("39")])
  {
    SplitTwo("39.19", "39", "19");
    DayMonthPieces2(2024, "39.19", "39", "19");
  }

  lemma Parsed39Dot19()
    ensures ParseAll(2024, ["39.19"]) == Ok([[Padded("19"), Padded("39")]])
  {
    Token39Dot19();
    ParseOne(2024, "39.19", [Padded("19"), Padded("39")]);
  }

  lemma Completed39Dot19()
    ensures Complete(2024, [[Padded("19"), Padded("39")]]) == Ok([[Year(2024), Padded("19"), Padded("39")]])
  {
    var pieces := [Padded("19"), Padded("39")];
    CompleteDayMonthToken(2024, pieces);
    assert [Year(2024)] + pieces == [Year(2024), Padded("19"), Padded("39")];
  }

  /** "39.19": no calendar check, day 39 of month 19 passes through. */
  lemma NoCalendarCheck()
    ensures ResolveRange(2024, ["39.19"]) == Ok(["2024-19-39"])
  {
    Rendered2024("19", "39", "2024-19-39");
    Parsed39Dot19();
    Completed39Dot19();
    RangeOf(2024, ["39.19"], [[Padded("19"), Padded("39")]], [[Year(2024), Padded("19"), Padded("39")]]);
  }

  /** A token whose middle piece is empty raises on that piece. */
  lemma EmptyMiddlePiece(thisYear: int, text: string, day: string, year: string)
    requires TokenPieces(text) == [day, "", year] && ParseInt(day).Some?
    ensures DatePieces(thisYear, text) == Err(InvalidLiteral(""))
  {
    var p := [day, "", year];
    assert p[..1] == [day];
    assert AllNumeric(p[..1]);
    PiecesOfFirstError(thisYear, p, 1);
  }

  /** "12..24": the empty piece between the dots is refused by `int()`. */
  lemma EmptyPieceRaises()
    ensures DatePieces(2024, "12..24") == Err(InvalidLiteral(""))
  {
    SplitThree("12..24", "12", "", "24");
    TwoDigitText("12");
    EmptyMiddlePiece(2024, "12..24", "12", "24");
  }

  /** "12.": a lone day-only token has no month to borrow. */
  lemma LoneDayRaises()
    ensures ResolveRange(2024, ["12."]) == Err(MissingMonth)
  {
    Token12Dot();
    ParseOne(2024, "12.", [Padded("12")]);
  }

  /** A token of a one-digit day and a one-digit month. */
  lemma ShortDayMonthPieces(thisYear: int, text: string, day: string, month: string, d: string, m: string)
    requires TokenPieces(text) == [day, month]
    requires |day| == 1 && AllDigits(day) && |month| == 1 && AllDigits(month)
    requires d == ['0', day[0]] && m == ['0', month[0]]
    ensures DatePieces(thisYear, text) == Ok([Padded(m), Padded(d)])
  {
    OneDigitPiece(thisYear, 0, day);
    OneDigitPiece(thisYear, 1, month);
    Pieces2(thisYear, day, month);
  }

  /** A token of a one-digit day, a one-digit month and a four-digit year,
      which is kept as written. */
  lemma LongDatePieces(thisYear: int, text: string, day: string, month: string, year: string,
                       d: string, m: string)
    requires TokenPieces(text) == [day, month, year]
    requires |day| == 1 && AllDigits(day) && |month| == 1 && AllDigits(month)
    requires |year| == 4 && AllDigits(year) && DecimalValue(year) >= 1000
    requires d == ['0', day[0]] && m == ['0', month[0]]
    ensures DatePieces(thisYear, text) == Ok([Year(DecimalValue(year)), Padded(m), Padded(d)])
  {
    OneDigitPiece(thisYear, 0, day);
    OneDigitPiece(thisYear, 1, month);
    Pieces3(thisYear, day, month, year);
  }

  lemma Parsed25Dot7()
    ensures ParseAll(2024, ["25.7"]) == Ok([[Padded("07"), Padded("25")]])
  {
    SplitTwo("25.7", "25", "7");
    DayMonthPieces(2024, "25.7", "25", "7", "07");
    ParseOne(2024, "25.7", [Padded("07"), Padded("25")]);
  }

  /** "Jake 25.7" and "25.7.": the one token "25.7" gets the current year. */
  lemma DayMonthGetsThisYear()
    ensures ResolveRange(2024, ["25.7"]) == Ok(["2024-07-25"])
  {
    Rendered2024("07", "25", "2024-07-25");
    var pieces := [Padded("07"), Padded("25")];
    Parsed25Dot7();
    CompleteDayMonthToken(2024, pieces);
    assert [Year(2024)] + pieces == [Year(2024), Padded("07"), Padded("25")];
    RangeOf(2024, ["25.7"], [pieces], [[Year(2024), Padded("07"), Padded("25")]]);
  }

  lemma ParsedTwoDayMonths()
    ensures ParseAll(2024, ["5.6", "8.6"]) == Ok([[Padded("06"), Padded("05")], [Padded("06"), Padded("08")]])
  {
    ShortDayMonthToken("5.6", '5', '6');
    ShortDayMonthToken("8.6", '8', '6');
    ParseTwo(2024, "5.6", "8.6", [Padded("06"), Padded("05")], [Padded("06"), Padded("08")]);
  }

  lemma CompleteTwoDayMonths()
    ensures Complete(2024, [[Padded("06"), Padded("05")], [Padded("06"), Padded("08")]]) ==
      Ok([[Year(2024), Padded("06"), Padded("05")], [Year(2024), Padded("06"), Padded("08")]])
  {
    var lists := [[Padded("06"), Padded("05")], [Padded("06"), Padded("08")]];
    CompleteByToken(2024, lists);
    assert CompletedAt(2024, lists, 0) == [Year(2024), Padded("06"), Padded("05")];
    assert CompletedAt(2024, lists, 1) == [Year(2024), Padded("06"), Padded("08")];
    var done := Complete(2024, lists).value;
    assert done == [done[0], done[1]];
  }

  /** "5.6. 8.6.": two day.month tokens, each given the current year. */
  lemma TwoDayMonths()
    ensures ResolveRange(2024, ["5.6", "8.6"]) == Ok(["2024-06-05", "2024-06-08"])
  {
    RenderedTwo2024("06", "05", "2024-06-05", "06", "08", "2024-06-08");
    var lists := [[Padded("06"), Padded("05")], [Padded("06"), Padded("08")]];
    var done := [[Year(2024), Padded("06"), Padded("05")], [Year(2024), Padded("06"), Padded("08")]];
    ParsedTwoDayMonths();
    CompleteTwoDayMonths();
    RangeOf(2024, ["5.6", "8.6"], lists, done);
  }

  lemma Year2025()
    ensures IntToString(2025) == "2025"
  {
    FourDigitValue("2025");
    FourDigitText("2025");
  }

  lemma Value2024()
    ensures AllDigits("2024") && DecimalValue("2024") == 2024
  {
    FourDigitValue("2024");
  }

  lemma Value2025()
    ensures AllDigits("2025") && DecimalValue("2025") == 2025
  {
    FourDigitValue("2025");
  }

  lemma Token1Dot1Dot2024()
    ensures DatePieces(2024, "1.1.2024") == Ok([Year(2024), Padded("01"), Padded("01")])
  {
    SplitThree("1.1.2024", "1", "1", "2024");
    Value2024();
    LongDatePieces(2024, "1.1.2024", "1", "1", "2024", "01", "01");
  }

  lemma Token2Dot1Dot2025()
    ensures DatePieces(2024, "2.1.2025") == Ok([Year(2025), Padded("01"), Padded("02")])
  {
    SplitThree("2.1.2025", "2", "1", "2025");
    Value2025();
    LongDatePieces(2024, "2.1.2025", "2", "1", "2025", "02", "01");
  }

  lemma CompleteTwoFull()
    ensures Complete(2024, [[Year(2024), Padded("01"), Padded("01")], [Year(2025), Padded("01"), Padded("02")]]) ==
      Ok([[Year(2024), Padded("01"), Padded("01")], [Year(2025), Padded("01"), Padded("02")]])
  {
    var lists := [[Year(2024), Padded("01"), Padded("01")], [Year(2025), Padded("01"), Padded("02")]];
    CompleteByToken(2024, lists);
    var done := Complete(2024, lists).value;
    assert done == [done[0], done[1]];
  }

  lemma RenderedTwoFull()
    ensures Rendered([[Year(2024), Padded("01"), Padded("01")], [Year(2025), Padded("01"), Padded("02")]])
      == ["2024-01-01", "2025-01-02"]
  {
    Year2024();
    Year2025();
    DateText(Year(2024), "01", "01", "2024-01-01");
    DateText(Year(2025), "01", "02", "2025-01-02");
    RenderedTwo([Year(2024), Padded("01"), Padded("01")], [Year(2025), Padded("01"), Padded("02")],
      "2024-01-01", "2025-01-02");
  }

  /** "1.1.2024 - 2.1.2025": both tokens are complete and come out as
      written, the second in a year other than the current one. */
  lemma FullTokensVerbatim()
    ensures ResolveRange(2024, ["1.1.2024", "2.1.2025"]) == Ok(["2024-01-01", "2025-01-02"])
  {
    var lists := [[Year(2024), Padded("01"), Padded("01")], [Year(2025), Padded("01"), Padded("02")]];
    Token1Dot1Dot2024();
    Token2Dot1Dot2025();
    ParseTwo(2024, "1.1.2024", "2.1.2025", lists[0], lists[1]);
    CompleteTwoFull();
    RenderedTwoFull();
    RangeOf(2024, ["1.1.2024", "2.1.2025"], lists, lists);
  }
}

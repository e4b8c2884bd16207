/** `parse_date` and `parse_date_range` (parse.py:81-112): compact Finnish
    `D.M[.Y]` tokens such as `12.`, `14.7` or `1.1.10` become ISO
    `YYYY-MM-DD` strings. A token without a month borrows the month of the
    token after it in the text; a token without a year gets `thisYear`. The
    tokens are those `date_pattern.findall` returns; the regular expression
    itself is not part of this model. */
module DateRange {
  import opened Wrappers
  import opened Numerals
  import opened PyStrings

  /** One entry of the list `parse_date` builds (year first): a day or month
      formatted with `f"{n:02d}"`, or a year as a number. */
  datatype Piece = Padded(text: string) | Year(value: int)

  /** The two exceptions date parsing raises. */
  datatype Error =
    | InvalidLiteral(literal: string)  // int() refused a piece: ValueError
    | MissingMonth                     // the last token has no month: AssertionError

  /** `str(e)` for one entry. */
  function Render(p: Piece): string
  {
    match p
    case Padded(t) => t
    case Year(v) => IntToString(v)
  }

  /** `"-".join(str(e) for e in pieces)`. */
  function JoinDash(pieces: seq<Piece>): string
  {
    Join(seq(|pieces|, k requires 0 <= k < |pieces| => Render(pieces[k])), '-')
  }

  predicate IsSpaceOrDot(c: char)
  {
    c == ' ' || c == '.'
  }

  /** `text.strip(" .").split(".")`. */
  function TokenPieces(text: string): seq<string>
  {
    Split(StripWhere(text, IsSpaceOrDot), '.')
  }

  /** A token whose pieces hold no dot, and which neither starts nor ends
      with a space or a dot, splits back into those pieces. */
  lemma TokenPiecesJoin(pieces: seq<string>)
    requires |pieces| >= 1 && forall k :: 0 <= k < |pieces| ==> '.' !in pieces[k]
    requires pieces[0] != [] && !IsSpaceOrDot(pieces[0][0])
    requires pieces[|pieces| - 1] != [] && !IsSpaceOrDot(pieces[|pieces| - 1][|pieces[|pieces| - 1]| - 1])
    ensures TokenPieces(Join(pieces, '.')) == pieces
  {
    var text := Join(pieces, '.');
    JoinStart(pieces, '.');
    JoinEnd(pieces, '.');
    StripWhereExact(text, IsSpaceOrDot, 0, |text|);
    assert text[0..|text|] == text;
    SplitJoin(pieces, '.');
  }

  /** The year a third or later piece stands for: below 1000 it is placed in
      the millennium of `thisYear` (`//` and Dafny's `/` agree for the
      positive divisor 1000). */
  function ExpandYear(thisYear: int, numeric: nat): int
  {
    if numeric < 1000 then 1000 * (thisYear / 1000) + numeric else numeric
  }

  /** What `parse_date` stores for the piece at `index` of value `numeric`. */
  function PieceAt(thisYear: int, index: nat, numeric: nat): Piece
  {
    if index < 2 then Padded(Pad2(numeric)) else Year(ExpandYear(thisYear, numeric))
  }

  predicate AllNumeric(pieces: seq<string>)
  {
    forall k :: 0 <= k < |pieces| ==> ParseInt(pieces[k]).Some?
  }

  /** The list `parse_date`'s loop builds from `pieces`: piece k of the input
      is entry |pieces|-1-k of the output, so the year comes first. The first
      piece `int()` refuses raises instead. */
  function PiecesOf(thisYear: int, pieces: seq<string>): (r: Result<seq<Piece>, Error>)
    ensures r.Ok? <==> AllNumeric(pieces)
    ensures r.Ok? ==> |r.value| == |pieces|
    ensures r.Ok? ==> forall k :: 0 <= k < |pieces| ==>
      r.value[|pieces| - 1 - k] == PieceAt(thisYear, k, ParseInt(pieces[k]).value)
    ensures r.Err? ==> exists i :: (0 <= i < |pieces| && ParseInt(pieces[i]).None?
      && AllNumeric(pieces[..i]) && r.error == InvalidLiteral(pieces[i]))
  {
    if pieces == [] then Ok([])
    else
      var n := |pieces| - 1;
      var init := pieces[..n];
      assert forall k :: 0 <= k < n ==> init[k] == pieces[k];
      match PiecesOf(thisYear, init)
      case Err(e) =>
        assert forall i :: 0 <= i < n ==> init[..i] == pieces[..i];
        Err(e)
      case Ok(acc) =>
        match ParseInt(pieces[n])
        case None => Err(InvalidLiteral(pieces[n]))
        case Some(v) => Ok([PieceAt(thisYear, n, v)] + acc)
  }

  /** `parse_date(this_year, text)`, as a value. */
  function DatePieces(thisYear: int, text: string): Result<seq<Piece>, Error>
  {
    PiecesOf(thisYear, TokenPieces(text))
  }

  lemma PiecesOfFirstError(thisYear: int, pieces: seq<string>, i: nat)
    requires i < |pieces| && AllNumeric(pieces[..i]) && ParseInt(pieces[i]).None?
    ensures PiecesOf(thisYear, pieces) == Err(InvalidLiteral(pieces[i]))
  {
    var r := PiecesOf(thisYear, pieces);
    var j :| 0 <= j < |pieces| && ParseInt(pieces[j]).None? && AllNumeric(pieces[..j])
      && r.error == InvalidLiteral(pieces[j]);
    assert forall m :: 0 <= m < i ==> pieces[..i][m] == pieces[m];
    assert forall m :: 0 <= m < j ==> pieces[..j][m] == pieces[m];
  }

  /** One more piece read by `parse_date`'s loop goes in front. */
  lemma PiecesOfSnoc(thisYear: int, pieces: seq<string>, i: nat, acc: seq<Piece>)
    requires i < |pieces| && PiecesOf(thisYear, pieces[..i]) == Ok(acc) && ParseInt(pieces[i]).Some?
    ensures PiecesOf(thisYear, pieces[..i + 1]) == Ok([PieceAt(thisYear, i, ParseInt(pieces[i]).value)] + acc)
  {
    assert pieces[..i + 1][..i] == pieces[..i];
  }

  /** `parse_date(this_year, text)`: strip spaces and dots from both ends,
      split on dots, and build the list year first. */
  method ParseDate(thisYear: int, text: string) returns (r: Result<seq<Piece>, Error>)
    ensures r == DatePieces(thisYear, text)
  {
    var stripped := StripWhere(text, IsSpaceOrDot);
    var pieces := Split(stripped, '.');
    var datePieces: seq<Piece> := [];
    for index := 0 to |pieces|
      invariant PiecesOf(thisYear, pieces[..index]) == Ok(datePieces)
    {
      var numeric := ParseInt(pieces[index]);
      if numeric.None? {
        PiecesOfFirstError(thisYear, pieces, index);
        return Err(InvalidLiteral(pieces[index]));
      }
      var v := numeric.value;
      PiecesOfSnoc(thisYear, pieces, index, datePieces);
      if index < 2 {
        datePieces := [Padded(Pad2(v))] + datePieces;
      } else if v < 1000 {
        datePieces := [Year(1000 * (thisYear / 1000) + v)] + datePieces;
      } else {
        datePieces := [Year(v)] + datePieces;
      }
    }
    assert pieces[..|pieces|] == pieces;
    return Ok(datePieces);
  }

  /** `parse_date` applied to every token. */
  function ParsedTokens(thisYear: int, found: seq<string>): (rs: seq<Result<seq<Piece>, Error>>)
    ensures |rs| == |found| && forall k :: 0 <= k < |found| ==> rs[k] == DatePieces(thisYear, found[k])
  {
    seq(|found|, k requires 0 <= k < |found| => DatePieces(thisYear, found[k]))
  }

  /** The piece lists of all tokens in source order, or the error of the
      first token `parse_date` raises on. */
  function ParseAll(thisYear: int, found: seq<string>): Result<seq<seq<Piece>>, Error>
  {
    AllOk(ParsedTokens(thisYear, found))
  }

  /** The completed list of one token: a missing month is borrowed from
      `donor` (entry 1 of the completed list of the next token in the text),
      a missing year is `thisYear`. The last token has no donor. */
  function CompleteOne(thisYear: int, pieces: seq<Piece>, donor: Option<Piece>): Result<seq<Piece>, Error>
  {
    if |pieces| < 2 && donor.None? then Err(MissingMonth)
    else
      var withMonth := if |pieces| < 2 then [donor.value] + pieces else pieces;
      Ok(if |withMonth| < 3 then [Year(thisYear)] + withMonth else withMonth)
  }

  /** How token k of the text is completed: a full token is kept verbatim,
      a day.month token gets `thisYear` in front, and a day-only token gets
      `thisYear` and the month of the completed token after it. */
  predicate Inherits(thisYear: int, lists: seq<seq<Piece>>, done: seq<seq<Piece>>, k: int)
    requires |lists| == |done| && 0 <= k < |lists|
  {
    && |done[k]| >= 2
    && (|lists[k]| >= 3 ==> done[k] == lists[k])
    && (|lists[k]| == 2 ==> done[k] == [Year(thisYear)] + lists[k])
    && (|lists[k]| < 2 ==> k + 1 < |lists| && |done[k + 1]| >= 2
                           && done[k] == [Year(thisYear), done[k + 1][1]] + lists[k])
  }

  /** The piece lists after the reversed loop of `parse_date_range`, in
      source order: completion runs from the last token to the first, each
      token reading the month of the one completed before it. It fails
      exactly when the last token lacks a month. */
  function Complete(thisYear: int, lists: seq<seq<Piece>>): (r: Result<seq<seq<Piece>>, Error>)
    ensures r.Err? <==> lists != [] && |lists[|lists| - 1]| < 2
    ensures r.Err? ==> r.error == MissingMonth
    ensures r.Ok? ==> |r.value| == |lists|
    ensures r.Ok? ==> forall k :: 0 <= k < |lists| ==> Inherits(thisYear, lists, r.value, k)
  {
    if lists == [] then Ok([])
    else
      var tail := lists[1..];
      match Complete(thisYear, tail)
      case Err(e) => Err(e)
      case Ok(rest) =>
        var donor := if rest == [] then None else Some(rest[0][1]);
        match CompleteOne(thisYear, lists[0], donor)
        case Err(e) => Err(e)
        case Ok(c) =>
          var done := [c] + rest;
          InheritsShift(thisYear, lists, c, rest);
          Ok(done)
  }

  lemma InheritsShift(thisYear: int, lists: seq<seq<Piece>>, c: seq<Piece>, rest: seq<seq<Piece>>)
    requires |lists| >= 1 && |rest| == |lists| - 1
    requires forall j :: 0 <= j < |rest| ==> Inherits(thisYear, lists[1..], rest, j)
    ensures forall k :: 1 <= k < |lists| ==> Inherits(thisYear, lists, [c] + rest, k)
  {
    forall k | 1 <= k < |lists|
      ensures Inherits(thisYear, lists, [c] + rest, k)
    {
      assert Inherits(thisYear, lists[1..], rest, k - 1);
    }
  }

  /** One step of the reversed loop: completing the suffix from `i` on. */
  lemma CompleteSuffix(thisYear: int, lists: seq<seq<Piece>>, i: nat, done: seq<seq<Piece>>)
    requires i < |lists| && Complete(thisYear, lists[i + 1..]) == Ok(done)
    ensures Complete(thisYear, lists[i..]) ==
      match CompleteOne(thisYear, lists[i], if done == [] then None else Some(done[0][1]))
      case Err(e) => Err(e)
      case Ok(c) => Ok([c] + done)
  {
    assert lists[i..][1..] == lists[i + 1..];
  }

  /** Each completed list rendered with `"-".join`. */
  function Rendered(done: seq<seq<Piece>>): (r: seq<string>)
    ensures |r| == |done| && forall k :: 0 <= k < |done| ==> r[k] == JoinDash(done[k])
  {
    seq(|done|, k requires 0 <= k < |done| => JoinDash(done[k]))
  }

  /** `parse_date_range(this_year, text)` for the tokens `found` in `text`. */
  function ResolveRange(thisYear: int, found: seq<string>): (r: Result<seq<string>, Error>)
    ensures r.Ok? ==> |r.value| == |found|
  {
    if found == [] then Ok([])
    else
      match ParseAll(thisYear, found)
      case Err(e) => Err(e)
      case Ok(lists) =>
        CompletedRendered(thisYear, lists)
  }

  /** `piece_lists[::-1]`. */
  function Reversed<T>(s: seq<T>): (r: seq<T>)
    ensures |r| == |s| && forall k :: 0 <= k < |s| ==> r[k] == s[|s| - 1 - k]
  {
    seq(|s|, k requires 0 <= k < |s| => s[|s| - 1 - k])
  }

  /** The month token k ends up with: its own if it has one, otherwise that
      of the next token in source order that has one. Never a neighbour's
      year. */
  function MonthFrom(lists: seq<seq<Piece>>, k: nat): Piece
    requires k < |lists| && |lists[|lists| - 1]| >= 2
    decreases |lists| - k
  {
    if |lists[k]| >= 3 then lists[k][1]
    else if |lists[k]| == 2 then lists[k][0]
    else MonthFrom(lists, k + 1)
  }

  /** Token k completed on its own terms: kept when it has a year, given
      `thisYear` when it has none, and given `thisYear` and the month of
      `MonthFrom` when it has only a day. */
  function CompletedAt(thisYear: int, lists: seq<seq<Piece>>, k: nat): seq<Piece>
    requires k < |lists| && |lists[|lists| - 1]| >= 2
  {
    if |lists[k]| >= 3 then lists[k]
    else if |lists[k]| == 2 then [Year(thisYear)] + lists[k]
    else [Year(thisYear), MonthFrom(lists, k + 1)] + lists[k]
  }

  lemma {:induction false} InheritedMonth(thisYear: int, lists: seq<seq<Piece>>, done: seq<seq<Piece>>, k: nat)
    requires k < |lists| && |lists[|lists| - 1]| >= 2
    requires Complete(thisYear, lists) == Ok(done)
    ensures done[k] == CompletedAt(thisYear, lists, k) && done[k][1] == MonthFrom(lists, k)
    decreases |lists| - k
  {
    assert Inherits(thisYear, lists, done, k);
    if |lists[k]| < 2 {
      InheritedMonth(thisYear, lists, done, k + 1);
    }
  }

  /** The reversed in-place loop agrees with completing every token on its
      own terms: the loop's order only serves to have the month of a later
      token ready when an earlier day-only token needs it. */
  lemma CompleteByToken(thisYear: int, lists: seq<seq<Piece>>)
    requires lists != [] && |lists[|lists| - 1]| >= 2
    ensures Complete(thisYear, lists).Ok?
    ensures forall k :: 0 <= k < |lists| ==>
      Complete(thisYear, lists).value[k] == CompletedAt(thisYear, lists, k)
  {
    var done := Complete(thisYear, lists).value;
    forall k | 0 <= k < |lists|
      ensures done[k] == CompletedAt(thisYear, lists, k)
    {
      InheritedMonth(thisYear, lists, done, k);
    }
  }

  /** A successful `parse_date_range` gives one string per token, in
      source order, each the dash-joined pieces of the token completed on
      its own terms: a token with a year comes out verbatim. */
  lemma ResolveRangeDates(thisYear: int, found: seq<string>, lists: seq<seq<Piece>>)
    requires found != [] && ParseAll(thisYear, found) == Ok(lists)
    requires |lists[|lists| - 1]| >= 2
    ensures ResolveRange(thisYear, found).Ok?
    ensures |ResolveRange(thisYear, found).value| == |found|
    ensures forall k :: 0 <= k < |found| ==>
      && DatePieces(thisYear, found[k]) == Ok(lists[k])
      && ResolveRange(thisYear, found).value[k] == JoinDash(CompletedAt(thisYear, lists, k))
    ensures forall k :: 0 <= k < |found| && |lists[k]| >= 3 ==>
      ResolveRange(thisYear, found).value[k] == JoinDash(lists[k])
  {
    CompleteByToken(thisYear, lists);
  }

  /** The first token `parse_date` raises on decides the error. */
  lemma ResolveRangeInvalid(thisYear: int, found: seq<string>, i: nat)
    requires i < |found| && DatePieces(thisYear, found[i]).Err?
    requires forall j :: 0 <= j < i ==> DatePieces(thisYear, found[j]).Ok?
    ensures ResolveRange(thisYear, found) == Err(DatePieces(thisYear, found[i]).error)
  {
    var tokens := ParsedTokens(thisYear, found);
    assert AllOk(tokens[..i]).Ok?;
    FirstError(tokens, i);
  }

  /** When every token parses, the range fails exactly when the last token
      in source order has no month. */
  lemma ResolveRangeMissingMonth(thisYear: int, found: seq<string>)
    requires found != [] && forall j :: 0 <= j < |found| ==> DatePieces(thisYear, found[j]).Ok?
    ensures ResolveRange(thisYear, found).Err? <==> |DatePieces(thisYear, found[|found| - 1]).value| < 2
    ensures ResolveRange(thisYear, found).Err? ==> ResolveRange(thisYear, found).error == MissingMonth
  {
    var tokens := ParsedTokens(thisYear, found);
    assert tokens[|found| - 1] == DatePieces(thisYear, found[|found| - 1]);
  }

  /** The completion with every list rendered, or the completion's error. */
  function CompletedRendered(thisYear: int, lists: seq<seq<Piece>>): Result<seq<string>, Error>
  {
    match Complete(thisYear, lists)
    case Err(e) => Err(e)
    case Ok(done) => Ok(Rendered(done))
  }

  /** The first loop of `parse_date_range`: `parse_date` on every token in
      source order; the first token that raises ends it. */
  method ParseTokens(thisYear: int, found: seq<string>) returns (r: Result<seq<seq<Piece>>, Error>)
    ensures r == ParseAll(thisYear, found)
  {
    ghost var tokens := ParsedTokens(thisYear, found);
    var pieceLists: seq<seq<Piece>> := [];
    for i := 0 to |found|
      invariant AllOk(tokens[..i]) == Ok(pieceLists)
    {
      var parsed := ParseDate(thisYear, found[i]);
      if parsed.Err? {
        FirstError(tokens, i);
        return Err(parsed.error);
      }
      AllOkSnoc(tokens, pieceLists, i);
      pieceLists := pieceLists + [parsed.value];
    }
    assert tokens[..|found|] == tokens;
    return Ok(pieceLists);
  }

  /** Where the second loop of `parse_date_range` stands after `index`
      rounds: the first `index` entries of the reversed list are completed
      (they are `done`, the completion of the last `index` tokens, read
      backwards) and the others are untouched. */
  predicate Walked(thisYear: int, pieceLists: seq<seq<Piece>>, lists: seq<seq<Piece>>, done: seq<seq<Piece>>, index: nat)
    requires index <= |pieceLists|
  {
    var n := |pieceLists|;
    && |lists| == n && |done| == index
    && (forall k :: index <= k < n ==> lists[k] == pieceLists[n - 1 - k])
    && (forall k :: 0 <= k < index ==> lists[k] == done[index - 1 - k])
    && Complete(thisYear, pieceLists[n - index..]) == Ok(done)
  }

  lemma WalkStart(thisYear: int, pieceLists: seq<seq<Piece>>)
    ensures Walked(thisYear, pieceLists, Reversed(pieceLists), [], 0)
  {
    assert pieceLists[|pieceLists|..] == [];
  }

  /** One round: entry `index` is completed from the entry before it. */
  lemma WalkStep(thisYear: int, pieceLists: seq<seq<Piece>>, lists: seq<seq<Piece>>, done: seq<seq<Piece>>,
                 index: nat, each: seq<Piece>)
    requires index < |pieceLists| && Walked(thisYear, pieceLists, lists, done, index)
    requires CompleteOne(thisYear, lists[index], if done == [] then None else Some(done[0][1])) == Ok(each)
    ensures Walked(thisYear, pieceLists, lists[index := each], [each] + done, index + 1)
  {
    var n := |pieceLists|;
    CompleteSuffix(thisYear, pieceLists, n - 1 - index, done);
    assert pieceLists[n - 1 - index..] == pieceLists[n - (index + 1)..];
  }

  /** The token read first (the last of the text) lacks a month. */
  lemma WalkFails(thisYear: int, pieceLists: seq<seq<Piece>>, lists: seq<seq<Piece>>)
    requires 0 < |pieceLists| && Walked(thisYear, pieceLists, lists, [], 0) && |lists[0]| < 2
    ensures CompletedRendered(thisYear, pieceLists) == Err(MissingMonth)
  {
  }

  lemma WalkDone(thisYear: int, pieceLists: seq<seq<Piece>>, lists: seq<seq<Piece>>, done: seq<seq<Piece>>)
    requires Walked(thisYear, pieceLists, lists, done, |pieceLists|)
    ensures CompletedRendered(thisYear, pieceLists) == Ok(Rendered(done))
  {
    assert pieceLists[0..] == pieceLists;
  }

  lemma RenderedCons(each: seq<Piece>, done: seq<seq<Piece>>)
    ensures Rendered([each] + done) == [JoinDash(each)] + Rendered(done)
  {
    var r := Rendered([each] + done);
    assert forall k :: 1 <= k < |r| ==> r[k] == JoinDash(done[k - 1]);
  }

  /** The second loop of `parse_date_range`: walk the reversed piece lists,
      complete each in place from the one completed before it, and prepend
      its joined form to the result. */
  method CompleteTokens(thisYear: int, pieceLists: seq<seq<Piece>>) returns (r: Result<seq<string>, Error>)
    ensures r == CompletedRendered(thisYear, pieceLists)
  {
    var n := |pieceLists|;
    var lists := Reversed(pieceLists);
    var result: seq<string> := [];
    ghost var done: seq<seq<Piece>> := [];
    WalkStart(thisYear, pieceLists);
    for index := 0 to n
      invariant Walked(thisYear, pieceLists, lists, done, index)
      invariant result == Rendered(done)
    {
      var each := lists[index];
      if |each| < 2 {
        if index == 0 {
          WalkFails(thisYear, pieceLists, lists);
          return Err(MissingMonth);
        }
        each := [lists[index - 1][1]] + each;
      }
      if |each| < 3 {
        each := [Year(thisYear)] + each;
      }
      WalkStep(thisYear, pieceLists, lists, done, index, each);
      RenderedCons(each, done);
      lists := lists[index := each];
      result := [JoinDash(each)] + result;
      done := [each] + done;
    }
    WalkDone(thisYear, pieceLists, lists, done);
    return Ok(result);
  }

  /** `parse_date_range(this_year, text)` where `found` is
      `date_pattern.findall(text)`. */
  method ParseDateRange(thisYear: int, found: seq<string>) returns (r: Result<seq<string>, Error>)
    ensures r == ResolveRange(thisYear, found)
  {
    if found == [] {
      return Ok([]);
    }
    var parsed := ParseTokens(thisYear, found);
    if parsed.Err? {
      return Err(parsed.error);
    }
    r := CompleteTokens(thisYear, parsed.value);
  }
}

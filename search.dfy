/** The search filter of parse.py:37-66 and parse.py:130-138: command-line
    values become groups of terms, and an event matches when some group has
    every one of its terms as a case-insensitive substring of some field. */
module Search {
  import opened Wrappers
  import opened PyStrings

  /** `search_words`: `None` or a list of groups, each a list of terms. */
  type Groups = seq<seq<string>>

  /** `term.casefold() in piece.casefold()` for some field of the event. */
  predicate Found(term: string, fields: seq<string>)
  {
    exists p :: 0 <= p < |fields| && IsSubstring(Casefold(term), Casefold(fields[p]))
  }

  /** Every term of the group is found somewhere in the event. */
  predicate InSection(fields: seq<string>, terms: seq<string>)
  {
    forall t :: 0 <= t < |terms| ==> Found(terms[t], fields)
  }

  /** `is_empty`: no groups at all, or only empty ones. */
  predicate NoTerms(searchWords: Option<Groups>)
  {
    searchWords.None? || forall g :: 0 <= g < |searchWords.value| ==> searchWords.value[g] == []
  }

  /** `contains`: with no terms everything matches; otherwise some group
      must match as a whole. */
  predicate Matches(fields: seq<string>, searchWords: Option<Groups>)
  {
    NoTerms(searchWords) || exists g :: 0 <= g < |searchWords.value| && InSection(fields, searchWords.value[g])
  }

  /** `is_empty(lst)`: the first non-empty group settles it. */
  method IsEmpty(searchWords: Option<Groups>) returns (r: bool)
    ensures r <==> NoTerms(searchWords)
  {
    if searchWords.None? {
      return true;
    }
    var groups := searchWords.value;
    if |groups| == 0 {
      return true;
    }
    for i := 0 to |groups|
      invariant forall g :: 0 <= g < i ==> groups[g] == []
    {
      if groups[i] != [] {
        return false;
      }
    }
    return true;
  }

  /** `is_in_section(event, search_words)`: each term is looked for field by
      field with a `found` flag; a term found nowhere ends the search. */
  method IsInSection(fields: seq<string>, terms: seq<string>) returns (r: bool)
    ensures r <==> InSection(fields, terms)
  {
    for t := 0 to |terms|
      invariant forall u :: 0 <= u < t ==> Found(terms[u], fields)
    {
      var each := terms[t];
      var term := Casefold(each);
      var found := false;
      var p := 0;
      while p < |fields|
        invariant 0 <= p <= |fields|
        invariant found ==> Found(each, fields)
        invariant !found ==> forall q :: 0 <= q < p ==> !IsSubstring(term, Casefold(fields[q]))
      {
        if IsSubstring(term, Casefold(fields[p])) {
          found := true;
          break;
        }
        p := p + 1;
      }
      if !found {
        return false;
      }
    }
    return true;
  }

  /** `contains(event, search_words)`. */
  method Contains(fields: seq<string>, searchWords: Option<Groups>) returns (r: bool)
    ensures r <==> Matches(fields, searchWords)
  {
    var empty := IsEmpty(searchWords);
    if empty {
      return true;
    }
    var groups := searchWords.value;
    for g := 0 to |groups|
      invariant forall h :: 0 <= h < g ==> !InSection(fields, groups[h])
    {
      var inSection := IsInSection(fields, groups[g]);
      if inSection {
        return true;
      }
    }
    return false;
  }

  /** An empty group next to others matches every event: `is_in_section`
      of no terms holds. */
  lemma EmptyGroupMatchesAll(fields: seq<string>, groups: Groups, g: nat)
    requires g < |groups| && groups[g] == []
    ensures Matches(fields, Some(groups))
  {
    assert InSection(fields, groups[g]);
  }

  /** Folding the terms beforehand changes nothing: the test ignores case. */
  lemma FoundIgnoresCase(term: string, fields: seq<string>)
    ensures Found(Casefold(term), fields) <==> Found(term, fields)
  {
    CasefoldIdempotent(term);
  }

  /** More fields can only help: an event that matches keeps matching when
      fields are added to it. */
  lemma MatchesMoreFields(fields: seq<string>, extra: seq<string>, searchWords: Option<Groups>)
    requires Matches(fields, searchWords)
    ensures Matches(fields + extra, searchWords)
  {
    if !NoTerms(searchWords) {
      var groups := searchWords.value;
      var g :| 0 <= g < |groups| && InSection(fields, groups[g]);
      forall t | 0 <= t < |groups[g]|
        ensures Found(groups[g][t], fields + extra)
      {
        var p :| 0 <= p < |fields| && IsSubstring(Casefold(groups[g][t]), Casefold(fields[p]));
        assert (fields + extra)[p] == fields[p];
      }
    }
  }

  /** `value.split(",")` with every piece stripped and the empty ones
      dropped, in order. */
  function Terms(value: string): seq<string>
  {
    NonEmpty(StrippedAll(Split(value, ',')))
  }

  function StrippedAll(parts: seq<string>): (r: seq<string>)
    ensures |r| == |parts| && forall k :: 0 <= k < |parts| ==> r[k] == Strip(parts[k])
  {
    seq(|parts|, k requires 0 <= k < |parts| => Strip(parts[k]))
  }

  /** The non-empty strings of `parts`, in order. */
  function NonEmpty(parts: seq<string>): (r: seq<string>)
    ensures |r| <= |parts|
    ensures forall k :: 0 <= k < |r| ==> r[k] != [] && r[k] in parts
  {
    if parts == [] then []
    else if parts[0] == [] then NonEmpty(parts[1..])
    else [parts[0]] + NonEmpty(parts[1..])
  }

  /** `parse_filters(values)` on a list: one group per value that has a
      non-empty term, in order. */
  function Filters(values: seq<string>): seq<seq<string>>
  {
    if values == [] then []
    else
      GroupOf(values[0]) + Filters(values[1..])
  }

  /** The group one value contributes, if any. */
  function GroupOf(value: string): seq<seq<string>>
  {
    var terms := Terms(value);
    if terms == [] then [] else [terms]
  }

  lemma FiltersSnoc(values: seq<string>, i: nat)
    requires i < |values|
    ensures Filters(values[..i + 1]) == Filters(values[..i]) + GroupOf(values[i])
  {
    assert values[..i + 1] == values[..i] + [values[i]];
    FiltersAppend(values[..i], [values[i]]);
    assert [values[i]][1..] == [];
  }

  /** `parse_filters(values)`: `None` is no values at all. */
  method ParseFilters(values: Option<seq<string>>) returns (filters: Groups)
    ensures filters == Filters(if values.None? then [] else values.value)
  {
    var all := if values.None? then [] else values.value;
    filters := [];
    for i := 0 to |all|
      invariant filters == Filters(all[..i])
    {
      var pieces := StrippedAll(Split(all[i], ','));
      pieces := NonEmpty(pieces);
      FiltersSnoc(all, i);
      if pieces != [] {
        filters := filters + [pieces];
      }
    }
    assert all[..|all|] == all;
  }

  /** A string `strip` leaves as it is. */
  predicate Trimmed(s: string)
  {
    s != [] && !IsSpace(s[0]) && !IsSpace(s[|s| - 1])
  }

  /** A term `parse_filters` can produce: not empty, no surrounding
      whitespace, no comma. */
  predicate IsTerm(s: string)
  {
    Trimmed(s) && ',' !in s
  }

  lemma {:induction false} TermsAreTerms(value: string)
    ensures forall k :: 0 <= k < |Terms(value)| ==> IsTerm(Terms(value)[k])
  {
    var parts := Split(value, ',');
    var stripped := StrippedAll(parts);
    forall k | 0 <= k < |Terms(value)|
      ensures IsTerm(Terms(value)[k])
    {
      var t := Terms(value)[k];
      assert t != [] && t in stripped;
      var j :| 0 <= j < |stripped| && stripped[j] == t;
      assert ',' !in parts[j];
      StrippedPieceIsTerm(parts[j]);
    }
  }

  /** A comma-free piece that does not strip to nothing strips to a term. */
  lemma StrippedPieceIsTerm(piece: string)
    requires ',' !in piece && Strip(piece) != []
    ensures IsTerm(Strip(piece))
  {
    StripInfix(piece);
  }

  /** What `strip` returns is an infix of its input that is either empty
      or trimmed. */
  lemma StripInfix(s: string)
    ensures Strip(s) == [] || Trimmed(Strip(s))
    ensures forall c :: c in Strip(s) ==> c in s
  {
  }

  /** No group `parse_filters` returns is empty, and each of its terms is
      non-empty, trimmed and comma-free. */
  lemma {:induction false} FiltersWellFormed(values: seq<string>)
    ensures forall g :: 0 <= g < |Filters(values)| ==> Filters(values)[g] != []
    ensures forall g, t :: 0 <= g < |Filters(values)| && 0 <= t < |Filters(values)[g]| ==>
      IsTerm(Filters(values)[g][t])
  {
    if values != [] {
      TermsAreTerms(values[0]);
      FiltersWellFormed(values[1..]);
    }
  }

  /** Filtering is done value by value, so the groups keep the order of the
      values they come from. */
  lemma {:induction false} FiltersAppend(a: seq<string>, b: seq<string>)
    ensures Filters(a + b) == Filters(a) + Filters(b)
  {
    if a != [] {
      assert (a + b)[0] == a[0];
      assert (a + b)[1..] == a[1..] + b;
      FiltersAppend(a[1..], b);
      assert Filters(a + b) == GroupOf(a[0]) + Filters(a[1..] + b);
    } else {
      assert a + b == b;
    }
  }

  lemma TrimmedStrip(s: string)
    requires Trimmed(s)
    ensures Strip(s) == s
  {
    StripWhereExact(s, IsSpace, 0, |s|);
    assert s[0..|s|] == s;
  }

  lemma {:induction false} NonEmptyKeeps(parts: seq<string>)
    requires forall k :: 0 <= k < |parts| ==> parts[k] != []
    ensures NonEmpty(parts) == parts
  {
    if parts != [] {
      NonEmptyKeeps(parts[1..]);
    }
  }

  lemma StrippedKeeps(group: seq<string>)
    requires forall t :: 0 <= t < |group| ==> group[t] == [] || Trimmed(group[t])
    ensures StrippedAll(group) == group
  {
    var stripped := StrippedAll(group);
    forall t | 0 <= t < |group|
      ensures stripped[t] == group[t]
    {
      if group[t] != [] {
        TrimmedStrip(group[t]);
      }
    }
  }

  lemma {:induction false} NonEmptyAppend(a: seq<string>, b: seq<string>)
    ensures NonEmpty(a + b) == NonEmpty(a) + NonEmpty(b)
  {
    if a != [] {
      assert (a + b)[0] == a[0];
      assert (a + b)[1..] == a[1..] + b;
      NonEmptyAppend(a[1..], b);
    } else {
      assert a + b == b;
    }
  }

  /** A group of terms joined with commas reads back as that group. */
  lemma TermsJoin(group: seq<string>)
    requires group != [] && forall t :: 0 <= t < |group| ==> IsTerm(group[t])
    ensures Terms(Join(group, ',')) == group
  {
    SplitJoin(group, ',');
    StrippedKeeps(group);
    NonEmptyKeeps(group);
  }

  /** Each group written as one comma-separated value. */
  function JoinedGroups(groups: Groups): (values: seq<string>)
    ensures |values| == |groups| && forall g :: 0 <= g < |groups| ==> values[g] == Join(groups[g], ',')
  {
    seq(|groups|, g requires 0 <= g < |groups| => Join(groups[g], ','))
  }

  /** `parse_filters` inverts writing each group as one comma-separated
      value, for every list of groups it can return. */
  lemma {:induction false} FiltersRoundTrip(groups: Groups)
    requires forall g :: 0 <= g < |groups| ==> groups[g] != []
    requires forall g, t :: 0 <= g < |groups| && 0 <= t < |groups[g]| ==> IsTerm(groups[g][t])
    ensures Filters(JoinedGroups(groups)) == groups
  {
    if groups != [] {
      var values := JoinedGroups(groups);
      TermsJoin(groups[0]);
      assert values[1..] == JoinedGroups(groups[1..]);
      FiltersRoundTrip(groups[1..]);
      assert GroupOf(values[0]) == [groups[0]];
    }
  }

  /** parse_filters([" a\t"]) is [["a"]]. */
  lemma FiltersStripsTerms()
    ensures Filters([" a\t"]) == [["a"]]
  {
    StripWhereExact(" a\t", IsSpace, 1, 2);
    assert " a\t"[1..2] == "a";
    SplitNoSeparator(" a\t", ',');
    assert Terms(" a\t") == ["a"];
    assert GroupOf(" a\t") == [["a"]];
    assert [" a\t"][1..] == [];
  }

  lemma SplitCommas()
    ensures Split("c,,d,e", ',') == ["c", "", "d", "e"]
  {
    assert Join(["c", "", "d", "e"], ',') == "c,,d,e";
    SplitJoin(["c", "", "d", "e"], ',');
  }

  lemma TermsOf(value: string, parts: seq<string>, stripped: seq<string>, terms: seq<string>)
    requires Split(value, ',') == parts && StrippedAll(parts) == stripped && NonEmpty(stripped) == terms
    ensures Terms(value) == terms
  {
  }

  lemma StrippedCommas()
    ensures StrippedAll(["c", "", "d", "e"]) == ["c", "", "d", "e"]
  {
    StrippedKeeps(["c", "", "d", "e"]);
  }

  /** The empty string between two others is dropped. */
  lemma {:induction false} NonEmptyDropsGap(a: string, b: string, c: string)
    requires a != [] && b != [] && c != []
    ensures NonEmpty([a, [], b, c]) == [a, b, c]
  {
    var s := [a, [], b, c];
    assert s[1..] == [[], b, c];
    assert s[1..][1..] == [b, c];
    assert [b, c][1..] == [c];
    assert [c][1..] == [];
    assert NonEmpty([c]) == [c];
    assert NonEmpty([b, c]) == [b, c];
  }

  lemma NonEmptyCommas()
    ensures NonEmpty(["c", "", "d", "e"]) == ["c", "d", "e"]
  {
    NonEmptyDropsGap("c", "d", "e");
  }

  lemma TermsSkipEmpty()
    ensures Terms("c,,d,e") == ["c", "d", "e"]
  {
    SplitCommas();
    StrippedCommas();
    NonEmptyCommas();
    TermsOf("c,,d,e", ["c", "", "d", "e"], ["c", "", "d", "e"], ["c", "d", "e"]);
  }

  /** The test values ["a", "b,c", "c,,d,e"], in two parts that
      `FiltersAppend` puts together: the first two read back as written, and
      the empty term of the third is dropped. */
  lemma FirstTwoValues()
    ensures Filters(["a", "b,c"]) == [["a"], ["b", "c"]]
  {
    var groups := [["a"], ["b", "c"]];
    assert Join(groups[0], ',') == "a" && Join(groups[1], ',') == "b,c";
    assert JoinedGroups(groups) == ["a", "b,c"];
    FiltersRoundTrip(groups);
  }

  lemma LastValue()
    ensures Filters(["c,,d,e"]) == [["c", "d", "e"]]
  {
    TermsSkipEmpty();
    assert ["c,,d,e"][1..] == [];
  }

  /** The third parametrised case of `test_parse_filters`. */
  lemma ThreeValues()
    ensures Filters(["a", "b,c", "c,,d,e"]) == [["a"], ["b", "c"], ["c", "d", "e"]]
  {
    var first, last := ["a", "b,c"], ["c,,d,e"];
    assert first + last == ["a", "b,c", "c,,d,e"];
    assert [["a"], ["b", "c"]] + [["c", "d", "e"]] == [["a"], ["b", "c"], ["c", "d", "e"]];
    FiltersAppend(first, last);
    FirstTwoValues();
    LastValue();
  }

  lemma FoldCapital(head: char, tail: string)
    requires 'A' <= head <= 'Z'
    requires forall k :: 0 <= k < |tail| ==> FoldChar(tail[k]) == [tail[k]]
    ensures Casefold([head] + tail) == [(head as int + 32) as char] + tail
  {
    CasefoldKeeps(tail);
    var s := [head] + tail;
    assert s[0] == head && s[1..] == tail;
    assert FoldChar(head) == [(head as int + 32) as char];
    assert Casefold(s) == FoldChar(s[0]) + Casefold(s[1..]);
  }

  lemma FoldMasters()
    ensures Casefold("Masters") == "masters"
  {
    FoldCapital('M', "asters");
    assert ['M'] + "asters" == "Masters";
  }

  lemma FoldKalajoki()
    ensures Casefold("Kalajoki") == "kalajoki"
  {
    FoldCapital('K', "alajoki");
    assert ['K'] + "alajoki" == "Kalajoki";
  }

  lemma FoldJoki()
    ensures Casefold("Joki") == "joki"
  {
    FoldCapital('J', "oki");
    assert ['J'] + "oki" == "Joki";
  }

  lemma FoundMast()
    ensures Found("mast", ["Masters", "Kalajoki"])
  {
    FoldMasters();
    CasefoldKeeps("mast");
    assert IsPrefix("mast", "masters");
    assert ["Masters", "Kalajoki"][0] == "Masters";
  }

  lemma FoundJoki()
    ensures Found("Joki", ["Masters", "Kalajoki"])
  {
    FoldKalajoki();
    FoldJoki();
    assert OccursAt("joki", "kalajoki", 4);
    IsSubstringAt("joki", "kalajoki");
    assert ["Masters", "Kalajoki"][1] == "Kalajoki";
  }

  /** A term whose folded form starts the folded field `p` is found. */
  lemma FoundAsPrefix(term: string, fields: seq<string>, p: nat)
    requires p < |fields| && IsPrefix(Casefold(term), Casefold(fields[p]))
    ensures Found(term, fields)
  {
  }

  lemma KalajokiFolded()
    ensures Casefold("kalajoki") == "kalajoki"
  {
    CasefoldKeeps("kalajoki");
  }

  lemma FoundKalajoki()
    ensures Found("kalajoki", ["Masters", "Kalajoki"])
  {
    FoldKalajoki();
    KalajokiFolded();
    FoundAsPrefix("kalajoki", ["Masters", "Kalajoki"], 1);
  }

  lemma NotFoundInEither(term: string, a: string, b: string)
    requires !IsSubstring(Casefold(term), Casefold(a)) && !IsSubstring(Casefold(term), Casefold(b))
    ensures !Found(term, [a, b])
  {
    var fields := [a, b];
    assert fields[0] == a && fields[1] == b;
  }

  lemma PahaNotInMasters()
    ensures !IsSubstring(Casefold("paha"), Casefold("Masters"))
  {
    FoldMasters();
    CasefoldKeeps("paha");
    NotSubstringFirstChar("paha", "masters");
  }

  lemma PahaNotInKalajoki()
    ensures !IsSubstring(Casefold("paha"), Casefold("Kalajoki"))
  {
    FoldKalajoki();
    CasefoldKeeps("paha");
    NotSubstringFirstChar("paha", "kalajoki");
  }

  lemma NotFoundPaha()
    ensures !Found("paha", ["Masters", "Kalajoki"])
  {
    PahaNotInMasters();
    PahaNotInKalajoki();
    NotFoundInEither("paha", "Masters", "Kalajoki");
  }

  /** With a single group, an event matches exactly when every term of
      the group is found in it. */
  lemma SingleGroup(fields: seq<string>, group: seq<string>)
    ensures Matches(fields, Some([group])) <==> InSection(fields, group)
  {
    assert [group][0] == group;
  }

  lemma OneTerm(fields: seq<string>, a: string)
    ensures InSection(fields, [a]) <==> Found(a, fields)
  {
    assert [a][0] == a;
  }

  lemma TwoTerms(fields: seq<string>, a: string, b: string)
    ensures InSection(fields, [a, b]) <==> Found(a, fields) && Found(b, fields)
  {
    assert [a, b][0] == a && [a, b][1] == b;
  }

  lemma MatchesMast()
    ensures Matches(["Masters", "Kalajoki"], Some([["mast"]]))
  {
    FoundMast();
    OneTerm(["Masters", "Kalajoki"], "mast");
    SingleGroup(["Masters", "Kalajoki"], ["mast"]);
  }

  lemma MatchesJoki()
    ensures Matches(["Masters", "Kalajoki"], Some([["Joki"]]))
  {
    FoundJoki();
    OneTerm(["Masters", "Kalajoki"], "Joki");
    SingleGroup(["Masters", "Kalajoki"], ["Joki"]);
  }

  lemma MatchesBoth()
    ensures Matches(["Masters", "Kalajoki"], Some([["mast", "kalajoki"]]))
  {
    FoundMast();
    FoundKalajoki();
    TwoTerms(["Masters", "Kalajoki"], "mast", "kalajoki");
    SingleGroup(["Masters", "Kalajoki"], ["mast", "kalajoki"]);
  }

  lemma NoMatchPaha()
    ensures !Matches(["Masters", "Kalajoki"], Some([["mast", "paha"]]))
  {
    NotFoundPaha();
    TwoTerms(["Masters", "Kalajoki"], "mast", "paha");
    SingleGroup(["Masters", "Kalajoki"], ["mast", "paha"]);
  }

  /** The `contains` tests, on series "Masters" and name "Kalajoki". */
  lemma ContainsExamples()
    ensures var event := ["Masters", "Kalajoki"];
      && Matches(event, Some([["mast"]]))
      && Matches(event, Some([["Joki"]]))
      && Matches(event, Some([[]]))
      && Matches(event, Some([]))
      && Matches(event, None)
      && Matches(event, Some([["mast", "kalajoki"]]))
      && !Matches(event, Some([["mast", "paha"]]))
  {
    MatchesMast();
    MatchesJoki();
    EmptyGroupMatchesAll(["Masters", "Kalajoki"], [[]], 0);
    MatchesBoth();
    NoMatchPaha();
  }
}

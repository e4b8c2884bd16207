/** The Python `str` operations the scraper uses, on `seq<char>`:
    `strip()` and `strip(chars)`, `split(sep)` with its inverse `join`,
    `casefold()`, the substring test `in`, and the ordering `<`. */
module PyStrings {

  /** `c.isspace()`: the characters CPython treats as whitespace. */
  predicate IsSpace(c: char)
  {
    || c == ' '
    || '\t' <= c <= '\r'
    || '\U{1c}' <= c <= '\U{1f}'
    || c == '\U{85}' || c == '\U{a0}' || c == '\U{1680}'
    || '\U{2000}' <= c <= '\U{200a}'
    || c == '\U{2028}' || c == '\U{2029}' || c == '\U{202f}' || c == '\U{205f}' || c == '\U{3000}'
  }

  /** The first index from `i` on whose character `drop` keeps, or `|s|`. */
  function SkipForward(s: string, drop: char -> bool, i: nat): (n: nat)
    requires i <= |s|
    ensures i <= n <= |s|
    ensures forall k :: i <= k < n ==> drop(s[k])
    ensures n < |s| ==> !drop(s[n])
    decreases |s| - i
  {
    if i < |s| && drop(s[i]) then SkipForward(s, drop, i + 1) else i
  }

  /** The end of `s[lo..j]` once its trailing dropped characters are gone. */
  function SkipBackward(s: string, drop: char -> bool, lo: nat, j: nat): (n: nat)
    requires lo <= j <= |s|
    ensures lo <= n <= j
    ensures forall k :: n <= k < j ==> drop(s[k])
    ensures lo < n ==> !drop(s[n - 1])
  {
    if lo < j && drop(s[j - 1]) then SkipBackward(s, drop, lo, j - 1) else j
  }

  /** `s.strip(chars)` where `drop` tells the characters of `chars`: the
      longest infix of `s` that neither starts nor ends with a dropped
      character, all of whose surroundings are dropped characters. */
  function StripWhere(s: string, drop: char -> bool): (r: string)
    ensures var i := SkipForward(s, drop, 0);
      && i + |r| <= |s| && r == s[i..i + |r|]
      && (forall k :: 0 <= k < i ==> drop(s[k]))
      && (forall k :: i + |r| <= k < |s| ==> drop(s[k]))
    ensures r != [] ==> !drop(r[0]) && !drop(r[|r| - 1])
    ensures r == [] <==> forall k :: 0 <= k < |s| ==> drop(s[k])
  {
    var i := SkipForward(s, drop, 0);
    var j := SkipBackward(s, drop, i, |s|);
    assert i < j ==> s[i..j][0] == s[i] && s[i..j][j - i - 1] == s[j - 1];
    s[i..j]
  }

  /** The infix `s[i..j]` is what `strip` leaves when everything outside it
      is dropped and neither of its ends is. */
  lemma StripWhereExact(s: string, drop: char -> bool, i: nat, j: nat)
    requires i < j <= |s|
    requires forall k :: 0 <= k < i ==> drop(s[k])
    requires forall k :: j <= k < |s| ==> drop(s[k])
    requires !drop(s[i]) && !drop(s[j - 1])
    ensures StripWhere(s, drop) == s[i..j]
  {
    var start := SkipForward(s, drop, 0);
    var end := SkipBackward(s, drop, start, |s|);
    assert start == i;
    assert end == j;
  }

  /** No whitespace at either end, as `strip()` leaves a string. */
  predicate NoOuterSpace(s: string)
  {
    s == [] || (!IsSpace(s[0]) && !IsSpace(s[|s| - 1]))
  }

  /** `s.strip()`. */
  function Strip(s: string): string
  {
    StripWhere(s, IsSpace)
  }

  /** `sep.join(parts)`. */
  function Join(parts: seq<string>, sep: char): string
  {
    if |parts| == 0 then []
    else if |parts| == 1 then parts[0]
    else parts[0] + [sep] + Join(parts[1..], sep)
  }

  /** `s.split(sep)` for a one-character separator: the pieces between
      separators, at least one, none holding `sep`, which `Join` glues back
      into `s`. */
  function Split(s: string, sep: char): (r: seq<string>)
    ensures |r| >= 1
    ensures forall k :: 0 <= k < |r| ==> sep !in r[k]
    ensures Join(r, sep) == s
  {
    if s == [] then [[]]
    else
      var rest := Split(s[1..], sep);
      if s[0] == sep then
        assert Join([[]] + rest, sep) == [sep] + Join(rest, sep);
        [[]] + rest
      else
        var r := [[s[0]] + rest[0]] + rest[1..];
        assert |rest| > 1 ==> Join(rest, sep) == rest[0] + [sep] + Join(rest[1..], sep);
        assert |rest| > 1 ==> Join(r, sep) == r[0] + [sep] + Join(rest[1..], sep);
        assert s == [s[0]] + s[1..];
        r
  }

  lemma {:induction false} SplitNoSeparator(s: string, sep: char)
    requires sep !in s
    ensures Split(s, sep) == [s]
  {
    if s != [] {
      SplitNoSeparator(s[1..], sep);
    }
  }

  /** Splitting at the first separator. */
  lemma {:induction false} SplitAtFirst(a: string, sep: char, b: string)
    requires sep !in a
    ensures Split(a + [sep] + b, sep) == [a] + Split(b, sep)
  {
    var s := a + [sep] + b;
    if a != [] {
      assert s[1..] == a[1..] + [sep] + b;
      SplitAtFirst(a[1..], sep, b);
      var rest := Split(s[1..], sep);
      assert rest == [a[1..]] + Split(b, sep);
      assert s[0] == a[0] && a[0] != sep;
      assert Split(s, sep) == [[s[0]] + rest[0]] + rest[1..];
      assert [a[0]] + a[1..] == a;
    } else {
      assert s[1..] == b;
    }
  }

  lemma JoinStart(parts: seq<string>, sep: char)
    requires |parts| >= 1 && parts[0] != []
    ensures |Join(parts, sep)| >= |parts[0]| && Join(parts, sep)[0] == parts[0][0]
  {
  }

  lemma {:induction false} JoinEnd(parts: seq<string>, sep: char)
    requires |parts| >= 1 && parts[|parts| - 1] != []
    ensures var j := Join(parts, sep); var last := parts[|parts| - 1];
      |j| >= |last| && j[|j| - 1] == last[|last| - 1]
  {
    if |parts| > 1 {
      JoinEnd(parts[1..], sep);
    }
  }

  /** Join followed by split gives back the pieces, when no piece holds the
      separator. */
  lemma {:induction false} SplitJoin(parts: seq<string>, sep: char)
    requires |parts| >= 1
    requires forall k :: 0 <= k < |parts| ==> sep !in parts[k]
    ensures Split(Join(parts, sep), sep) == parts
  {
    if |parts| == 1 {
      SplitNoSeparator(parts[0], sep);
    } else {
      SplitJoin(parts[1..], sep);
      SplitAtFirst(parts[0], sep, Join(parts[1..], sep));
    }
  }

  /** `c.casefold()` on one character, exact on Latin-1 (U+0000 to U+00FF):
      capital letters go to their small forms, sharp s to "ss" and the micro
      sign to Greek mu. */
  function FoldChar(c: char): string
  {
    if 'A' <= c <= 'Z' || ('\U{c0}' <= c <= '\U{de}' && c != '\U{d7}') then [(c as int + 32) as char]
    else if c == '\U{df}' then "ss"
    else if c == '\U{b5}' then ['\U{3bc}']
    else [c]
  }

  /** `s.casefold()`, character by character. */
  function Casefold(s: string): string
  {
    if s == [] then [] else FoldChar(s[0]) + Casefold(s[1..])
  }

  lemma {:induction false} CasefoldAppend(a: string, b: string)
    ensures Casefold(a + b) == Casefold(a) + Casefold(b)
  {
    if a != [] {
      CasefoldAppend(a[1..], b);
      assert (a + b)[1..] == a[1..] + b;
    } else {
      assert a + b == b;
    }
  }

  /** A string none of whose characters folds is its own casefold. */
  lemma {:induction false} CasefoldKeeps(s: string)
    requires forall k :: 0 <= k < |s| ==> FoldChar(s[k]) == [s[k]]
    ensures Casefold(s) == s
  {
    if s != [] {
      CasefoldKeeps(s[1..]);
      assert FoldChar(s[0]) == [s[0]];
    }
  }

  /** Folding twice folds no further: a case-insensitive comparison may fold
      either side once. */
  lemma {:induction false} CasefoldIdempotent(s: string)
    ensures Casefold(Casefold(s)) == Casefold(s)
  {
    if s != [] {
      CasefoldIdempotent(s[1..]);
      var f := FoldChar(s[0]);
      assert Casefold(f) == f by {
        if |f| == 2 {
          assert f == "ss";
          assert Casefold(f) == FoldChar('s') + Casefold(f[1..]);
          assert f[1..] == "s";
        } else {
          assert Casefold(f) == FoldChar(f[0]) + Casefold(f[1..]);
          assert f[1..] == [];
        }
      }
      CasefoldAppend(f, Casefold(s[1..]));
    }
  }

  predicate IsPrefix(needle: string, hay: string)
  {
    |needle| <= |hay| && hay[..|needle|] == needle
  }

  /** `needle in hay` for two strings. */
  predicate IsSubstring(needle: string, hay: string)
  {
    IsPrefix(needle, hay) || (hay != [] && IsSubstring(needle, hay[1..]))
  }

  /** `needle` occurs in `hay` starting at offset `i`. */
  predicate OccursAt(needle: string, hay: string, i: nat)
  {
    i + |needle| <= |hay| && hay[i..i + |needle|] == needle
  }

  lemma PrefixOccurs(needle: string, hay: string)
    ensures IsPrefix(needle, hay) <==> OccursAt(needle, hay, 0)
  {
  }

  /** An occurrence in the tail is an occurrence one place further on. */
  lemma OccursShift(needle: string, hay: string, j: nat)
    requires hay != []
    ensures OccursAt(needle, hay[1..], j) <==> OccursAt(needle, hay, j + 1)
  {
    if j + |needle| <= |hay| - 1 {
      assert hay[1..][j..j + |needle|] == hay[j + 1..j + 1 + |needle|];
    }
  }

  /** `needle in hay` holds exactly when `needle` occurs at some offset. */
  lemma {:induction false} IsSubstringAt(needle: string, hay: string)
    ensures IsSubstring(needle, hay) <==> exists i: nat :: OccursAt(needle, hay, i)
  {
    PrefixOccurs(needle, hay);
    if hay != [] {
      var tail := hay[1..];
      IsSubstringAt(needle, tail);
      if IsSubstring(needle, tail) {
        var j: nat :| OccursAt(needle, tail, j);
        OccursShift(needle, hay, j);
      }
      if exists i: nat :: OccursAt(needle, hay, i) {
        var i: nat :| OccursAt(needle, hay, i);
        if i > 0 {
          OccursShift(needle, hay, i - 1);
        }
      }
    } else if exists i: nat :: OccursAt(needle, hay, i) {
      var i: nat :| OccursAt(needle, hay, i);
      assert i == 0;
    }
  }

  /** A needle whose first character is nowhere in the haystack is not in
      it. */
  lemma {:induction false} NotSubstringFirstChar(needle: string, hay: string)
    requires needle != [] && needle[0] !in hay
    ensures !IsSubstring(needle, hay)
  {
    if hay != [] {
      assert hay[0] != needle[0];
      assert forall c :: c in hay[1..] ==> c in hay;
      NotSubstringFirstChar(needle, hay[1..]);
    }
  }

  /** `a < b` for two Python strings: code-point order, a proper prefix first. */
  predicate StrLess(a: string, b: string)
  {
    if a == [] then b != []
    else if b == [] then false
    else a[0] < b[0] || (a[0] == b[0] && StrLess(a[1..], b[1..]))
  }

  lemma {:induction false} StrLessIrreflexive(a: string)
    ensures !StrLess(a, a)
  {
    if a != [] {
      StrLessIrreflexive(a[1..]);
    }
  }

  lemma {:induction false} StrLessTransitive(a: string, b: string, c: string)
    requires StrLess(a, b) && StrLess(b, c)
    ensures StrLess(a, c)
  {
    if a != [] && a[0] == b[0] && b[0] == c[0] {
      StrLessTransitive(a[1..], b[1..], c[1..]);
    }
  }

  lemma {:induction false} StrLessTotal(a: string, b: string)
    ensures a == b || StrLess(a, b) || StrLess(b, a)
  {
    if a != [] && b != [] && a[0] == b[0] {
      StrLessTotal(a[1..], b[1..]);
      assert a == [a[0]] + a[1..] && b == [b[0]] + b[1..];
    }
  }
}

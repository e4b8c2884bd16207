/** `parsed.sort(key=lambda e: (e[2], e[0], e[1]))` in `find_events`
    (parse.py:123-127): events ordered by start date, then series, then
    name, with events whose keys tie kept in their original order. */
module Sorting {
  import opened PyStrings
  import opened Anchors

  /** An event that has the three fields the sort key reads. */
  predicate Keyed(e: Event)
  {
    |e| >= 3
  }

  predicate AllKeyed(s: seq<Event>)
  {
    forall i :: 0 <= i < |s| ==> Keyed(s[i])
  }

  /** The two keys `(e[2], e[0], e[1])` are equal. */
  predicate SameKey(a: Event, b: Event)
    requires Keyed(a) && Keyed(b)
  {
    a[2] == b[2] && a[0] == b[0] && a[1] == b[1]
  }

  /** `key(a) < key(b)`: Python's tuple comparison, field by field. */
  predicate KeyLess(a: Event, b: Event)
    requires Keyed(a) && Keyed(b)
  {
    || StrLess(a[2], b[2])
    || (a[2] == b[2] && (StrLess(a[0], b[0]) || (a[0] == b[0] && StrLess(a[1], b[1]))))
  }

  lemma KeyLessIrreflexive(a: Event)
    requires Keyed(a)
    ensures !KeyLess(a, a)
  {
    StrLessIrreflexive(a[2]);
    StrLessIrreflexive(a[0]);
    StrLessIrreflexive(a[1]);
  }

  /** Two events with equal keys compare alike against any third. */
  lemma SameKeyLess(a: Event, b: Event, c: Event)
    requires Keyed(a) && Keyed(b) && Keyed(c) && SameKey(a, b)
    ensures KeyLess(a, c) == KeyLess(b, c) && KeyLess(c, a) == KeyLess(c, b)
  {
  }

  lemma KeyLessTransitive(a: Event, b: Event, c: Event)
    requires Keyed(a) && Keyed(b) && Keyed(c) && KeyLess(a, b) && KeyLess(b, c)
    ensures KeyLess(a, c)
  {
    if StrLess(a[2], b[2]) && StrLess(b[2], c[2]) {
      StrLessTransitive(a[2], b[2], c[2]);
    } else if a[2] == b[2] == c[2] {
      if StrLess(a[0], b[0]) && StrLess(b[0], c[0]) {
        StrLessTransitive(a[0], b[0], c[0]);
      } else if a[0] == b[0] == c[0] {
        StrLessTransitive(a[1], b[1], c[1]);
      }
    }
  }

  lemma KeyLessTotal(a: Event, b: Event)
    requires Keyed(a) && Keyed(b)
    ensures SameKey(a, b) || KeyLess(a, b) || KeyLess(b, a)
  {
    StrLessTotal(a[2], b[2]);
    StrLessTotal(a[0], b[0]);
    StrLessTotal(a[1], b[1]);
  }

  /** Every event is placed after every event it does not sort before. */
  predicate Sorted(s: seq<Event>)
    requires AllKeyed(s)
  {
    forall i, j :: 0 <= i < j < |s| ==> !KeyLess(s[j], s[i])
  }

  /** Inserting `x` behind a sorted run: it moves left past every event whose
      key is greater than its own and stops behind the first that is not, so
      it lands after every event whose key ties with its own. */
  function Insert(x: Event, s: seq<Event>): (r: seq<Event>)
    requires Keyed(x) && AllKeyed(s)
    ensures |r| == |s| + 1 && AllKeyed(r)
  {
    if s == [] || !KeyLess(x, s[|s| - 1]) then s + [x]
    else Insert(x, s[..|s| - 1]) + [s[|s| - 1]]
  }

  /** Inserting adds `x` and loses nothing. */
  lemma {:induction false} InsertPermutes(x: Event, s: seq<Event>)
    requires Keyed(x) && AllKeyed(s)
    ensures multiset(Insert(x, s)) == multiset(s) + multiset{x}
  {
    if s != [] && KeyLess(x, s[|s| - 1]) {
      var init := s[..|s| - 1];
      InsertPermutes(x, init);
      assert s == init + [s[|s| - 1]];
    }
  }

  /** The events in the order the sort leaves them: each event in turn is
      inserted into the sorted events before it. */
  function SortedByKey(s: seq<Event>): (r: seq<Event>)
    requires AllKeyed(s)
    ensures |r| == |s| && AllKeyed(r)
  {
    if s == [] then [] else Insert(s[|s| - 1], SortedByKey(s[..|s| - 1]))
  }

  /** The sorted events are a permutation of the events. */
  lemma {:induction false} SortedByKeyPermutes(s: seq<Event>)
    requires AllKeyed(s)
    ensures multiset(SortedByKey(s)) == multiset(s)
  {
    if s != [] {
      var init := s[..|s| - 1];
      SortedByKeyPermutes(init);
      InsertPermutes(s[|s| - 1], SortedByKey(init));
      assert s == init + [s[|s| - 1]];
    }
  }

  /** Inserting into a sorted run keeps it sorted. */
  lemma {:induction false} InsertSorted(x: Event, s: seq<Event>)
    requires Keyed(x) && AllKeyed(s) && Sorted(s)
    ensures Sorted(Insert(x, s))
  {
    if s == [] {
    } else if !KeyLess(x, s[|s| - 1]) {
      var last := s[|s| - 1];
      var r := s + [x];
      forall i | 0 <= i < |s|
        ensures !KeyLess(x, s[i])
      {
        KeyLessTotal(s[i], last);
        if KeyLess(x, s[i]) && KeyLess(s[i], last) {
          KeyLessTransitive(x, s[i], last);
        }
      }
      assert forall i, j :: 0 <= i < j < |r| ==> !KeyLess(r[j], r[i]) by {
        forall i, j | 0 <= i < j < |r|
          ensures !KeyLess(r[j], r[i])
        {
          if j < |s| {
            assert r[j] == s[j] && r[i] == s[i];
          }
        }
      }
    } else {
      var init := s[..|s| - 1];
      var last := s[|s| - 1];
      InsertSorted(x, init);
      var r := Insert(x, s);
      var front := Insert(x, init);
      assert r == front + [last];
      InsertPermutes(x, init);
      forall i | 0 <= i < |front|
        ensures !KeyLess(last, front[i])
      {
        assert front[i] in multiset(init) + multiset{x} by {
          assert front[i] in multiset(front);
        }
        if front[i] == x {
          if KeyLess(last, x) {
            KeyLessTransitive(last, x, last);
            KeyLessIrreflexive(last);
          }
        } else {
          assert front[i] in init;
          var k :| 0 <= k < |init| && init[k] == front[i];
          assert s[k] == front[i];
        }
      }
      forall i, j | 0 <= i < j < |r|
        ensures !KeyLess(r[j], r[i])
      {
        if j < |front| {
          assert r[j] == front[j] && r[i] == front[i];
        }
      }
    }
  }

  lemma {:induction false} SortedByKeySorted(s: seq<Event>)
    requires AllKeyed(s)
    ensures Sorted(SortedByKey(s))
  {
    if s != [] {
      SortedByKeySorted(s[..|s| - 1]);
      InsertSorted(s[|s| - 1], SortedByKey(s[..|s| - 1]));
    }
  }

  /** The events of `s` whose key equals `k`, in their order in `s`. */
  function WithKey(s: seq<Event>, k: Event): (r: seq<Event>)
    requires AllKeyed(s) && Keyed(k)
    ensures |r| <= |s|
  {
    if s == [] then []
    else
      var last := s[|s| - 1];
      WithKey(s[..|s| - 1], k) + (if SameKey(last, k) then [last] else [])
  }

  /** Inserting `x` appends it to its own key's events and leaves the others
      alone: no event overtakes one whose key ties with its own. */
  lemma {:induction false} InsertWithKey(x: Event, s: seq<Event>, k: Event)
    requires Keyed(x) && AllKeyed(s) && Keyed(k)
    ensures WithKey(Insert(x, s), k) == WithKey(s, k) + (if SameKey(x, k) then [x] else [])
  {
    if s == [] || !KeyLess(x, s[|s| - 1]) {
      assert (s + [x])[..|s|] == s;
    } else {
      var init := s[..|s| - 1];
      var last := s[|s| - 1];
      InsertWithKey(x, init, k);
      var r := Insert(x, s);
      assert r[..|r| - 1] == Insert(x, init);
      if SameKey(x, k) && SameKey(last, k) {
        KeyLessIrreflexive(x);
      }
    }
  }

  /** The sort is stable: for every key, the events with that key keep their
      relative order. */
  lemma {:induction false} SortedByKeyStable(s: seq<Event>, k: Event)
    requires AllKeyed(s) && Keyed(k)
    ensures WithKey(SortedByKey(s), k) == WithKey(s, k)
  {
    if s != [] {
      var init := s[..|s| - 1];
      SortedByKeyStable(init, k);
      InsertWithKey(s[|s| - 1], SortedByKey(init), k);
    }
  }

  lemma {:induction false} WithKeyFound(s: seq<Event>, k: Event)
    requires AllKeyed(s) && Keyed(k) && WithKey(s, k) != []
    ensures exists i :: 0 <= i < |s| && SameKey(s[i], k)
  {
    var last := s[|s| - 1];
    if !SameKey(last, k) {
      WithKeyFound(s[..|s| - 1], k);
      var i :| 0 <= i < |s| - 1 && SameKey(s[..|s| - 1][i], k);
      assert s[i] == s[..|s| - 1][i];
    }
  }

  /** The last event of a sorted list has a key no smaller than any other. */
  lemma {:induction false} LastNotSmaller(s: seq<Event>, b: Event)
    requires AllKeyed(s) && Sorted(s) && s != [] && Keyed(b) && WithKey(s, b) != []
    ensures !KeyLess(s[|s| - 1], b)
  {
    WithKeyFound(s, b);
    var i :| 0 <= i < |s| && SameKey(s[i], b);
    SameKeyLess(s[i], b, s[|s| - 1]);
    if i == |s| - 1 {
      KeyLessIrreflexive(b);
    }
  }

  /** Two lists whose last events have equal keys, and which hold the same
      events with that key in the same order, end with the same event. */
  lemma {:induction false} LastsEqual(r1: seq<Event>, r2: seq<Event>)
    requires AllKeyed(r1) && AllKeyed(r2) && r1 != [] && r2 != []
    requires SameKey(r1[|r1| - 1], r2[|r2| - 1])
    requires WithKey(r1, r1[|r1| - 1]) == WithKey(r2, r1[|r1| - 1])
    ensures r1[|r1| - 1] == r2[|r2| - 1]
  {
    var a := r1[|r1| - 1];
    var w := WithKey(r1, a);
    assert w == WithKey(r1[..|r1| - 1], a) + [a];
    assert WithKey(r2, a) == WithKey(r2[..|r2| - 1], a) + [r2[|r2| - 1]];
    assert w[|w| - 1] == a;
  }

  /** The last events of two sorted lists that hold each other's last event
      keys have equal keys. */
  lemma {:induction false} LastsSameKey(r1: seq<Event>, r2: seq<Event>)
    requires AllKeyed(r1) && AllKeyed(r2) && Sorted(r1) && Sorted(r2) && r1 != [] && r2 != []
    requires WithKey(r1, r2[|r2| - 1]) != [] && WithKey(r2, r1[|r1| - 1]) != []
    ensures SameKey(r1[|r1| - 1], r2[|r2| - 1])
  {
    var a := r1[|r1| - 1];
    var b := r2[|r2| - 1];
    LastNotSmaller(r1, b);
    LastNotSmaller(r2, a);
    KeyLessTotal(a, b);
  }

  /** Dropping the same last event from both lists keeps their events with
      key `k` equal. */
  lemma {:induction false} InitsAgree(r1: seq<Event>, r2: seq<Event>, k: Event)
    requires AllKeyed(r1) && AllKeyed(r2) && Keyed(k) && r1 != [] && r2 != []
    requires r1[|r1| - 1] == r2[|r2| - 1] && WithKey(r1, k) == WithKey(r2, k)
    ensures WithKey(r1[..|r1| - 1], k) == WithKey(r2[..|r2| - 1], k)
  {
    var last := r1[|r1| - 1];
    var p1 := WithKey(r1[..|r1| - 1], k);
    var p2 := WithKey(r2[..|r2| - 1], k);
    if SameKey(last, k) {
      var w := WithKey(r1, k);
      assert w == p1 + [last] && w == p2 + [last];
      assert p1 == w[..|w| - 1] == p2;
    } else {
      assert WithKey(r1, k) == p1 && WithKey(r2, k) == p2;
    }
  }

  lemma {:induction false} SortedInit(r: seq<Event>)
    requires AllKeyed(r) && Sorted(r) && r != []
    ensures AllKeyed(r[..|r| - 1]) && Sorted(r[..|r| - 1])
  {
  }

  /** A list that holds an event holds some event with its key. */
  lemma {:induction false} LastHasKey(r: seq<Event>)
    requires AllKeyed(r) && r != []
    ensures WithKey(r, r[|r| - 1]) != []
  {
  }

  /** Two sorted lists with the same events for every key end in the same
      event, and what precedes it again has the same events for every key. */
  lemma {:induction false} DropLasts(r1: seq<Event>, r2: seq<Event>)
    requires AllKeyed(r1) && AllKeyed(r2) && Sorted(r1) && Sorted(r2) && r1 != [] && r2 != []
    requires forall k {:trigger WithKey(r1, k)} {:trigger WithKey(r2, k)} :: Keyed(k) ==> WithKey(r1, k) == WithKey(r2, k)
    ensures r1[|r1| - 1] == r2[|r2| - 1]
    ensures AllKeyed(r1[..|r1| - 1]) && Sorted(r1[..|r1| - 1])
    ensures AllKeyed(r2[..|r2| - 1]) && Sorted(r2[..|r2| - 1])
    ensures forall k {:trigger WithKey(r1[..|r1| - 1], k)} {:trigger WithKey(r2[..|r2| - 1], k)} ::
      Keyed(k) ==> WithKey(r1[..|r1| - 1], k) == WithKey(r2[..|r2| - 1], k)
  {
    LastHasKey(r1);
    LastHasKey(r2);
    LastsSameKey(r1, r2);
    LastsEqual(r1, r2);
    SortedInit(r1);
    SortedInit(r2);
    forall k | Keyed(k)
      ensures WithKey(r1[..|r1| - 1], k) == WithKey(r2[..|r2| - 1], k)
    {
      InitsAgree(r1, r2, k);
    }
  }

  /** A sorted list is determined by its events with each key in order:
      every stable sort of the same events, whichever algorithm it uses,
      gives `SortedByKey`. */
  lemma {:induction false} SortedUnique(r1: seq<Event>, r2: seq<Event>)
    requires AllKeyed(r1) && AllKeyed(r2) && Sorted(r1) && Sorted(r2)
    requires forall k {:trigger WithKey(r1, k)} {:trigger WithKey(r2, k)} :: Keyed(k) ==> WithKey(r1, k) == WithKey(r2, k)
    ensures r1 == r2
    decreases |r1| + |r2|
  {
    if r1 != [] && r2 != [] {
      DropLasts(r1, r2);
      var i1 := r1[..|r1| - 1];
      var i2 := r2[..|r2| - 1];
      SortedUnique(i1, i2);
      assert r1 == i1 + [r1[|r1| - 1]];
      assert r2 == i2 + [r2[|r2| - 1]];
    } else if r1 != [] {
      LastHasKey(r1);
    } else if r2 != [] {
      LastHasKey(r2);
    }
  }

  /** Hence any stable sort by the key agrees with `SortedByKey`. */
  lemma {:induction false} StableSortIsSortedByKey(s: seq<Event>, r: seq<Event>)
    requires AllKeyed(s) && AllKeyed(r) && Sorted(r)
    requires forall k :: Keyed(k) ==> WithKey(r, k) == WithKey(s, k)
    ensures r == SortedByKey(s)
  {
    SortedByKeySorted(s);
    forall k | Keyed(k)
      ensures WithKey(r, k) == WithKey(SortedByKey(s), k)
    {
      SortedByKeyStable(s, k);
    }
    SortedUnique(r, SortedByKey(s));
  }

  /** `x` lands at `j` when every event from `j` on sorts after it and the
      one before `j`, if any, does not. */
  lemma {:induction false} InsertAt(x: Event, s: seq<Event>, j: nat)
    requires Keyed(x) && AllKeyed(s) && j <= |s|
    requires forall k :: j <= k < |s| ==> KeyLess(x, s[k])
    requires j == 0 || !KeyLess(x, s[j - 1])
    ensures Insert(x, s) == s[..j] + [x] + s[j..]
    decreases |s|
  {
    if j == |s| {
      assert s[..j] == s && s[j..] == [];
    } else {
      var init := s[..|s| - 1];
      var last := s[|s| - 1];
      assert KeyLess(x, last);
      assert forall k :: j <= k < |init| ==> init[k] == s[k];
      assert j > 0 ==> init[j - 1] == s[j - 1];
      InsertAt(x, init, j);
      assert init[..j] == s[..j];
      assert init[j..] + [last] == s[j..];
    }
  }

  /** The run with `x` written where the scan stopped is the insertion. */
  lemma InsertPlaced(x: Event, s: seq<Event>, j: nat, b: seq<Event>)
    requires Keyed(x) && AllKeyed(s) && j <= |s| && |b| == |s| + 1
    requires forall k :: j <= k < |s| ==> KeyLess(x, s[k])
    requires j == 0 || !KeyLess(x, s[j - 1])
    requires forall k :: 0 <= k < j ==> b[k] == s[k]
    requires b[j] == x
    requires forall k :: j < k < |b| ==> b[k] == s[k - 1]
    ensures b == Insert(x, s)
  {
    InsertAt(x, s, j);
    assert b == s[..j] + [x] + s[j..];
  }

  lemma {:induction false} SortedByKeySnoc(s: seq<Event>, i: nat)
    requires AllKeyed(s) && i < |s|
    ensures AllKeyed(s[..i]) && AllKeyed(SortedByKey(s[..i]))
    ensures SortedByKey(s[..i + 1]) == Insert(s[i], SortedByKey(s[..i]))
  {
    assert s[..i + 1][..i] == s[..i];
  }

  /** One step of the insertion sort: `a[i]` moves left into the sorted
      run `a[..i]`. */
  method InsertLast(a: array<Event>, i: nat)
    requires i < a.Length && AllKeyed(a[..i + 1])
    modifies a
    ensures a[..i + 1] == Insert(old(a[i]), old(a[..i]))
    ensures forall k :: i < k < a.Length ==> a[k] == old(a[k])
  {
    ghost var sorted := a[..i];
    assert forall k :: 0 <= k < i ==> sorted[k] == a[..i + 1][k];
    var x := a[i];
    assert Keyed(a[..i + 1][i]);
    var j := i;
    assert sorted[..j] == sorted && sorted[j..] == [];
    while j > 0 && KeyLess(x, a[j - 1])
      invariant 0 <= j <= i
      invariant forall k :: 0 <= k < j ==> a[k] == sorted[k]
      invariant forall k :: j < k <= i ==> a[k] == sorted[k - 1]
      invariant forall k :: i < k < a.Length ==> a[k] == old(a[k])
      invariant forall k :: j <= k < i ==> Keyed(sorted[k]) && KeyLess(x, sorted[k])
    {
      a[j] := a[j - 1];
      j := j - 1;
    }
    a[j] := x;
    InsertPlaced(x, sorted, j, a[..i + 1]);
  }

  /** `list.sort` with the event key, in place: straight insertion. */
  method SortByDate(a: array<Event>)
    requires AllKeyed(a[..])
    modifies a
    ensures a[..] == SortedByKey(old(a[..]))
  {
    ghost var original := a[..];
    var i := 0;
    while i < a.Length
      invariant 0 <= i <= a.Length
      invariant a[..i] == SortedByKey(original[..i])
      invariant forall k :: i <= k < a.Length ==> a[k] == original[k]
    {
      SortedByKeySnoc(original, i);
      assert AllKeyed(a[..i + 1]) by {
        assert forall k :: 0 <= k < i ==> a[..i + 1][k] == a[..i][k];
        assert a[..i + 1][i] == original[i];
      }
      InsertLast(a, i);
      i := i + 1;
    }
    assert original[..a.Length] == original;
    assert a[..a.Length] == a[..];
  }
}

/** `add_gaps(events, index)` (parse.py:141-164): runs of consecutive events
    whose dates (field `index`) are at most one day apart are grouped, and a
    `None` marker is put in front of every run that does not open the list
    and behind every run that does not close it. */
module Gaps {
  import opened Wrappers
  import opened Calendar
  import opened Anchors

  /** Field `index` of every event is an ISO date, as `fromisoformat`
      needs; with fewer than two events no date is read. */
  predicate DatesAt(events: seq<Event>, index: nat)
  {
    |events| >= 2 ==> forall k :: 0 <= k < |events| ==> |events[k]| > index && IsIsoDate(events[k][index])
  }

  /** The day number of event `k`'s date. */
  function DayOf(events: seq<Event>, index: nat, k: nat): int
    requires DatesAt(events, index) && |events| >= 2 && k < |events|
  {
    Ordinal(FromIsoFormat(events[k][index]))
  }

  /** How many adjacent pairs a list of `n` events has. */
  function PairCount(n: nat): nat
  {
    if n == 0 then 0 else n - 1
  }

  /** `(second - first).days <= 1` for each adjacent pair: the later
      event is at most one day after the earlier, or before it. */
  function Closeness(events: seq<Event>, index: nat): (c: seq<bool>)
    requires DatesAt(events, index)
    ensures |c| == PairCount(|events|)
    ensures forall j :: 0 <= j < |c| ==> c[j] == (DayOf(events, index, j + 1) - DayOf(events, index, j) <= 1)
  {
    seq(PairCount(|events|), j requires 0 <= j < PairCount(|events|) => DayOf(events, index, j + 1) - DayOf(events, index, j) <= 1)
  }

  /** A marker stands in front of event `i` when the pair ending at `i` is
      not close and `i` either starts a run of close pairs or follows one. */
  predicate Marked(c: seq<bool>, i: nat)
    requires i <= |c|
  {
    0 < i && !c[i - 1] && ((i < |c| && c[i]) || (i >= 2 && c[i - 2]))
  }

  /** What `add_gaps` puts out for event `i`: its marker, if any, and the
      event. */
  function Slot(events: seq<Event>, c: seq<bool>, i: nat): (r: seq<Option<Event>>)
    requires |c| == PairCount(|events|) && i < |events|
    ensures 1 <= |r| <= 2 && r[|r| - 1] == Some(events[i])
    ensures |r| == 2 <==> Marked(c, i)
    ensures |r| == 2 ==> r[0] == None
  {
    (if Marked(c, i) then [None] else []) + [Some(events[i])]
  }

  /** The output for the first `m` events. */
  function Spread(events: seq<Event>, c: seq<bool>, m: nat): seq<Option<Event>>
    requires |c| == PairCount(|events|) && m <= |events|
  {
    if m == 0 then [] else Spread(events, c, m - 1) + Slot(events, c, m - 1)
  }

  /** The whole output of `add_gaps`. */
  function Gapped(events: seq<Event>, index: nat): seq<Option<Event>>
    requires DatesAt(events, index)
  {
    Spread(events, Closeness(events, index), |events|)
  }

  /** The events of a list with markers, in order. */
  function Present(xs: seq<Option<Event>>): seq<Event>
  {
    if xs == [] then []
    else
      var last := xs[|xs| - 1];
      Present(xs[..|xs| - 1]) + (if last.Some? then [last.value] else [])
  }

  lemma {:induction false} PresentAppend(xs: seq<Option<Event>>, ys: seq<Option<Event>>)
    ensures Present(xs + ys) == Present(xs) + Present(ys)
    decreases |ys|
  {
    if ys == [] {
      assert xs + ys == xs;
    } else {
      PresentAppend(xs, ys[..|ys| - 1]);
      assert (xs + ys)[..|xs + ys| - 1] == xs + ys[..|ys| - 1];
    }
  }

  /** Deleting the marker, if any, from one slot leaves its event. */
  lemma SlotPresent(events: seq<Event>, c: seq<bool>, i: nat)
    requires |c| == PairCount(|events|) && i < |events|
    ensures Present(Slot(events, c, i)) == [events[i]]
  {
    var e: Option<Event> := Some(events[i]);
    var none: Option<Event> := None;
    assert Present([e]) == Present([]) + [events[i]] by {
      assert [e][..0] == [];
    }
    if Marked(c, i) {
      var slot := [none, e];
      assert Present([none]) == [] by {
        assert [none][..0] == [];
      }
      assert slot[..1] == [none];
      assert Present(slot) == Present([none]) + [events[i]];
    }
  }

  lemma SpreadSnoc(events: seq<Event>, c: seq<bool>, m: nat)
    requires |c| == PairCount(|events|) && 0 < m <= |events|
    ensures Spread(events, c, m) == Spread(events, c, m - 1) + Slot(events, c, m - 1)
  {
  }

  lemma PrefixSnoc(events: seq<Event>, m: nat)
    requires 0 < m <= |events|
    ensures events[..m] == events[..m - 1] + [events[m - 1]]
  {
  }

  /** The output for one more event: its marker, when it has one, and the
      event. */
  lemma SpreadSlot(events: seq<Event>, c: seq<bool>, i: nat, marked: bool)
    requires |c| == PairCount(|events|) && i < |events| && marked == Marked(c, i)
    ensures Spread(events, c, i + 1) == Spread(events, c, i) + (if marked then [None] else []) + [Some(events[i])]
  {
    SpreadSnoc(events, c, i + 1);
  }

  /** Deleting the markers gives back the events. */
  lemma {:induction false} SpreadPresent(events: seq<Event>, c: seq<bool>, m: nat)
    requires |c| == PairCount(|events|) && m <= |events|
    ensures Present(Spread(events, c, m)) == events[..m]
  {
    if m > 0 {
      SpreadPresent(events, c, m - 1);
      SpreadSnoc(events, c, m);
      PresentAppend(Spread(events, c, m - 1), Slot(events, c, m - 1));
      SlotPresent(events, c, m - 1);
      PrefixSnoc(events, m);
    }
  }

  /** The output starts and ends with an event, never with a marker, and no
      two markers stand side by side. */
  lemma {:induction false} SpreadShape(events: seq<Event>, c: seq<bool>, m: nat)
    requires |c| == PairCount(|events|) && 0 < m <= |events|
    ensures var out := Spread(events, c, m);
      && out[0] == Some(events[0])
      && out[|out| - 1] == Some(events[m - 1])
      && forall k :: 0 <= k < |out| - 1 ==> out[k].Some? || out[k + 1].Some?
  {
    var out := Spread(events, c, m);
    var slot := Slot(events, c, m - 1);
    if m == 1 {
      assert Spread(events, c, 0) == [];
      assert out == slot;
    } else {
      SpreadShape(events, c, m - 1);
      var front := Spread(events, c, m - 1);
      assert out == front + slot;
      forall k | 0 <= k < |out| - 1
        ensures out[k].Some? || out[k + 1].Some?
      {
        if k + 1 < |front| {
          assert out[k] == front[k] && out[k + 1] == front[k + 1];
        } else if k + 1 == |front| {
          assert out[k] == front[|front| - 1];
        } else {
          assert out[k + 1] == slot[k + 1 - |front|];
        }
      }
    }
  }

  /** With no close pair there is no marker: the output is the events. */
  lemma {:induction false} SpreadNoClose(events: seq<Event>, c: seq<bool>, m: nat)
    requires |c| == PairCount(|events|) && m <= |events|
    requires forall j :: 0 <= j < |c| ==> !c[j]
    ensures Spread(events, c, m) == seq(m, k requires 0 <= k < m => Some(events[k]))
  {
    if m > 0 {
      SpreadNoClose(events, c, m - 1);
      assert !Marked(c, m - 1);
    }
  }

  /** One entry `[start, end]` of `pairs`: events `start` to `end` form a
      run in which every adjacent pair is close. */
  datatype Pair = Pair(start: nat, end: nat)

  /** Every run lies among the first `upTo` pairs and spans at least one. */
  ghost predicate Bounded(pairs: seq<Pair>, upTo: nat)
  {
    forall p :: 0 <= p < |pairs| ==> pairs[p].start < pairs[p].end <= upTo
  }

  /** Every pair inside a run is close. */
  ghost predicate AllClose(c: seq<bool>, pairs: seq<Pair>)
  {
    forall p, j :: 0 <= p < |pairs| && pairs[p].start <= j < pairs[p].end ==> 0 <= j < |c| && c[j]
  }

  /** Runs come in order with a far pair between each two. */
  ghost predicate Ordered(pairs: seq<Pair>)
  {
    forall p, q :: 0 <= p < q < |pairs| ==> pairs[p].end < pairs[q].start
  }

  /** No run can be extended to the left. */
  ghost predicate StartsMaximal(c: seq<bool>, pairs: seq<Pair>)
  {
    forall p :: 0 <= p < |pairs| && 0 < pairs[p].start <= |c| ==> !c[pairs[p].start - 1]
  }

  /** No run can be extended to the right among the pairs looked at. */
  ghost predicate EndsMaximal(c: seq<bool>, pairs: seq<Pair>, upTo: nat)
  {
    forall p :: 0 <= p < |pairs| && pairs[p].end < upTo && pairs[p].end < |c| ==> !c[pairs[p].end]
  }

  /** Every close pair looked at lies in a run. */
  ghost predicate Covered(c: seq<bool>, pairs: seq<Pair>, upTo: nat)
  {
    forall j :: 0 <= j < upTo && j < |c| && c[j] ==> exists p :: 0 <= p < |pairs| && pairs[p].start <= j < pairs[p].end
  }

  /** `pairs` after the first `upTo` adjacent pairs were looked at: the
      maximal runs of close pairs among them, in order, the last of which
      may still grow. */
  ghost predicate Runs(c: seq<bool>, pairs: seq<Pair>, upTo: nat)
  {
    && upTo <= |c|
    && Bounded(pairs, upTo) && AllClose(c, pairs) && Ordered(pairs)
    && StartsMaximal(c, pairs) && EndsMaximal(c, pairs, upTo) && Covered(c, pairs, upTo)
  }

  /** `pairs` once the pair at `idx` was looked at. */
  function NextPairs(close: bool, pairs: seq<Pair>, idx: nat): seq<Pair>
  {
    if !close then pairs
    else if pairs != [] && pairs[|pairs| - 1].end == idx then
      pairs[..|pairs| - 1] + [Pair(pairs[|pairs| - 1].start, idx + 1)]
    else pairs + [Pair(idx, idx + 1)]
  }

  /** A far pair leaves the runs as they are. */
  lemma {:induction false} FarPair(c: seq<bool>, pairs: seq<Pair>, idx: nat)
    requires idx < |c| && Runs(c, pairs, idx) && !c[idx]
    ensures Runs(c, NextPairs(c[idx], pairs, idx), idx + 1)
  {
    assert NextPairs(c[idx], pairs, idx) == pairs;
  }

  lemma {:induction false} ExtendCovered(c: seq<bool>, pairs: seq<Pair>, idx: nat)
    requires idx < |c| && Covered(c, pairs, idx) && c[idx]
    requires pairs != [] && pairs[|pairs| - 1].end == idx && pairs[|pairs| - 1].start < idx
    ensures Covered(c, pairs[..|pairs| - 1] + [Pair(pairs[|pairs| - 1].start, idx + 1)], idx + 1)
  {
    var n := |pairs|;
    var grown := pairs[..n - 1] + [Pair(pairs[n - 1].start, idx + 1)];
    forall j | 0 <= j < idx + 1 && j < |c| && c[j]
      ensures exists p :: 0 <= p < |grown| && grown[p].start <= j < grown[p].end
    {
      if j == idx {
        assert grown[n - 1].start <= j < grown[n - 1].end;
      } else {
        var p :| 0 <= p < n && pairs[p].start <= j < pairs[p].end;
        assert grown[p].start <= j < grown[p].end;
      }
    }
  }

  lemma {:induction false} ExtendEnds(c: seq<bool>, pairs: seq<Pair>, idx: nat)
    requires EndsMaximal(c, pairs, idx) && Ordered(pairs) && Bounded(pairs, idx)
    requires pairs != [] && pairs[|pairs| - 1].end == idx
    ensures EndsMaximal(c, pairs[..|pairs| - 1] + [Pair(pairs[|pairs| - 1].start, idx + 1)], idx + 1)
  {
    var n := |pairs|;
    var grown := pairs[..n - 1] + [Pair(pairs[n - 1].start, idx + 1)];
    forall p | 0 <= p < |grown| && grown[p].end < idx + 1 && grown[p].end < |c|
      ensures !c[grown[p].end]
    {
      assert p < n - 1 && grown[p] == pairs[p];
    }
  }

  /** A close pair right after the last run extends that run. */
  lemma {:induction false} ExtendRun(c: seq<bool>, pairs: seq<Pair>, idx: nat)
    requires idx < |c| && Runs(c, pairs, idx) && c[idx]
    requires pairs != [] && pairs[|pairs| - 1].end == idx
    ensures Runs(c, NextPairs(c[idx], pairs, idx), idx + 1)
  {
    ExtendCovered(c, pairs, idx);
    ExtendEnds(c, pairs, idx);
    ExtendRest(c, pairs, idx);
    assert NextPairs(c[idx], pairs, idx) == pairs[..|pairs| - 1] + [Pair(pairs[|pairs| - 1].start, idx + 1)];
  }

  lemma {:induction false} ExtendRest(c: seq<bool>, pairs: seq<Pair>, idx: nat)
    requires idx < |c| && c[idx] && Bounded(pairs, idx) && AllClose(c, pairs)
    requires Ordered(pairs) && StartsMaximal(c, pairs)
    requires pairs != [] && pairs[|pairs| - 1].end == idx
    ensures var grown := pairs[..|pairs| - 1] + [Pair(pairs[|pairs| - 1].start, idx + 1)];
      Bounded(grown, idx + 1) && AllClose(c, grown) && Ordered(grown) && StartsMaximal(c, grown)
  {
    var n := |pairs|;
    var grown := pairs[..n - 1] + [Pair(pairs[n - 1].start, idx + 1)];
    assert forall p :: 0 <= p < n - 1 ==> grown[p] == pairs[p];
  }

  lemma {:induction false} NewCovered(c: seq<bool>, pairs: seq<Pair>, idx: nat)
    requires idx < |c| && Covered(c, pairs, idx)
    ensures Covered(c, pairs + [Pair(idx, idx + 1)], idx + 1)
  {
    var n := |pairs|;
    var grown := pairs + [Pair(idx, idx + 1)];
    forall j | 0 <= j < idx + 1 && j < |c| && c[j]
      ensures exists p :: 0 <= p < |grown| && grown[p].start <= j < grown[p].end
    {
      if j == idx {
        assert grown[n].start <= j < grown[n].end;
      } else {
        var p :| 0 <= p < n && pairs[p].start <= j < pairs[p].end;
        assert grown[p] == pairs[p];
      }
    }
  }

  /** A close pair anywhere else opens a new run. */
  lemma {:induction false} NewRun(c: seq<bool>, pairs: seq<Pair>, idx: nat)
    requires idx < |c| && Runs(c, pairs, idx) && c[idx]
    requires pairs == [] || pairs[|pairs| - 1].end != idx
    ensures Runs(c, NextPairs(c[idx], pairs, idx), idx + 1)
  {
    var grown := pairs + [Pair(idx, idx + 1)];
    EndsBefore(pairs, idx);
    assert idx == 0 || !c[idx - 1];
    NewCovered(c, pairs, idx);
    NewRest(c, pairs, idx);
    assert NextPairs(c[idx], pairs, idx) == grown;
  }

  lemma {:induction false} NewRest(c: seq<bool>, pairs: seq<Pair>, idx: nat)
    requires idx < |c| && c[idx] && (idx == 0 || !c[idx - 1])
    requires Bounded(pairs, idx) && AllClose(c, pairs) && Ordered(pairs)
    requires StartsMaximal(c, pairs) && EndsMaximal(c, pairs, idx)
    requires pairs == [] || pairs[|pairs| - 1].end != idx
    ensures var grown := pairs + [Pair(idx, idx + 1)];
      && Bounded(grown, idx + 1) && AllClose(c, grown) && Ordered(grown)
      && StartsMaximal(c, grown) && EndsMaximal(c, grown, idx + 1)
  {
    EndsBefore(pairs, idx);
    NewOrdered(pairs, idx);
    NewMaximal(c, pairs, idx);
  }

  lemma {:induction false} NewOrdered(pairs: seq<Pair>, idx: nat)
    requires Bounded(pairs, idx) && Ordered(pairs)
    requires forall p :: 0 <= p < |pairs| ==> pairs[p].end < idx
    ensures Bounded(pairs + [Pair(idx, idx + 1)], idx + 1) && Ordered(pairs + [Pair(idx, idx + 1)])
  {
    var grown := pairs + [Pair(idx, idx + 1)];
    assert forall p :: 0 <= p < |pairs| ==> grown[p] == pairs[p];
  }

  lemma {:induction false} NewMaximal(c: seq<bool>, pairs: seq<Pair>, idx: nat)
    requires idx < |c| && c[idx] && (idx == 0 || !c[idx - 1])
    requires AllClose(c, pairs) && StartsMaximal(c, pairs) && EndsMaximal(c, pairs, idx)
    requires forall p :: 0 <= p < |pairs| ==> pairs[p].end < idx
    ensures var grown := pairs + [Pair(idx, idx + 1)];
      AllClose(c, grown) && StartsMaximal(c, grown) && EndsMaximal(c, grown, idx + 1)
  {
    var grown := pairs + [Pair(idx, idx + 1)];
    assert forall p :: 0 <= p < |pairs| ==> grown[p] == pairs[p];
  }

  /** When the last run does not reach the current pair, none does. */
  lemma {:induction false} EndsBefore(pairs: seq<Pair>, idx: nat)
    requires Bounded(pairs, idx) && Ordered(pairs)
    requires pairs == [] || pairs[|pairs| - 1].end != idx
    ensures forall p :: 0 <= p < |pairs| ==> pairs[p].end < idx
  {
    forall p | 0 <= p < |pairs|
      ensures pairs[p].end < idx
    {
      if p < |pairs| - 1 {
        assert pairs[p].end < pairs[|pairs| - 1].start;
      }
    }
  }

  /** The indices `inserted` collects for `pairs`: each run's start unless it
      is the first event, and the event after each run's end unless there is
      none. */
  function Inserted(pairs: seq<Pair>, n: nat): set<nat>
  {
    if pairs == [] then {}
    else
      var last := pairs[|pairs| - 1];
      Inserted(pairs[..|pairs| - 1], n)
        + (if last.start > 0 then {last.start} else {})
        + (if last.end + 1 < n then {last.end + 1} else {})
  }

  lemma {:induction false} InsertedMembers(pairs: seq<Pair>, n: nat, i: nat)
    ensures i in Inserted(pairs, n) <==>
      exists p :: 0 <= p < |pairs| && ((pairs[p].start == i && i > 0) || (pairs[p].end + 1 == i && i < n))
  {
    if pairs != [] {
      var init := pairs[..|pairs| - 1];
      InsertedMembers(init, n, i);
      if exists p :: 0 <= p < |init| && ((init[p].start == i && i > 0) || (init[p].end + 1 == i && i < n)) {
        var p :| 0 <= p < |init| && ((init[p].start == i && i > 0) || (init[p].end + 1 == i && i < n));
        assert pairs[p] == init[p];
      }
      if exists p :: 0 <= p < |pairs| && ((pairs[p].start == i && i > 0) || (pairs[p].end + 1 == i && i < n)) {
        var p :| 0 <= p < |pairs| && ((pairs[p].start == i && i > 0) || (pairs[p].end + 1 == i && i < n));
        if p < |init| {
          assert init[p] == pairs[p];
        }
      }
    }
  }

  /** Once every pair was looked at, `inserted` holds exactly the events
      that get a marker in front. */
  lemma {:induction false} InsertedMarked(c: seq<bool>, pairs: seq<Pair>, n: nat, i: nat)
    requires Runs(c, pairs, |c|) && n == |c| + 1 && i <= |c|
    ensures i in Inserted(pairs, n) <==> Marked(c, i)
  {
    InsertedMembers(pairs, n, i);
    if Marked(c, i) {
      if i < |c| && c[i] {
        var p :| 0 <= p < |pairs| && pairs[p].start <= i < pairs[p].end;
        assert pairs[p].start == i;
      } else {
        var p :| 0 <= p < |pairs| && pairs[p].start <= i - 2 < pairs[p].end;
        assert pairs[p].end + 1 == i;
      }
    }
  }

  /** `inserted` holds exactly the marked events. */
  lemma InsertedAllMarked(c: seq<bool>, pairs: seq<Pair>, n: nat)
    requires Runs(c, pairs, |c|) && n == |c| + 1
    ensures forall i: nat :: i <= |c| ==> (i in Inserted(pairs, n) <==> Marked(c, i))
  {
    forall i: nat | i <= |c|
      ensures i in Inserted(pairs, n) <==> Marked(c, i)
    {
      InsertedMarked(c, pairs, n, i);
    }
  }

  lemma NoRunsYet(c: seq<bool>)
    ensures Runs(c, [], 0)
  {
  }

  /** Looking at one more pair keeps `pairs` the maximal runs so far. */
  lemma {:induction false} StepRuns(c: seq<bool>, pairs: seq<Pair>, idx: nat)
    requires idx < |c| && Runs(c, pairs, idx)
    ensures Runs(c, NextPairs(c[idx], pairs, idx), idx + 1)
  {
    if !c[idx] {
      FarPair(c, pairs, idx);
    } else if pairs != [] && pairs[|pairs| - 1].end == idx {
      ExtendRun(c, pairs, idx);
    } else {
      NewRun(c, pairs, idx);
    }
  }

  /** `(second - first).days <= 1` for the pair at `idx`. */
  method CloseAt(events: seq<Event>, index: nat, idx: nat) returns (close: bool)
    requires DatesAt(events, index) && idx + 1 < |events|
    ensures close == Closeness(events, index)[idx]
  {
    var first := FromIsoFormat(events[idx][index]);
    var second := FromIsoFormat(events[idx + 1][index]);
    close := Ordinal(second) - Ordinal(first) <= 1;
  }

  /** One step of the first loop of `add_gaps`: a close pair extends the
      last run in place when that run ends at `idx`, and opens a new run
      otherwise. */
  method AddPair(pairs: seq<Pair>, idx: nat, close: bool) returns (next: seq<Pair>)
    ensures next == NextPairs(close, pairs, idx)
  {
    next := pairs;
    if close {
      if |next| > 0 && next[|next| - 1].end == idx {
        next := next[|next| - 1 := Pair(next[|next| - 1].start, idx + 1)];
      } else {
        next := next + [Pair(idx, idx + 1)];
      }
    }
  }

  /** The first loop of `add_gaps`: the runs of close pairs. */
  method CollectPairs(events: seq<Event>, index: nat) returns (pairs: seq<Pair>)
    requires DatesAt(events, index)
    ensures Runs(Closeness(events, index), pairs, PairCount(|events|))
  {
    ghost var c := Closeness(events, index);
    pairs := [];
    var idx := 0;
    NoRunsYet(c);
    while idx + 1 < |events|
      invariant idx <= |c| && Runs(c, pairs, idx)
    {
      var close := CloseAt(events, index, idx);
      StepRuns(c, pairs, idx);
      pairs := AddPair(pairs, idx, close);
      idx := idx + 1;
    }
  }

  /** The second loop of `add_gaps`: the set `inserted`. */
  method InsertedIndices(pairs: seq<Pair>, n: nat) returns (inserted: set<nat>)
    ensures inserted == Inserted(pairs, n)
  {
    inserted := {};
    for p := 0 to |pairs|
      invariant inserted == Inserted(pairs[..p], n)
    {
      assert pairs[..p + 1][..p] == pairs[..p];
      var alpha := pairs[p].start;
      if alpha > 0 {
        inserted := inserted + {alpha};
      }
      var omega := pairs[p].end + 1;
      if omega < n {
        inserted := inserted + {omega};
      }
    }
    assert pairs[..|pairs|] == pairs;
  }

  /** The third loop of `add_gaps`: each event, preceded by a marker when it
      is in `inserted`. */
  method EmitSlots(events: seq<Event>, ghost c: seq<bool>, inserted: set<nat>) returns (gapped: seq<Option<Event>>)
    requires |c| == PairCount(|events|)
    requires forall i: nat :: i < |events| ==> (i in inserted <==> Marked(c, i))
    ensures gapped == Spread(events, c, |events|)
  {
    gapped := [];
    for i := 0 to |events|
      invariant gapped == Spread(events, c, i)
    {
      SpreadSlot(events, c, i, i in inserted);
      if i in inserted {
        gapped := gapped + [None];
      }
      gapped := gapped + [Some(events[i])];
    }
  }

  /** `add_gaps(events, index)`: collect the runs of close pairs, the
      events that get a marker in front, and then the output. */
  method AddGaps(events: seq<Event>, index: nat) returns (gapped: seq<Option<Event>>)
    requires DatesAt(events, index)
    ensures gapped == Gapped(events, index)
  {
    ghost var c := Closeness(events, index);
    var pairs := CollectPairs(events, index);
    var inserted := InsertedIndices(pairs, |events|);
    if events != [] {
      InsertedAllMarked(c, pairs, |events|);
    }
    gapped := EmitSlots(events, c, inserted);
  }

  /** Deleting the markers from the output of `add_gaps` gives back its
      input. */
  lemma GappedPresent(events: seq<Event>, index: nat)
    requires DatesAt(events, index)
    ensures Present(Gapped(events, index)) == events
  {
    SpreadPresent(events, Closeness(events, index), |events|);
    assert events[..|events|] == events;
  }

  /** The output never starts or ends with a marker and never holds two
      markers side by side. */
  lemma GappedShape(events: seq<Event>, index: nat)
    requires DatesAt(events, index) && events != []
    ensures var out := Gapped(events, index);
      && out[0] == Some(events[0])
      && out[|out| - 1] == Some(events[|events| - 1])
      && forall k :: 0 <= k < |out| - 1 ==> out[k].Some? || out[k + 1].Some?
  {
    SpreadShape(events, Closeness(events, index), |events|);
  }

  /** When no two consecutive events are within a day of each other (a later
      event dated before its predecessor counts as within), nothing is
      inserted. */
  lemma GappedNoClose(events: seq<Event>, index: nat)
    requires DatesAt(events, index)
    requires |events| >= 2 ==> forall j :: 0 <= j < |events| - 1 ==>
      DayOf(events, index, j + 1) - DayOf(events, index, j) > 1
    ensures Gapped(events, index) == seq(|events|, k requires 0 <= k < |events| => Some(events[k]))
  {
    SpreadNoClose(events, Closeness(events, index), |events|);
  }
}

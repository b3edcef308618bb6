/**
 The steps of insertion and range deletion, on any map at all, branch by branch; and
 what they come to on a disjoint one: the closed forms of IntervalSpec.dfy.
 */
module IntervalSteps {
  import opened Machine
  import opened IntervalSpec

  // -------------------------------------------------------------------- steps

  ghost function Emplaced<V>(m: Intervals<V>, start: u64, iv: Interval<V>): (Intervals<V>, Result) {
    if start in m then (m, Thrown) else (m[start := iv], Success)
  }

  /** Extract, change the key, insert again: the entry is lost if the new key is taken. */
  ghost function Rekeyed<V>(m: Intervals<V>, it: u64, newStart: u64): Intervals<V>
    requires it in m
  {
    var rest := m - {it};
    if newStart in rest then rest else rest[newStart := m[it]]
  }

  /** The interval at or before `start` ends just before it, with the same value. */
  ghost predicate JoinsLeft<V>(m: Intervals<V>, start: u64, v: V) {
    var it := FloorKey(m, start);
    it.Some? && m[it.value].end == Dec(start) && v == m[it.value].value
  }

  /** The map once the interval on the left is extended, if it is to be. */
  ghost function LeftJoined<V>(m: Intervals<V>, start: u64, end: u64, v: V): Intervals<V> {
    if JoinsLeft(m, start, v) then m[FloorKey(m, start).value := Interval(end, v)] else m
  }

  /** The start that comes next in the map. */
  ghost function Following<V>(m: Intervals<V>, start: u64): Option<u64> {
    var it := FloorKey(m, start);
    if it.Some? then NextKey(m, it.value) else FirstKey(m)
  }

  /** `insert_impl`. */
  ghost function InsertSteps<V>(m: Intervals<V>, start: u64, end: u64, v: V): (Intervals<V>, Result) {
    var it, merged := FloorKey(m, start), JoinsLeft(m, start, v);
    var n, itNext := LeftJoined(m, start, end, v), Following(m, start);
    if itNext.Some? && itNext.value == Inc(end) && v == n[itNext.value].value then
      if merged then (n[it.value := Interval(n[itNext.value].end, v)] - {itNext.value}, Success)
      else (Rekeyed(n, itNext.value, start), Success)
    else if merged then (n, Success)
    else Emplaced(n, start, Interval(end, v))
  }

  /** What one step of `del_impl` leaves of the interval at `it`. */
  ghost function DelStep<V>(m: Intervals<V>, it: u64, start: u64, end: u64): (Intervals<V>, Result)
    requires it in m
  {
    var iv := m[it];
    if it < start <= iv.end then
      var n := m[it := Interval(Dec(start), iv.value)];
      if end < iv.end then Emplaced(n, Inc(end), Interval(iv.end, iv.value)) else (n, Success)
    else if start <= it <= end then
      (if end < iv.end then Rekeyed(m, it, Inc(end)) else m - {it}, Success)
    else (m, Success)
  }

  /** `del_impl`. */
  ghost function DelSteps<V>(m: Intervals<V>, start: u64, end: u64, iteration: nat): (Intervals<V>, Result)
    decreases end - start
  {
    var found := if FloorKey(m, start).Some? then FloorKey(m, start) else FirstKey(m);
    if FloorKey(m, start).None? && (iteration != 0 || found.None?) then
      (m, if m != map[] then Failure else Success)
    else
      var it := found.value;
      if it > m[it].end then (m, Thrown)
      else
        var itNext := NextKey(m, it);
        var (n, r) := DelStep(m, it, start, end);
        if r == Thrown then (n, Thrown)
        else if end > m[it].end && itNext.Some? && itNext.value <= end then
          DelSteps(n, itNext.value, end, iteration + 1)
        else (n, Success)
  }

  /** `set`. */
  ghost function SetSteps<V>(m: Intervals<V>, start: u64, end: u64, v: V): (Intervals<V>, Result) {
    var (n, r) := DelSteps(m, start, end, 0);
    if r == Thrown then (n, Thrown) else InsertSteps(n, start, end, v)
  }

  /** `has(start, end)`: one candidate interval is looked at. */
  ghost predicate HasTest<V>(m: Intervals<V>, start: u64, end: u64) {
    var it := if FloorKey(m, end).Some? then FloorKey(m, end) else FirstKey(m);
    it.Some? &&
    var ivStart, ivEnd := it.value, m[it.value].end;
    start <= ivEnd <= end || start <= ivStart <= end || ivStart <= start <= ivEnd
  }

  /** `insert`. */
  ghost function PutSteps<V>(m: Intervals<V>, start: u64, end: u64, v: V): (Intervals<V>, Result) {
    if HasTest(m, start, end) then SetSteps(m, start, end, v) else InsertSteps(m, start, end, v)
  }

  /** `split`, with the value the right half gets. */
  ghost function SplitSteps<V>(m: Intervals<V>, it: u64, mid: u64, right: V): (Intervals<V>, Result)
    requires it in m
  {
    if !(it <= mid < m[it].end) then (m, Thrown)
    else Emplaced(m[it := Interval(mid, m[it].value)], Inc(mid), Interval(m[it].end, right))
  }

  lemma SplitIsSplitAfter<V>(m: Intervals<V>, it: u64, mid: u64, right: V)
    requires Disjoint(m) && it in m && it <= mid < m[it].end
    ensures SplitSteps(m, it, mid, right) == (SplitAfter(m, it, mid, right), Success)
  {
    SplitterUnique(m, it, mid);
  }

  lemma SplitAfterDisjoint<V>(m: Intervals<V>, it: u64, mid: u64, right: V)
    requires Disjoint(m) && it in m && it <= mid < m[it].end
    ensures Disjoint(SplitAfter(m, it, mid, right))
  {
    SplitterUnique(m, it, mid);
  }

  // ----------------------------------------------------------------- deletion

  /** What one step of `DelImpl` leaves, given that no interval but `it` meets [start, x]. */
  ghost predicate StepOf<V>(m0: Intervals<V>, m: Intervals<V>, it: u64, start: u64, end: u64)
    requires it in m0
  {
    var iv := m0[it];
    if it < start <= iv.end then
      if end < iv.end then
        m == m0[it := Interval(Dec(start), iv.value)][Inc(end) := Interval(iv.end, iv.value)]
      else
        m == m0[it := Interval(Dec(start), iv.value)]
    else if start <= it <= end then
      if end < iv.end then m == (m0 - {it})[Inc(end) := iv] else m == m0 - {it}
    else
      m == m0
  }

  lemma CutOneKeys<V>(m0: Intervals<V>, m: Intervals<V>, it: u64, start: u64, end: u64, x: u64)
    requires Disjoint(m0) && start <= x <= end && it in m0
    requires StepOf(m0, m, it, start, end)
    requires OnlyMeets(m0, it, start, x)
    requires m0[it].end <= x || x == end
    ensures m.Keys == CutKeys(m0, start, x)
    ensures SplitAt(m0, x) ==> Splitter(m0, x) == it && Inc(x) !in m0
  {
    if SplitAt(m0, x) { SplitterUnique(m0, Splitter(m0, x), x); }
    if Straddles(m0, it, x) { SplitterUnique(m0, it, x); }
  }

  lemma CutOne<V>(m0: Intervals<V>, m: Intervals<V>, it: u64, start: u64, end: u64, x: u64)
    requires Disjoint(m0) && start <= x <= end && it in m0
    requires StepOf(m0, m, it, start, end)
    requires OnlyMeets(m0, it, start, x)
    requires m0[it].end <= x || x == end
    ensures m == Cut(m0, start, x)
  {
    CutOneKeys(m0, m, it, start, end, x);
    forall k | k in m ensures m[k] == CutEntry(m0, start, x, k) {
    }
  }

  /** Of the intervals of `m0`, only `it` can meet [start, x]. */
  ghost predicate OnlyMeets<V>(m0: Intervals<V>, it: u64, start: u64, x: u64) {
    forall j: u64 :: j in m0 && j != it ==> m0[j].end < start || x < j
  }

  /** The step ends the deletion, or the rest of the range remains to be deleted. */
  ghost predicate MoreToDelete<V>(m0: Intervals<V>, it: u64, itNext: Option<u64>, end: u64)
    requires it in m0
  {
    end > m0[it].end && itNext.Some? && itNext.value <= end
  }

  lemma NeighboursApart<V>(m0: Intervals<V>, it: u64, itNext: Option<u64>, start: u64, end: u64)
    requires Disjoint(m0) && start <= end && it in m0
    requires forall j: u64 :: j in m0 && j < it ==> m0[j].end < start
    requires itNext == NextKey(m0, it)
    ensures !MoreToDelete(m0, it, itNext, end) ==> OnlyMeets(m0, it, start, end)
    ensures MoreToDelete(m0, it, itNext, end) ==>
              OnlyMeets(m0, it, start, Dec(itNext.value)) && m0[it].end < itNext.value
  {
  }

  lemma RestOfRange<V>(m0: Intervals<V>, m: Intervals<V>, start: u64, next: u64, end: u64)
    requires Disjoint(m0) && start < next <= end && next in m0
    requires m == Cut(m0, start, Dec(next))
    ensures Disjoint(m) && next in m && Cut(m, next, end) == Cut(m0, start, end)
  {
    hide Cut;
    CutDisjoint(m0, start, Dec(next));
    CutCut(m0, start, Dec(next), end);
    NextSurvives(m0, start, next);
  }

  lemma NextSurvives<V>(m: Intervals<V>, start: u64, next: u64)
    requires Disjoint(m) && start < next && next in m
    ensures next in Cut(m, start, Dec(next))
  {
  }

  /** One step deletes up to the next interval; deleting from there on completes the range. */
  lemma StepThenRest<V>(m0: Intervals<V>, m: Intervals<V>, it: u64, itNext: Option<u64>, start: u64, end: u64)
    requires Disjoint(m0) && start <= end && it in m0
    requires StepOf(m0, m, it, start, end)
    requires forall j: u64 :: j in m0 && j < it ==> m0[j].end < start
    requires itNext == NextKey(m0, it) && (itNext.Some? ==> start < itNext.value)
    ensures MoreToDelete(m0, it, itNext, end) ==>
              Disjoint(m) && itNext.value in m && Cut(m, itNext.value, end) == Cut(m0, start, end)
    ensures !MoreToDelete(m0, it, itNext, end) ==> m == Cut(m0, start, end)
  {
    NeighboursApart(m0, it, itNext, start, end);
    if MoreToDelete(m0, it, itNext, end) {
      CutOne(m0, m, it, start, end, Dec(itNext.value));
      RestOfRange(m0, m, start, itNext.value, end);
    } else {
      CutOne(m0, m, it, start, end, end);
    }
  }

  /** The one candidate on the left decides where the joined interval starts. */
  lemma LeftNeighbour<V>(m0: Intervals<V>, start: u64, end: u64, v: V, it: Option<u64>, merged: bool)
    requires Disjoint(m0) && start <= end && FreeRange(m0, start, end)
    requires it == FloorKey(m0, start)
    requires merged <==> it.Some? && m0[it.value].end == Dec(start) && v == m0[it.value].value
    ensures JoinedStart(m0, start, v) == if merged then it.value else start
  {
    if merged {
      assert EndsBefore(m0, it.value, start, v);
      EndsBeforeUnique(m0, it.value, JoinedStart(m0, start, v), start, v);
    }
  }

  /** The one candidate on the right is the interval that could start just after `end`. */
  lemma RightNeighbour<V>(m0: Intervals<V>, start: u64, end: u64, v: V, next: Option<u64>)
    requires Disjoint(m0) && start <= end && FreeRange(m0, start, end)
    requires next.None? ==> forall j: u64 :: j in m0 ==> j <= start
    requires next.Some? ==> next.value in m0 && start < next.value
    requires next.Some? ==> forall j: u64 :: j in m0 && start < j ==> next.value <= j
    ensures StartsAfter(m0, end, v) <==> next.Some? && next.value == Inc(end) && v == m0[next.value].value
  {
  }

  lemma NextIsFree<V>(m: Intervals<V>, start: u64, end: u64, next: Option<u64>)
    requires Disjoint(m) && start <= end && FreeRange(m, start, end) && next == Following(m, start)
    ensures start !in m && (next.Some? ==> next.value in m && start < next.value)
  {
  }

  lemma InsertIsCoalesce<V>(m: Intervals<V>, start: u64, end: u64, v: V)
    requires Disjoint(m) && start <= end && FreeRange(m, start, end)
    ensures InsertSteps(m, start, end, v) == (Coalesce(m, start, end, v), Success)
  {
    var it := FloorKey(m, start);
    var merged := it.Some? && m[it.value].end == Dec(start) && v == m[it.value].value;
    var itNext := if it.Some? then NextKey(m, it.value) else FirstKey(m);
    LeftNeighbour(m, start, end, v, it, merged);
    RightNeighbour(m, start, end, v, itNext);
    NextIsFree(m, start, end, itNext);
    hide JoinedStart, FloorKey, NextKey, FirstKey, Disjoint, FreeRange;
    if StartsAfter(m, end, v) {
      var next, last := Inc(end), m[Inc(end)].end;
      if merged {
        var n := m[it.value := Interval(end, v)];
        assert n[it.value := Interval(last, v)] - {next} == (m - {next})[it.value := Interval(last, v)];
      } else {
        assert Rekeyed(m, next, start) == (m - {next})[start := Interval(last, v)];
      }
    }
  }

  /** On a disjoint map the step never throws. */
  lemma DelStepIs<V>(m: Intervals<V>, it: u64, start: u64, end: u64)
    requires Disjoint(m) && start <= end && it in m
    ensures DelStep(m, it, start, end).1 == Success && StepOf(m, DelStep(m, it, start, end).0, it, start, end)
  {
    if Straddles(m, it, end) { SplitterUnique(m, it, end); }
  }

  /** Deletion step by step, from any point of the recursion, empties exactly the rest of the range. */
  lemma {:induction false} DelIsCut<V>(m: Intervals<V>, start: u64, end: u64, iteration: nat)
    requires Disjoint(m) && start <= end && (iteration != 0 ==> start in m)
    ensures DelSteps(m, start, end, iteration) == (Cut(m, start, end), Success)
    decreases end - start
  {
    hide Cut, DelStep, StepOf, Disjoint;
    var found := if FloorKey(m, start).Some? then FloorKey(m, start) else FirstKey(m);
    if found.None? {
      NothingToCut(m, start, end);
    } else {
      var it := found.value;
      var itNext := NextKey(m, it);
      var n := DelStep(m, it, start, end).0;
      IntervalsOrdered(m, it, start);
      DelStepIs(m, it, start, end);
      StepThenRest(m, n, it, itNext, start, end);
      if MoreToDelete(m, it, itNext, end) { DelIsCut(n, itNext.value, end, iteration + 1); }
    }
  }

  lemma NothingToCut<V>(m: Intervals<V>, start: u64, end: u64)
    requires m == map[] && start <= end
    ensures Cut(m, start, end) == m
  {
  }

  lemma IntervalsOrdered<V>(m: Intervals<V>, it: u64, start: u64)
    requires Disjoint(m) && it in m
    requires Some(it) == if FloorKey(m, start).Some? then FloorKey(m, start) else FirstKey(m)
    ensures it <= m[it].end && forall j: u64 :: j in m && j < it ==> m[j].end < start
    ensures NextKey(m, it).Some? ==> start < NextKey(m, it).value
  {
  }

  /** The one candidate decides whether the range meets any interval. */
  lemma HasTestIsMeets<V>(m: Intervals<V>, start: u64, end: u64)
    requires Disjoint(m) && start <= end
    ensures HasTest(m, start, end) <==> Meets(m, start, end)
    ensures HasTest(m, start, end) <==> !FreeRange(m, start, end)
  {
    MeetsIffNotFree(m, start, end);
  }

  /** Deleting only when the range is not free comes to the same. */
  lemma PutIsAssign<V>(m: Intervals<V>, start: u64, end: u64, v: V)
    requires Disjoint(m) && start <= end
    ensures PutSteps(m, start, end, v) == (Assign(m, start, end, v), Success)
  {
    hide Cut, Coalesce, DelSteps, InsertSteps, HasTest;
    HasTestIsMeets(m, start, end);
    SetIsAssign(m, start, end, v);
    if FreeRange(m, start, end) {
      CutFree(m, start, end);
      InsertIsCoalesce(m, start, end, v);
    }
  }

  lemma SetIsAssign<V>(m: Intervals<V>, start: u64, end: u64, v: V)
    requires Disjoint(m) && start <= end
    ensures SetSteps(m, start, end, v) == (Assign(m, start, end, v), Success)
  {
    hide Cut, Coalesce, DelSteps, InsertSteps;
    DelIsCut(m, start, end, 0);
    CutDisjoint(m, start, end);
    InsertIsCoalesce(Cut(m, start, end), start, end, v);
  }
}

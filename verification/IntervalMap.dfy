/** The interval map of include/storage/IntervalMap.hpp, edited in place. */
module IntervalMaps {
  import opened Machine
  import opened IntervalSpec
  import opened IntervalSteps

  class IntervalMap<V(==)> {
    /** start -> (end, value) */
    var m: Intervals<V>

    constructor ()
      ensures m == map[]
    {
      m := map[];
    }

    /** `m.emplace`; a key that is present makes the source throw. */
    method Emplace(start: u64, end: u64, val: V) returns (r: Result)
      modifies this
      ensures start !in old(m) ==> r == Success && m == old(m)[start := Interval(end, val)]
      ensures start in old(m) ==> r == Thrown && m == old(m)
    {
      if start in m {
        return Thrown;
      }
      m := m[start := Interval(end, val)];
      r := Success;
    }

    /** Re-keys the entry at `it`: extract the node, change its key, insert it again. */
    method UpdateStart(it: u64, newStart: u64) returns (inserted: bool)
      requires it in m
      modifies this
      ensures inserted <==> newStart !in old(m) - {it}
      ensures inserted ==> m == (old(m) - {it})[newStart := old(m)[it]]
      ensures !inserted ==> m == old(m) - {it}
    {
      var node := m[it];
      m := m - {it};
      inserted := newStart !in m;
      if inserted {
        m := m[newStart := node];
      }
    }

    /** Gives a free range [start, end] the value `v`, joining equal neighbours. */
    method InsertImpl(start: u64, end: u64, v: V) returns (r: Result)
      modifies this
      ensures (m, r) == InsertSteps(old(m), start, end, v)
      ensures start <= end && old(Disjoint(m) && FreeRange(m, start, end)) ==>
                r == Success && m == Coalesce(old(m), start, end, v)
    {
      if start <= end && Disjoint(m) && FreeRange(m, start, end) { InsertIsCoalesce(m, start, end, v); }
      hide Disjoint, FreeRange, Coalesce, FloorKey, NextKey, FirstKey;
      var it := FloorKey(m, start);
      var merged := false;
      var itNext: Option<u64>;
      if it.Some? {
        var prev := it.value;
        // The decrement wraps at 0; the free range keeps that from matching an end.
        if m[prev].end == Dec(start) && v == m[prev].value {
          m := m[prev := Interval(end, m[prev].value)];
          merged := true;
          SameNext(old(m), m, prev);
        }
        itNext := NextKey(m, prev);
      } else {
        itNext := FirstKey(m);
      }
      assert m == LeftJoined(old(m), start, end, v);
      assert merged == JoinsLeft(old(m), start, v) && itNext == Following(old(m), start);
      LeftJoinedKeys(old(m), start, end, v);
      hide LeftJoined, JoinsLeft, Following;
      if itNext.Some? {
        var next := itNext.value;
        var ivEnd := m[next].end;
        if next == Inc(end) && v == m[next].value {
          if merged {
            m := m[it.value := Interval(ivEnd, m[it.value].value)];
            m := m - {next};
          } else {
            var moved := UpdateStart(next, start);
            merged := true;
          }
        }
      }
      r := Success;
      if !merged {
        r := Emplace(start, end, v);
      }
      assert (m, r) == InsertSteps(old(m), start, end, v);
      hide InsertSteps;
    }

    /** Empties [start, end], interval by interval. */
    method DelImpl(start: u64, end: u64, iteration: nat) returns (r: Result)
      modifies this
      ensures (m, r) == DelSteps(old(m), start, end, iteration)
      ensures start <= end && old(Disjoint(m) && (iteration != 0 ==> start in m)) ==>
                r == Success && m == Cut(old(m), start, end)
      decreases end - start
    {
      if start <= end && Disjoint(m) && (iteration != 0 ==> start in m) { DelIsCut(m, start, end, iteration); }
      hide Disjoint, Cut, FloorKey, NextKey, FirstKey;
      ghost var m0 := m;
      var found := FloorKey(m, start);
      if found.None? {
        found := FirstKey(m);
        if iteration != 0 || found.None? {
          return if m != map[] then Failure else Success;
        }
      }
      var it := found.value;
      var iv := m[it];
      if it > iv.end {
        return Thrown;
      }
      var itNext := NextKey(m, it);
      if it < start <= iv.end {
        m := m[it := Interval(Dec(start), iv.value)];
        if end < iv.end {
          r := Emplace(Inc(end), iv.end, iv.value);
          if r == Thrown {
            return;
          }
        }
      } else if start <= it <= end {
        if end < iv.end {
          var moved := UpdateStart(it, Inc(end));
        } else {
          m := m - {it};
        }
      } else {
        assert end < it || start > iv.end;
      }
      assert DelStep(m0, it, start, end) == (m, Success);
      hide DelStep;
      if end > iv.end && itNext.Some? {
        var next := itNext.value;
        assert it < next;
        if next <= end {
          r := DelImpl(next, end, iteration + 1);
          return;
        }
      }
      r := Success;
    }

    method Del(start: u64, end: u64) returns (r: Result)
      modifies this
      ensures (m, r) == DelSteps(old(m), start, end, 0)
      ensures start <= end && old(Disjoint(m)) ==> r == Success && m == Cut(old(m), start, end)
    {
      r := DelImpl(start, end, 0);
    }

    method Set(start: u64, end: u64, v: V) returns (r: Result)
      modifies this
      ensures (m, r) == SetSteps(old(m), start, end, v)
      ensures start <= end && old(Disjoint(m)) ==> r == Success && m == Assign(old(m), start, end, v) && Disjoint(m)
    {
      if start <= end && Disjoint(m) {
        SetIsAssign(m, start, end, v);
        AssignDisjoint(m, start, end, v);
      }
      hide Disjoint, DelSteps, InsertSteps, Assign;
      var deleted := Del(start, end);
      if deleted == Thrown {
        return Thrown;
      }
      r := InsertImpl(start, end, v);
    }

    /** Deletes first only when the range is not free; the outcome is that of `Set`. */
    method Insert(start: u64, end: u64, v: V) returns (r: Result)
      modifies this
      ensures (m, r) == PutSteps(old(m), start, end, v)
      ensures start <= end && old(Disjoint(m)) ==> r == Success && m == Assign(old(m), start, end, v) && Disjoint(m)
    {
      if start <= end && Disjoint(m) {
        PutIsAssign(m, start, end, v);
        AssignDisjoint(m, start, end, v);
      }
      hide Disjoint, DelSteps, InsertSteps, Assign, HasTest;
      var occupied := HasRange(start, end);
      if occupied {
        var deleted := Del(start, end);
        if deleted == Thrown {
          return Thrown;
        }
      }
      r := InsertImpl(start, end, v);
    }

    method Has(k: u64) returns (b: bool)
      ensures Disjoint(m) ==> (b <==> At(m, k).Some?)
    {
      if Disjoint(m) { FindMeaning(m, k); }
      b := Find(m, k).Some?;
    }

    /** Looks at one candidate interval only. */
    method HasRange(start: u64, end: u64) returns (b: bool)
      ensures b <==> HasTest(m, start, end)
      ensures start <= end && Disjoint(m) ==> (b <==> Meets(m, start, end))
    {
      if start <= end && Disjoint(m) { HasTestIsMeets(m, start, end); }
      var it := FloorKey(m, end);
      if it.None? {
        it := FirstKey(m);
        if it.None? {
          return false;
        }
      }
      var ivStart, ivEnd := it.value, m[it.value].end;
      b := (start <= ivEnd && ivEnd <= end) || (start <= ivStart && ivStart <= end)
        || (ivStart <= start && start <= ivEnd);
    }

    /** The calls made to `f`, in order. */
    method ForEachInterval(start: u64, end: u64) returns (calls: seq<Visit<V>>)
      ensures calls == Calls(m, start, end)
    {
      ghost var ks := Visited(m, start, end);
      calls := [];
      var it := Find(m, start);
      while it.Some?
        invariant it.Some? ==> it.value in m
        invariant VisitsOf(m, ks, start, end) ==
          calls + VisitsOf(m, if it.Some? then StartsFrom(m, it.value, end) else [], start, end)
        decreases it.Some?, if it.Some? then U64_MAX - it.value else 0
      {
        var k := it.value;
        if end < k {
          break;
        }
        calls := calls + [Visit(Max(k, start), Min(m[k].end, end), m[k].value)];
        it := NextKey(m, k);
        ghost var rest := if it.Some? then StartsFrom(m, it.value, end) else [];
        assert ([k] + rest)[1..] == rest;
      }
    }

    /** `iv_result.value() = v`. */
    method SetValue(it: u64, v: V)
      requires it in m
      modifies this
      ensures m == Replaced(old(m), it, v) && it in m && m[it] == Interval(old(m)[it].end, v)
      ensures old(Disjoint(m)) ==> Disjoint(m)
    {
      m := m[it := Interval(m[it].end, v)];
    }

    /** Cuts the interval at `it` after `midLeft`; `f` gives the value of the right half. */
    method Split(it: u64, midLeft: u64, f: V -> V) returns (r: Result)
      requires it in m
      modifies this
      ensures (m, r) == SplitSteps(old(m), it, midLeft, f(old(m)[it].value))
      ensures !(it <= midLeft < old(m)[it].end) ==> r == Thrown && m == old(m)
      ensures old(Disjoint(m)) && it <= midLeft < old(m)[it].end ==>
                r == Success && Disjoint(m) && m == SplitAfter(old(m), it, midLeft, f(old(m)[it].value))
    {
      var iv := m[it];
      if midLeft >= iv.end || it > midLeft {
        return Thrown;
      }
      if Disjoint(m) {
        SplitIsSplitAfter(m, it, midLeft, f(iv.value));
        SplitAfterDisjoint(m, it, midLeft, f(iv.value));
      }
      hide Disjoint, SplitAfter;
      m := m[it := Interval(midLeft, iv.value)];
      r := Emplace(Inc(midLeft), iv.end, f(iv.value));
    }
  }

  lemma LeftJoinedKeys<V>(m: Intervals<V>, start: u64, end: u64, v: V)
    ensures LeftJoined(m, start, end, v).Keys == m.Keys
    ensures JoinsLeft(m, start, v) ==>
              FloorKey(m, start).Some? && LeftJoined(m, start, end, v)[FloorKey(m, start).value].value == v
    ensures Following(m, start).Some? ==> Following(m, start).value in m && start < Following(m, start).value
  {
  }

  /** Changing an entry does not move its neighbours. */
  lemma SameNext<V>(m: Intervals<V>, n: Intervals<V>, k: u64)
    requires m.Keys == n.Keys
    ensures NextKey(m, k) == NextKey(n, k)
  {
  }
}

/**
 Giving mapped ranges back: `VirtAddressMapping::del` frees what it visits and
 unmaps the range. It keeps the file tiled exactly when it cuts no mapped
 interval in part.
 */
module Erasure {
  import opened Machine
  import opened IntervalSpec
  import opened IntervalSteps
  import opened FreeList
  import opened Tiling
  import opened MappingSpec

  /** Whether a visit frees space. */
  predicate Frees(c: Visit<u64>) {
    c.value != UNMAPPED && SizeOf(c.lo, c.hi) != 0
  }

  /** The block a visit frees: the size of the cut at the offset of the whole interval. */
  function FreedBlock(c: Visit<u64>): Node<u64> {
    Node(SizeOf(c.lo, c.hi), c.value)
  }

  function FreeStep(free: seq<Node<u64>>, c: Visit<u64>): seq<Node<u64>> {
    if Frees(c) then Inserted(free, FreedBlock(c)) else free
  }

  /** The free list after all visits. */
  function AddFreed(free: seq<Node<u64>>, calls: seq<Visit<u64>>): seq<Node<u64>>
    decreases |calls|
  {
    if calls == [] then free else AddFreed(FreeStep(free, calls[0]), calls[1..])
  }

  lemma {:induction false} AddFreedSnoc(free: seq<Node<u64>>, calls: seq<Visit<u64>>, c: Visit<u64>)
    ensures AddFreed(free, calls + [c]) == FreeStep(AddFreed(free, calls), c)
    decreases |calls|
  {
    hide FreeStep;
    if calls == [] {
      assert calls + [c] == [c] && [c][1..] == [];
    } else {
      AddFreedSnoc(FreeStep(free, calls[0]), calls[1..], c);
      assert (calls + [c])[1..] == calls[1..] + [c];
    }
  }

  ghost predicate AnyFrees(calls: seq<Visit<u64>>) {
    exists i :: 0 <= i < |calls| && Frees(calls[i])
  }

  ghost function CallsOf(v: Vam, addr: u64, e: u64): seq<Visit<u64>> {
    Calls(v.ivs, addr, e)
  }

  /** `del`. */
  ghost function DelOf(v: Vam, addr: u64, size: u64): (Vam, Result)
    requires size != 0
  {
    var e := EndOffset(addr, size);
    var calls := CallsOf(v, addr, e);
    if AnyFrees(calls) then
      (v.(ivs := Assign(v.ivs, addr, e, UNMAPPED), free := AddFreed(v.free, calls)), Success)
    else
      (v, Failure)
  }

  /** `del` on any intervals, overlapping ones included. */
  ghost function DelAnyOf(v: Vam, addr: u64, size: u64): (Vam, Result)
    requires size != 0
  {
    var e := EndOffset(addr, size);
    var calls := CallsOf(v, addr, e);
    if AnyFrees(calls) then
      var (n, r) := SetSteps(v.ivs, addr, e, UNMAPPED);
      (v.(ivs := n, free := AddFreed(v.free, calls)), r)
    else
      (v, Failure)
  }

  lemma DelAnyIsDel(v: Vam, addr: u64, size: u64)
    requires Disjoint(v.ivs) && IsRange(addr, size)
    ensures DelAnyOf(v, addr, size) == DelOf(v, addr, size)
  {
    hide AnyFrees, AddFreed, CallsOf, SetSteps, Assign;
    EndOffsetExact(addr, size);
    SetIsAssign(v.ivs, addr, EndOffset(addr, size), UNMAPPED);
  }

  lemma DelNeverThrows(v: Vam, addr: u64, size: u64)
    requires size != 0
    ensures DelOf(v, addr, size).1 != Thrown
  {
  }

  /** A mapped interval meets [s, e]. */
  ghost predicate MeetsMapped(m: Intervals<u64>, k: u64, s: u64, e: u64) {
    k in m && k <= e && s <= m[k].end && m[k].value != UNMAPPED
  }

  ghost predicate MeetsAnyMapped(m: Intervals<u64>, s: u64, e: u64) {
    exists k: u64 :: MeetsMapped(m, k, s, e)
  }

  /** The length of a mapped interval fits its file, so no cut of it has size zero. */
  lemma MappedVisitFrees(v: Vam, k: u64, s: u64, e: u64)
    requires VamOk(v) && MeetsMapped(v.ivs, k, s, e) && s <= e
    ensures var c := VisitOf(v.ivs, k, s, e);
      Frees(c) && SizeOf(c.lo, c.hi) == c.hi - c.lo + 1
  {
    var mp := Mapped(v.ivs);
    assert k in mp && InFile(Run(mp, k), v.maxOff);
    var c := VisitOf(v.ivs, k, s, e);
    Add64Exact(c.hi - c.lo, 1);
  }

  /** `del` succeeds exactly when its first address is covered and it meets a mapped interval. */
  lemma DelSucceedsIff(v: Vam, addr: u64, size: u64)
    requires VamOk(v) && IsRange(addr, size)
    ensures DelOf(v, addr, size).1 == Success <==>
            At(v.ivs, addr).Some? && MeetsAnyMapped(v.ivs, addr, EndOffset(addr, size))
    ensures DelOf(v, addr, size).1 != Success ==> DelOf(v, addr, size) == (v, Failure)
  {
    hide Tiled, Assign, At, Disjoint, AddFreed;
    var e := EndOffset(addr, size);
    assert e == addr + size - 1;
    if At(v.ivs, addr).Some? {
      if k: u64 :| MeetsMapped(v.ivs, k, addr, e) {
        var i := CallFor(v, k, addr, e);
      }
    }
    var calls := CallsOf(v, addr, e);
    if i :| 0 <= i < |calls| && Frees(calls[i]) {
      CallMeets(v, i, addr, e);
    }
  }

  lemma CallFor(v: Vam, k: u64, s: u64, e: u64) returns (i: nat)
    requires VamOk(v) && s <= e && At(v.ivs, s).Some? && MeetsMapped(v.ivs, k, s, e)
    ensures i < |CallsOf(v, s, e)| && CallsOf(v, s, e)[i] == VisitOf(v.ivs, k, s, e)
    ensures Frees(CallsOf(v, s, e)[i])
  {
    hide Tiled, At, Disjoint;
    VisitedExact(v.ivs, s, e);
    var ks := Visited(v.ivs, s, e);
    assert k in ks;
    i :| 0 <= i < |ks| && ks[i] == k;
    MappedVisitFrees(v, k, s, e);
  }

  lemma CallMeets(v: Vam, i: nat, s: u64, e: u64)
    requires VamOk(v) && s <= e && i < |CallsOf(v, s, e)| && Frees(CallsOf(v, s, e)[i])
    ensures At(v.ivs, s).Some? && MeetsAnyMapped(v.ivs, s, e)
  {
    hide Tiled, At, Disjoint;
    VisitedExact(v.ivs, s, e);
    var ks := Visited(v.ivs, s, e);
    assert |CallsOf(v, s, e)| == |ks| && ks[i] in ks;
    assert CallsOf(v, s, e)[i] == VisitOf(v.ivs, ks[i], s, e);
    assert MeetsMapped(v.ivs, ks[i], s, e);
  }

  // ------------------------------------------------------------ whole ranges

  ghost function KeySet(ks: seq<u64>): set<u64> {
    set k | k in ks
  }

  /** The visited intervals are there to be freed: each mapped one is whole, the others own nothing. */
  ghost predicate Freeable(m: Intervals<u64>, mp: Intervals<u64>, ks: seq<u64>, s: u64, e: u64) {
    forall k :: k in ks ==>
      k in m && k <= m[k].end &&
      if m[k].value == UNMAPPED then k !in mp else s <= k && m[k].end <= e && k in mp && mp[k] == m[k]
  }

  /** Every visited mapped interval is whole, so each freed block is exactly its run. */
  lemma {:induction false} FreeAll(m: Intervals<u64>, mp: Intervals<u64>, free: seq<Node<u64>>, max: u64,
          ks: seq<u64>, s: u64, e: u64)
    requires Tiled(mp, multiset(free), max) && Sorted(free) && Increasing(ks) && max < UNMAPPED
    requires Freeable(m, mp, ks, s, e)
    ensures var free' := AddFreed(free, VisitsOf(m, ks, s, e));
      Sorted(free') && Tiled(mp - KeySet(ks), multiset(free'), max)
    decreases |ks|
  {
    hide Tiled, Sorted, Inserted, Freeable, Increasing;
    if ks == [] {
      assert mp - KeySet(ks) == mp;
    } else {
      var k, rest := ks[0], ks[1..];
      FreeableTail(m, mp, ks, s, e);
      if m[k].value != UNMAPPED { FreeOne(m, mp, free, max, k, s, e); }
      assert VisitsOf(m, ks, s, e) == [VisitOf(m, k, s, e)] + VisitsOf(m, rest, s, e);
      FreeAll(m, mp - {k}, FreeStep(free, VisitOf(m, k, s, e)), max, rest, s, e);
    }
  }

  lemma FreeableTail(m: Intervals<u64>, mp: Intervals<u64>, ks: seq<u64>, s: u64, e: u64)
    requires Increasing(ks) && Freeable(m, mp, ks, s, e) && ks != []
    ensures var k := ks[0];
      && k in m && k <= m[k].end
      && (m[k].value == UNMAPPED ==> mp - {k} == mp)
      && (m[k].value != UNMAPPED ==> s <= k && m[k].end <= e && k in mp && mp[k] == m[k])
      && Increasing(ks[1..]) && Freeable(m, mp - {k}, ks[1..], s, e)
      && mp - KeySet(ks) == (mp - {k}) - KeySet(ks[1..])
  {
    assert ks == [ks[0]] + ks[1..] && ks[0] !in ks[1..];
  }

  lemma FreeOne(m: Intervals<u64>, mp: Intervals<u64>, free: seq<Node<u64>>, max: u64, k: u64, s: u64, e: u64)
    requires Tiled(mp, multiset(free), max) && Sorted(free) && max < UNMAPPED
    requires k in m && k <= m[k].end && m[k].value != UNMAPPED && s <= k && m[k].end <= e && k in mp && mp[k] == m[k]
    ensures var c := VisitOf(m, k, s, e);
      Frees(c) && Sorted(Inserted(free, FreedBlock(c))) && Tiled(mp - {k}, multiset(Inserted(free, FreedBlock(c))), max)
  {
    var c := VisitOf(m, k, s, e);
    assert InFile(Run(mp, k), max);
    Add64Exact(c.hi - c.lo, 1);
    FreeRun(mp, multiset(free), max, k, FreedBlock(c));
    InsertedMeaning(free, FreedBlock(c));
  }

  lemma DelWholeKeepsTiling(v: Vam, addr: u64, size: u64)
    requires VamOk(v) && IsRange(addr, size)
    requires At(v.ivs, addr).None? || WholeMapped(v.ivs, addr, EndOffset(addr, size))
    ensures VamOk(DelOf(v, addr, size).0)
    ensures DelOf(v, addr, size).1 == Success ==>
              Mapped(DelOf(v, addr, size).0.ivs) ==
              map k | k in Mapped(v.ivs) && !(addr <= k < addr + size) :: v.ivs[k]
  {
    hide Tiled, Assign, Sorted, AddFreed, Disjoint, At;
    var e := EndOffset(addr, size);
    assert e == addr + size - 1;
    DelSucceedsIff(v, addr, size);
    if DelOf(v, addr, size).1 == Success {
      var ks := Visited(v.ivs, addr, e);
      VisitedFreeable(v.ivs, addr, e);
      FreeAll(v.ivs, Mapped(v.ivs), v.free, v.maxOff, ks, addr, e);
      AssignUnmaps(v.ivs, addr, e);
      AssignCanonical(v.ivs, addr, e, UNMAPPED);
    }
  }

  lemma VisitedFreeable(m: Intervals<u64>, s: u64, e: u64)
    requires Disjoint(m) && s <= e && At(m, s).Some? && WholeMapped(m, s, e)
    ensures var ks := Visited(m, s, e);
      Increasing(ks) && Freeable(m, Mapped(m), ks, s, e) &&
      Mapped(m) - KeySet(ks) == map k | k in Mapped(m) && !(s <= k <= e) :: m[k]
  {
    hide At;
    VisitedExact(m, s, e);
    var ks, mp := Visited(m, s, e), Mapped(m);
    forall k: u64 | k in mp ensures k in ks <==> s <= k <= e {
      assert k <= m[k].end;
    }
  }

  // -------------------------------------------------------------- part cuts

  lemma {:induction false} AddFreedKeeps(free: seq<Node<u64>>, calls: seq<Visit<u64>>, n: Node<u64>)
    requires Sorted(free) && n in multiset(free)
    ensures n in multiset(AddFreed(free, calls))
    decreases |calls|
  {
    hide Sorted, Inserted;
    if calls != [] {
      if Frees(calls[0]) { InsertedMeaning(free, FreedBlock(calls[0])); }
      AddFreedKeeps(FreeStep(free, calls[0]), calls[1..], n);
    }
  }

  lemma {:induction false} AddFreedAdds(free: seq<Node<u64>>, calls: seq<Visit<u64>>, i: nat)
    requires Sorted(free) && i < |calls| && Frees(calls[i])
    ensures FreedBlock(calls[i]) in multiset(AddFreed(free, calls))
    decreases |calls|
  {
    hide Sorted, Inserted;
    if Frees(calls[0]) { InsertedMeaning(free, FreedBlock(calls[0])); }
    if i == 0 {
      AddFreedKeeps(FreeStep(free, calls[0]), calls[1..], FreedBlock(calls[0]));
    } else {
      AddFreedAdds(FreeStep(free, calls[0]), calls[1..], i - 1);
    }
  }

  /** A mapped interval cut in part leaves a piece behind that keeps the whole interval's offset. */
  lemma PartCutLeavesOffset(m: Intervals<u64>, k: u64, s: u64, e: u64) returns (j: u64)
    requires Disjoint(m) && s <= e && MeetsMapped(m, k, s, e) && !(s <= k && m[k].end <= e)
    ensures j in Mapped(Assign(m, s, e, UNMAPPED)) && Mapped(Assign(m, s, e, UNMAPPED))[j].value == m[k].value
  {
    hide Coalesce, Disjoint;
    var c := Cut(m, s, e);
    j := if k < s then k else Inc(e);
    if s <= k {
      SplitterUnique(m, k, e);
    }
    assert j in c && c[j].value == m[k].value;
    CutDisjoint(m, s, e);
    assert s !in c by { assert FreeRange(c, s, e); DisjointNonEmpty(c); }
    CoalesceUnmapped(c, s, e);
  }

  lemma DisjointNonEmpty(m: Intervals<u64>)
    requires Disjoint(m)
    ensures forall k: u64 :: k in m ==> k <= m[k].end
  {
  }

  /** A run and a block that start at the same place cannot both be tiles. */
  lemma SharedOffset(mp: Intervals<u64>, free: multiset<Node<u64>>, max: int, j: u64, n: Node<u64>)
    requires j in mp && n in free && mp[j].value == n.item
    ensures !Tiled(mp, free, max)
  {
    if Tiled(mp, free, max) {
      TileValueIsFresh(mp, free, max, n);
    }
  }

  lemma DelPartBreaksTiling(v: Vam, addr: u64, size: u64, k: u64)
    requires VamOk(v) && IsRange(addr, size) && At(v.ivs, addr).Some?
    requires MeetsMapped(v.ivs, k, addr, EndOffset(addr, size))
    requires !(addr <= k && v.ivs[k].end <= EndOffset(addr, size))
    ensures var w := DelOf(v, addr, size).0; !Tiled(Mapped(w.ivs), multiset(w.free), w.maxOff)
  {
    hide Assign, Tiled, At, Disjoint, AddFreed, Mapped, Sorted;
    var e := EndOffset(addr, size);
    assert e == addr + size - 1;
    var w := DelOf(v, addr, size).0;
    var i := CallFor(v, k, addr, e);
    AddFreedAdds(v.free, CallsOf(v, addr, e), i);
    var j := PartCutLeavesOffset(v.ivs, k, addr, e);
    SharedOffset(Mapped(w.ivs), multiset(w.free), w.maxOff, j, FreedBlock(CallsOf(v, addr, e)[i]));
  }

  /**
   `del` keeps the file tiled if and only if it visits nothing (its first address
   is not covered) or covers every mapped interval it meets whole.
   */
  lemma DelTilesIff(v: Vam, addr: u64, size: u64)
    requires VamOk(v) && IsRange(addr, size)
    ensures var w := DelOf(v, addr, size).0;
      Tiled(Mapped(w.ivs), multiset(w.free), w.maxOff) <==>
      (At(v.ivs, addr).None? || WholeMapped(v.ivs, addr, EndOffset(addr, size)))
  {
    hide Tiled, At;
    if At(v.ivs, addr).None? || WholeMapped(v.ivs, addr, EndOffset(addr, size)) {
      DelWholeKeepsTiling(v, addr, size);
    } else {
      var e := EndOffset(addr, size);
      var k: u64 :| k in v.ivs && k <= e && addr <= v.ivs[k].end && v.ivs[k].value != UNMAPPED
        && !(addr <= k && v.ivs[k].end <= e);
      DelPartBreaksTiling(v, addr, size, k);
    }
  }

  /** Ten mapped bytes and a `del` of the last five: byte 0 of the file is then both mapped and free. */
  lemma DelPartExample()
    ensures var v := Vam(map[100 := Interval(109, 0)], [], 110, 10);
      VamOk(v) && var w := DelOf(v, 105, 5).0; !Tiled(Mapped(w.ivs), multiset(w.free), w.maxOff)
  {
    hide At, DelOf;
    var v := Vam(map[100 := Interval(109, 0)], [], 110, 10);
    OneRunTiled(100, 10);
    AtCovered(v.ivs, 100, 105);
    assert EndOffset(105, 5) == 109 && 100 in v.ivs;
    DelTilesIff(v, 105, 5);
  }

  lemma OneRunTiled(a: u64, size: u64)
    requires 0 < size && a + size < UNMAPPED
    ensures VamOk(Vam(map[a := Interval(a + size - 1, 0)], [], a + size, size))
  {
    hide Tiled;
    assert Tiled(map[], multiset{}, 0) by { EmptyTiled(); }
    AppendRun(map[], multiset{}, 0, a, size);
    assert Mapped(map[a := Interval(a + size - 1, 0)]) == map[a := Interval(a + size - 1, 0)];
  }

  /** A successful `del` of whole intervals unmaps its range and leaves every other translation alone. */
  lemma DelTranslates(v: Vam, addr: u64, size: u64, x: int)
    requires VamOk(v) && IsRange(addr, size)
    requires WholeMapped(v.ivs, addr, EndOffset(addr, size)) && DelOf(v, addr, size).1 == Success
    ensures Translate(DelOf(v, addr, size).0.ivs, x) ==
            if addr <= x < addr + size then None else Translate(v.ivs, x)
  {
    hide Tiled, DelOf, Translate, Disjoint, WholeMapped;
    DelWholeKeepsTiling(v, addr, size);
    var m, n := v.ivs, DelOf(v, addr, size).0.ivs;
    MappedRemovedTranslate(m, n, addr, EndOffset(addr, size), x);
  }

  lemma MappedRemovedTranslate(m: Intervals<u64>, n: Intervals<u64>, s: u64, e: u64, x: int)
    requires Disjoint(m) && Disjoint(n) && s <= e && WholeMapped(m, s, e)
    requires Mapped(n) == map k | k in Mapped(m) && !(s <= k <= e) :: m[k]
    ensures Translate(n, x) == if s <= x <= e then None else Translate(m, x)
  {
    forall k: u64 | MapsAt(n, k, x) ensures k in m && m[k] == n[k] && !(s <= x <= e) {
      assert k in Mapped(n) && k in Mapped(m);
    }
    if !(s <= x <= e) {
      forall k: u64 | MapsAt(m, k, x) ensures k in n && n[k] == m[k] {
        assert k in Mapped(m) && !(s <= k <= e);
        assert k in Mapped(n);
      }
      TranslateMapped(m, n, x);
    }
  }

  // --------------------------------------------------------- bytes given back

  /** How many points of [s, e] are mapped. */
  ghost function MappedCount(m: Intervals<u64>, s: int, e: int): nat
    decreases e - s + 1
  {
    if e < s then 0 else (if Translate(m, e).Some? then 1 else 0) + MappedCount(m, s, e - 1)
  }

  lemma {:induction false} CountSplit(m: Intervals<u64>, s: int, mid: int, e: int)
    requires s <= mid + 1 && mid <= e
    ensures MappedCount(m, s, e) == MappedCount(m, s, mid) + MappedCount(m, mid + 1, e)
    decreases e - mid
  {
    hide Translate;
    if mid < e { CountSplit(m, s, mid, e - 1); }
  }

  lemma {:induction false} CountNone(m: Intervals<u64>, s: int, e: int)
    requires forall x: int :: s <= x <= e ==> Translate(m, x).None?
    ensures MappedCount(m, s, e) == 0
    decreases e - s + 1
  {
    hide Translate;
    if s <= e { CountNone(m, s, e - 1); }
  }

  lemma {:induction false} CountAll(m: Intervals<u64>, s: int, e: int)
    requires s <= e + 1 && forall x: int :: s <= x <= e ==> Translate(m, x).Some?
    ensures MappedCount(m, s, e) == e - s + 1
    decreases e - s + 1
  {
    hide Translate;
    if s <= e { CountAll(m, s, e - 1); }
  }

  lemma CallsInOrder(m: Intervals<u64>, s: u64, e: u64, i: nat)
    requires Disjoint(m) && s <= e && i < |Calls(m, s, e)|
    ensures var calls := Calls(m, s, e);
      && s <= calls[i].lo <= calls[i].hi <= e
      && (forall j :: 0 <= j < i + 1 ==> calls[j].hi < calls[i].hi + 1)
      && (forall j :: i < j < |calls| ==> calls[i].hi < calls[j].lo)
  {
    hide At, Disjoint, Calls, Visited;
    CallsExact(m, s, e);
  }

  /** Freeing the calls from the `i`th on adds as many bytes as points are mapped from where it begins. */
  lemma {:induction false} FreedFrom(v: Vam, s: u64, e: u64, i: nat, lo: int, free: seq<Node<u64>>)
    requires VamOk(v) && s <= e && At(v.ivs, s).Some? && i <= |Calls(v.ivs, s, e)| && Sorted(free)
    requires s <= lo <= e + 1 && (forall j :: 0 <= j < i ==> Calls(v.ivs, s, e)[j].hi < lo)
    requires forall j :: i <= j < |Calls(v.ivs, s, e)| ==> lo <= Calls(v.ivs, s, e)[j].lo
    ensures TotalSize(AddFreed(free, Calls(v.ivs, s, e)[i..])) == TotalSize(free) + MappedCount(v.ivs, lo, e)
    decreases |Calls(v.ivs, s, e)| - i
  {
    hide Tiled, At, Disjoint, Translate, Sorted, Inserted, Calls, MappedCount, FreeStep;
    var calls := Calls(v.ivs, s, e);
    if i == |calls| {
      GapCount(v, s, e, i, lo, e);
    } else {
      var c := calls[i];
      CallsInOrder(v.ivs, s, e, i);
      CallBytes(v, s, e, i, free);
      GapCount(v, s, e, i, lo, c.lo - 1);
      CountSplit(v.ivs, lo, c.lo - 1, e);
      CountSplit(v.ivs, c.lo, c.hi, e);
      assert calls[i..][0] == c && calls[i..][1..] == calls[i + 1..];
      FreedFrom(v, s, e, i + 1, c.hi + 1, FreeStep(free, c));
    }
  }

  /** The points between two calls are not mapped. */
  lemma GapCount(v: Vam, s: u64, e: u64, i: nat, lo: int, hi: int)
    requires VamOk(v) && s <= e && At(v.ivs, s).Some? && i <= |Calls(v.ivs, s, e)| && s <= lo && hi <= e
    requires forall j :: 0 <= j < i ==> Calls(v.ivs, s, e)[j].hi < lo
    requires forall j :: i <= j < |Calls(v.ivs, s, e)| ==> hi < Calls(v.ivs, s, e)[j].lo
    ensures MappedCount(v.ivs, lo, hi) == 0
  {
    hide Tiled, At, Disjoint, Translate, Calls, MappedCount;
    forall x: int | lo <= x <= hi ensures Translate(v.ivs, x).None? {
      if Translate(v.ivs, x).Some? {
        TranslatedAt(v.ivs, x);
        var j := CallOf(v.ivs, s, e, x);
      }
    }
    CountNone(v.ivs, lo, hi);
  }

  lemma TranslatedAt(m: Intervals<u64>, x: int)
    requires Disjoint(m) && Translate(m, x).Some?
    ensures At(m, x).Some?
  {
    var k: u64 :| MapsAt(m, k, x);
    AtCovered(m, k, x);
  }

  /** A call frees its points if they are mapped, and nothing otherwise. */
  lemma CallBytes(v: Vam, s: u64, e: u64, i: nat, free: seq<Node<u64>>)
    requires VamOk(v) && s <= e && i < |Calls(v.ivs, s, e)| && Sorted(free)
    ensures var c := Calls(v.ivs, s, e)[i];
      && Sorted(FreeStep(free, c))
      && TotalSize(FreeStep(free, c)) == TotalSize(free) + MappedCount(v.ivs, c.lo, c.hi)
  {
    hide Tiled, At, Disjoint, Translate, Sorted, Inserted, MappedCount, VisitsOf, Visited;
    CallsExact(v.ivs, s, e);
    VisitedMeet(v.ivs, s, e);
    var c, k := Calls(v.ivs, s, e)[i], Visited(v.ivs, s, e)[i];
    assert c == VisitOf(v.ivs, k, s, e);
    forall x: int | c.lo <= x <= c.hi
      ensures Translate(v.ivs, x).Some? <==> c.value != UNMAPPED
    {
      TranslateIn(v.ivs, k, x);
    }
    if c.value == UNMAPPED {
      CountNone(v.ivs, c.lo, c.hi);
    } else {
      MappedVisitFrees(v, k, s, e);
      CountAll(v.ivs, c.lo, c.hi);
      InsertedMeaning(free, FreedBlock(c));
    }
  }

  /** A successful `del` makes as many bytes free as there were mapped points in its range. */
  lemma DelFreesCount(v: Vam, addr: u64, size: u64)
    requires VamOk(v) && IsRange(addr, size) && DelOf(v, addr, size).1 == Success
    ensures TotalSize(DelOf(v, addr, size).0.free) == TotalSize(v.free) + MappedCount(v.ivs, addr, addr + size - 1)
  {
    hide Tiled, At, Disjoint, Sorted, Calls, MappedCount, AddFreed, Assign;
    DelSucceedsIff(v, addr, size);
    EndOffsetExact(addr, size);
    var e := EndOffset(addr, size);
    CallsExact(v.ivs, addr, e);
    var calls := Calls(v.ivs, addr, e);
    assert calls[0..] == calls;
    FreedFrom(v, addr, e, 0, addr, v.free);
  }

  /** Of ten mapped bytes a `del` of the last five frees five. */
  lemma DelPartCount()
    ensures var v := Vam(map[100 := Interval(109, 0)], [], 110, 10);
      TotalSize(DelOf(v, 105, 5).0.free) == 5
  {
    hide At, DelOf, Disjoint, Tiled, MappedCount;
    var v := Vam(map[100 := Interval(109, 0)], [], 110, 10);
    OneRunTiled(100, 10);
    AtCovered(v.ivs, 100, 105);
    assert EndOffset(105, 5) == 109 && MeetsMapped(v.ivs, 100, 105, 109);
    DelSucceedsIff(v, 105, 5);
    DelFreesCount(v, 105, 5);
    forall x: int | 105 <= x <= 109 ensures Translate(v.ivs, x).Some? { TranslateIn(v.ivs, 100, x); }
    CountAll(v.ivs, 105, 109);
    assert TotalSize(v.free) == 0;
  }

  /** What a call frees: its own length, if it is mapped, at the offset of its interval. */
  ghost function BlockOf(c: Visit<u64>): multiset<Node<u64>>
    requires c.lo <= c.hi
  {
    if c.value == UNMAPPED || c.hi - c.lo == U64_MAX then multiset{} else multiset{Node(c.hi - c.lo + 1, c.value)}
  }

  ghost function BlocksOf(calls: seq<Visit<u64>>): multiset<Node<u64>>
    requires forall i :: 0 <= i < |calls| ==> calls[i].lo <= calls[i].hi
    decreases |calls|
  {
    if calls == [] then multiset{} else BlockOf(calls[0]) + BlocksOf(calls[1..])
  }

  lemma FreeStepBlock(free: seq<Node<u64>>, c: Visit<u64>)
    requires Sorted(free) && c.lo <= c.hi
    ensures Sorted(FreeStep(free, c)) && multiset(FreeStep(free, c)) == multiset(free) + BlockOf(c)
  {
    hide Sorted, Inserted;
    Add64Exact(c.hi - c.lo, 1);
    if Frees(c) { InsertedMeaning(free, FreedBlock(c)); }
  }

  lemma SumOfThree(a: multiset<Node<u64>>, b: multiset<Node<u64>>, c: multiset<Node<u64>>)
    ensures (a + b) + c == a + (b + c)
  {
  }

  lemma {:induction false} AddFreedBlocks(free: seq<Node<u64>>, calls: seq<Visit<u64>>)
    requires Sorted(free) && forall i :: 0 <= i < |calls| ==> calls[i].lo <= calls[i].hi
    ensures Sorted(AddFreed(free, calls)) && multiset(AddFreed(free, calls)) == multiset(free) + BlocksOf(calls)
    decreases |calls|
  {
    hide Sorted, Inserted, FreeStep, BlockOf;
    if calls != [] {
      FreeStepBlock(free, calls[0]);
      AddFreedBlocks(FreeStep(free, calls[0]), calls[1..]);
      SumOfThree(multiset(free), BlockOf(calls[0]), BlocksOf(calls[1..]));
    }
  }

  /** `del` returns these blocks and leaves the file as long as it was. */
  lemma DelFrees(v: Vam, addr: u64, size: u64)
    requires VamOk(v) && IsRange(addr, size)
    ensures var (w, r) := DelOf(v, addr, size);
      var calls := Calls(v.ivs, addr, EndOffset(addr, size));
      && InOrder(calls, addr, EndOffset(addr, size)) && w.maxOff == v.maxOff && w.maxAddr == v.maxAddr
      && (r == Success ==> multiset(w.free) == multiset(v.free) + BlocksOf(calls))
  {
    hide Tiled, Sorted, Calls, Disjoint, Assign, AddFreed;
    EndOffsetExact(addr, size);
    CallsExact(v.ivs, addr, EndOffset(addr, size));
    AddFreedBlocks(v.free, Calls(v.ivs, addr, EndOffset(addr, size)));
  }
}

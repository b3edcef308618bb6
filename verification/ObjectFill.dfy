/** `for_each_empty` of include/storage/SimpleObjectStorage.hpp: an object at every index of a range that has none. */
module ObjectFill {
  import opened Machine
  import opened FreeList
  import opened Packing
  import Addresses
  import Cells
  import opened Codec
  import opened StorageSpec
  import opened ObjectSpec

  /** What `f` returns for the indices of a range. */
  ghost function Returned(f: u64 -> Value, start: u64, end: u64): map<u64, Value> {
    map i: u64 | start <= i <= end :: f(i)
  }

  /** The values a range may be filled with. */
  ghost predicate Fillers(ty: Ty, f: map<u64, Value>, start: u64, end: u64) {
    Sized(f, start, end) && forall i: u64 :: start <= i <= end ==> i in f && HasType(f[i], ty)
  }

  ghost predicate Sized(f: map<u64, Value>, start: u64, end: u64) {
    forall i: u64 :: start <= i <= end ==> i in f && 0 < Size(f[i]) < U64_LIMIT
  }

  /** Puts from index `i` on, stopping at the first that fails. */
  ghost function FillOf(o: Objs, s: Store, ty: Ty, i: u64, end: u64, f: map<u64, Value>, count: nat): (Objs,
          Store, nat, Result)
    requires end < U64_MAX && Fillers(ty, f, i, end)
    decreases if i <= end then end - i + 1 else 0
  {
    if i > end then (o, s, count, Success)
    else if Has(o, i) then FillOf(o, s, ty, i + 1, end, f, count)
    else
      var (p, t, r) := PutOf(o, s, i, f[i], false);
      if r != Success then (p, t, count + 1, r) else FillOf(p, t, ty, i + 1, end, f, count + 1)
  }

  lemma FillNext(o: Objs, s: Store, ty: Ty, i: u64, end: u64, f: map<u64, Value>, count: nat)
    requires i <= end < U64_MAX && Fillers(ty, f, i, end)
    ensures Fillers(ty, f, i + 1, end)
    ensures FillOf(o, s, ty, i, end, f, count) ==
            if Has(o, i) then FillOf(o, s, ty, i + 1, end, f, count)
            else
              var (p, t, r) := PutOf(o, s, i, f[i], false);
              if r != Success then (p, t, count + 1, r) else FillOf(p, t, ty, i + 1, end, f, count + 1)
  {
    hide PutOf, HasType, Size;
  }

  lemma FillDone(o: Objs, s: Store, ty: Ty, i: u64, end: u64, f: map<u64, Value>, count: nat)
    requires end < i && end < U64_MAX && Fillers(ty, f, i, end)
    ensures FillOf(o, s, ty, i, end, f, count) == (o, s, count, Success)
  {
  }

  lemma FillerFacts(ty: Ty, f: map<u64, Value>, i: u64, end: u64)
    requires Fillers(ty, f, i, end)
    ensures Sized(f, i, end)
  {
  }

  lemma FillerOk(ty: Ty, f: map<u64, Value>, i: u64, end: u64)
    requires Fillers(ty, f, i, end) && i <= end < U64_MAX
    ensures i in f && HasType(f[i], ty) && 0 < Size(f[i]) < U64_LIMIT && Sized(f, i, end) && Sized(f, i + 1, end)
  {
    hide HasType, Size;
  }

  /** The same for a function of the index. */
  ghost predicate FillersBy(ty: Ty, f: u64 -> Value, start: u64, end: u64) {
    Fillers(ty, Returned(f, start, end), start, end)
  }

  ghost function FillBy(o: Objs, s: Store, ty: Ty, start: u64, end: u64, f: u64 -> Value): (Objs, Store, nat, Result)
    requires end < U64_MAX && FillersBy(ty, f, start, end)
  {
    FillOf(o, s, ty, start, end, Returned(f, start, end), 0)
  }

  ghost function FilledBy(objects: Objects, f: u64 -> Value, start: u64, end: u64): Objects
    requires end < U64_MAX
  {
    Filled(objects, Returned(f, start, end), start, end + 1)
  }

  /** The sizes of the objects that are missing, in the order of their indices. */
  function NeedsOf(o: Objs, i: u64, end: u64, f: map<u64, Value>): seq<u64>
    requires end < U64_MAX && Sized(f, i, end)
    decreases if i <= end then end - i + 1 else 0
  {
    if i > end then []
    else if Has(o, i) then NeedsOf(o, i + 1, end, f)
    else [Size(f[i])] + NeedsOf(o, i + 1, end, f)
  }

  /** There is a block for every object that is missing. */
  predicate CanFill(o: Objs, i: u64, end: u64, f: map<u64, Value>)
    requires end < U64_MAX && Sized(f, i, end)
  {
    Packs(SizesOf(o.unused), o.tail.size, NeedsOf(o, i, end, f))
  }

  lemma {:induction false} NeedsSame(o: Objs, p: Objs, i: u64, end: u64, f: map<u64, Value>)
    requires end < U64_MAX && Sized(f, i, end)
    requires forall j :: i <= j ==> (Has(o, j) <==> Has(p, j))
    ensures NeedsOf(o, i, end, f) == NeedsOf(p, i, end, f)
    decreases if i <= end then end - i + 1 else 0
  {
    if i <= end { NeedsSame(o, p, i + 1, end, f); }
  }

  /** What a put at an index without an object takes from the sizes. */
  lemma PutSizes(o: Objs, s: Store, i: u64, v: Value)
    requires Sorted(o.unused) && i !in o.addrs && 0 < Size(v) < U64_LIMIT
    ensures var sizes, need := SizesOf(o.unused), Size(v);
      && (CanHold(o, i, need) <==> SomeFits(sizes, need) || need <= o.tail.size)
      && (CanHold(o, i, need) ==>
            var p := PutOf(o, s, i, v, false).0;
            && p.states == SetState(o.states, i, true)
            && SizesOf(p.unused) == (if SomeFits(sizes, need) then CutSizes(sizes, need) else sizes)
            && p.tail.size == (if SomeFits(sizes, need) then o.tail.size else o.tail.size - need))
  {
    hide Sze.SerializeOf, SplicedRest, SplicedItem, Chosen, SizesOf, CutSizes, SomeFits, Sorted, SetState;
    var need := Size(v);
    SplicedSizes(o.unused, need, AdvanceAddress);
    ChosenIsBestFit(o.unused, need, U64_MAX);
  }

  lemma CanFillNext(o: Objs, s: Store, i: u64, end: u64, f: map<u64, Value>)
    requires i <= end < U64_MAX && Sized(f, i, end) && Sorted(o.unused)
    requires !Has(o, i) ==> i !in o.addrs
    ensures CanFill(o, i, end, f) <==>
            if Has(o, i) then CanFill(o, i + 1, end, f)
            else CanHold(o, i, Size(f[i])) && CanFill(PutOf(o, s, i, f[i], false).0, i + 1, end, f)
  {
    hide PutOf, Sorted, CanHold, CutSizes, SomeFits, SizesOf, Size;
    if !Has(o, i) {
      PutSizes(o, s, i, f[i]);
      var needs := NeedsOf(o, i, end, f);
      assert needs[1..] == NeedsOf(o, i + 1, end, f);
      var p := PutOf(o, s, i, f[i], false).0;
      if CanHold(o, i, Size(f[i])) { NeedsSame(o, p, i + 1, end, f); }
    }
  }

  /** The same for a function of the index. */
  ghost predicate CanFillBy(o: Objs, start: u64, end: u64, f: u64 -> Value)
    requires end < U64_MAX && Sized(Returned(f, start, end), start, end)
  {
    CanFill(o, start, end, Returned(f, start, end))
  }

  /** Filled up to `j`, which held nothing and is left marked. */
  ghost predicate RefusedAt(objects: Objects, after: Objects, start: u64, end: u64, f: map<u64, Value>, j: u64) {
    start <= j <= end && j !in objects && after == Filled(objects, f, start, j)[j := None]
  }

  ghost predicate RefusedBy(objects: Objects, after: Objects, f: u64 -> Value, start: u64, end: u64, j: u64) {
    RefusedAt(objects, after, start, end, Returned(f, start, end), j)
  }

  /** `objects` with `f[i]` at every index of [start, end) that held none. */
  ghost function Filled(objects: Objects, f: map<u64, Value>, start: u64, end: u64): Objects {
    (map i | i in f && start <= i < end :: Some(f[i])) + objects
  }

  lemma FilledNone(objects: Objects, f: map<u64, Value>, start: u64, end: u64)
    requires end <= start
    ensures Filled(objects, f, start, end) == objects
  {
  }

  lemma FilledNext(objects: Objects, f: map<u64, Value>, start: u64, i: u64)
    requires start <= i < U64_MAX && i in f
    ensures var m := Filled(objects, f, start, i);
      (i in m <==> i in objects) &&
      Filled(objects, f, start, i + 1) == if i in m then m else m[i := Some(f[i])]
  {
  }

  /** What a step of filling keeps of the storage around the base range. */
  ghost predicate OnlyBase(o: Objs, s: Store, p: Objs, t: Store) {
    && p.base == o.base && t.meta == s.meta
    && (InOneCell(o.base) ==> Cells.SameOutside(s.vam.ivs, t.vam.ivs, o.base.addr / Addresses.CELL))
    && forall x :: !(o.base.addr <= x < o.base.addr + o.base.size) ==> Mem(t, x) == Mem(s, x)
  }

  lemma OnlyBaseTrans(o: Objs, s: Store, p: Objs, t: Store, q: Objs, u: Store)
    requires OnlyBase(o, s, p, t) && OnlyBase(p, t, q, u)
    ensures OnlyBase(o, s, q, u)
  {
    hide Mem;
    if InOneCell(o.base) { Cells.SameOutsideTrans(s.vam.ivs, t.vam.ivs, u.vam.ivs, o.base.addr / Addresses.CELL); }
  }

  lemma PutOnlyBase(o: Objs, s: Store, ty: Ty, objects: Objects, index: u64, v: Value, keep: bool)
    requires Holds(o, s, ty, objects) && RoomForTail(o, s) && index < U64_MAX
    requires HasType(v, ty) && 0 < Size(v) < U64_LIMIT && CanHold(o, index, Size(v))
    ensures var (p, t, r) := PutOf(o, s, index, v, keep);
      r == Success && Holds(p, t, ty, objects[index := Some(v)]) && RoomForTail(p, t) && OnlyBase(o, s, p, t)
  {
    hide Holds, CanHold, PutOf, PutFits, HasType, Mem, RoomForTail, Cells.SameOutside;
    PutKeepsRoom(o, s, ty, objects, index, v, keep);
    PutHolds(o, s, ty, objects, index, v, keep);
  }

  /**
   Filling puts `f[i]` at exactly the indices without an object, counts them, and touches
   nothing but the base range.
   */
  lemma {:induction false} FillHolds(o: Objs, s: Store, ty: Ty, objects: Objects, i: u64, end: u64,
          f: map<u64, Value>, count: nat)
    requires Holds(o, s, ty, objects) && RoomForTail(o, s)
    requires end < U64_MAX && Fillers(ty, f, i, end) && CanFill(o, i, end, f)
    ensures var (p, t, n, r) := FillOf(o, s, ty, i, end, f, count);
      && r == Success && Holds(p, t, ty, Filled(objects, f, i, end + 1)) && RoomForTail(p, t)
      && n == count + |Filled(objects, f, i, end + 1)| - |objects|
      && OnlyBase(o, s, p, t)
    decreases if i <= end then end - i + 1 else 0
  {
    hide Holds, CanHold, CanFill, PutOf, HasType, Size, RoomForTail, Filled, OnlyBase, Fillers, Sized, Has;
    if i > end {
      FilledNone(objects, f, i, end + 1);
      OnlyBaseSelf(o, s);
    } else {
      FillerOk(ty, f, i, end);
      FillNext(o, s, ty, i, end, f, count);
      HoldsFacts(o, s, ty, objects, i);
      CanFillNext(o, s, i, end, f);
      FilledFirst(objects, f, i, end + 1);
      if Has(o, i) {
        FillHolds(o, s, ty, objects, i + 1, end, f, count);
      } else {
        var v := f[i];
        PutOnlyBase(o, s, ty, objects, i, v, false);
        var (p, t, _) := PutOf(o, s, i, v, false);
        FillHolds(p, t, ty, objects[i := Some(v)], i + 1, end, f, count + 1);
        var (q, u, _, _) := FillOf(p, t, ty, i + 1, end, f, count + 1);
        OnlyBaseTrans(o, s, p, t, q, u);
      }
    }
  }

  lemma OnlyBaseSelf(o: Objs, s: Store)
    ensures OnlyBase(o, s, o, s)
  {
  }

  lemma HoldsFacts(o: Objs, s: Store, ty: Ty, objects: Objects, i: u64)
    requires Holds(o, s, ty, objects)
    ensures Sorted(o.unused) && (Has(o, i) <==> i in objects) && (i in o.addrs ==> Has(o, i))
  {
  }

  lemma FilledFirst(objects: Objects, f: map<u64, Value>, i: u64, end: u64)
    requires i < end && i in f
    ensures Filled(objects, f, i, end) ==
            Filled(if i in objects then objects else objects[i := Some(f[i])], f, i + 1, end)
    ensures i !in objects ==> |objects[i := Some(f[i])]| == |objects| + 1
  {
    hide Filled;
    var more := if i in objects then objects else objects[i := Some(f[i])];
    var a, b := Filled(objects, f, i, end), Filled(more, f, i + 1, end);
    forall j: u64 ensures (j in a <==> j in b) && (j in a ==> a[j] == b[j]) {
      FilledAt(objects, f, i, end, j);
      FilledAt(more, f, i + 1, end, j);
    }
  }

  lemma FilledAt(objects: Objects, f: map<u64, Value>, start: u64, end: u64, j: u64)
    ensures var m := Filled(objects, f, start, end);
      (j in m <==> j in objects || (j in f && start <= j < end)) &&
      (j in m ==> m[j] == if j in objects then objects[j] else Some(f[j]))
  {
  }

  /** Filling the indices from `i` up to and without `j`. */
  ghost function FillTo(o: Objs, s: Store, ty: Ty, i: u64, j: u64, f: map<u64, Value>, count: nat): (Objs, Store, nat,
          Result)
    requires i <= j < U64_MAX && Fillers(ty, f, i, j)
  {
    if i == j then (o, s, count, Success) else FillOf(o, s, ty, i, j - 1, f, count)
  }

  /** A filling that fails at `j` is one that succeeds up to there, and the put at `j`. */
  ghost predicate FailsAt(o: Objs, s: Store, ty: Ty, i: u64, end: u64, f: map<u64, Value>, count: nat, j: u64)
    requires i <= j <= end < U64_MAX && Fillers(ty, f, i, end)
  {
    var (q, u, n, r) := FillTo(o, s, ty, i, j, f, count);
    var (p, t, thrown) := PutOf(q, u, j, f[j], false);
    && r == Success && (i < j ==> CanFill(o, i, j - 1, f))
    && FillOf(o, s, ty, i, end, f, count) == (p, t, n + 1, thrown)
  }

  lemma FillToNext(o: Objs, s: Store, ty: Ty, i: u64, j: u64, f: map<u64, Value>, count: nat)
    requires i < j < U64_MAX && Fillers(ty, f, i, j) && Sorted(o.unused) && (!Has(o, i) ==> i !in o.addrs)
    ensures Fillers(ty, f, i + 1, j) && i in f && 0 < Size(f[i]) < U64_LIMIT
    ensures FillTo(o, s, ty, i, j, f, count) ==
            if Has(o, i) then FillTo(o, s, ty, i + 1, j, f, count)
            else
              var (p, t, r) := PutOf(o, s, i, f[i], false);
              if r != Success then (p, t, count + 1, r) else FillTo(p, t, ty, i + 1, j, f, count + 1)
    ensures CanFill(o, i, j - 1, f) <==>
            if Has(o, i) then i + 1 < j ==> CanFill(o, i + 1, j - 1, f)
            else CanHold(o, i, Size(f[i])) && (i + 1 < j ==> CanFill(PutOf(o, s, i, f[i], false).0, i + 1, j - 1, f))
  {
    hide PutOf, HasType, Size, CanFill, CanHold, Sorted, Has, Fillers, Sized, FillOf;
    FillersShorter(ty, f, i, j);
    FillNext(o, s, ty, i, j - 1, f, count);
    CanFillNext(o, s, i, j - 1, f);
    var (p, t, _) := PutOf(o, s, i, f[i], false);
    if i + 1 == j {
      CanFillNone(o, j, j - 1, f);
      CanFillNone(p, j, j - 1, f);
      FillDone(o, s, ty, j, j - 1, f, count);
      FillDone(p, t, ty, j, j - 1, f, count + 1);
    }
  }

  lemma FillersShorter(ty: Ty, f: map<u64, Value>, i: u64, j: u64)
    requires i < j < U64_MAX && Fillers(ty, f, i, j)
    ensures i in f && 0 < Size(f[i]) < U64_LIMIT
    ensures Fillers(ty, f, i + 1, j) && Fillers(ty, f, i, j - 1) && Fillers(ty, f, i + 1, j - 1)
    ensures Sized(f, i, j - 1) && Sized(f, i + 1, j - 1)
  {
    hide HasType, Size;
  }

  /**
   When filling fails, the indices up to the one that found no block are filled, that one
   is left marked and holds nothing, and all others are as they were.
   */
  lemma {:induction false} FillThrows(o: Objs, s: Store, ty: Ty, objects: Objects, i: u64, end: u64,
          f: map<u64, Value>, count: nat) returns (j: u64)
    requires Holds(o, s, ty, objects) && RoomForTail(o, s)
    requires end < U64_MAX && Fillers(ty, f, i, end) && !CanFill(o, i, end, f)
    ensures i <= j <= end && j !in objects && j in f && 0 < Size(f[j]) < U64_LIMIT
    ensures var (p, t, _, r) := FillOf(o, s, ty, i, end, f, count);
      && r == Thrown && Stuck(p, j, Size(f[j]))
      && Holds(p, t, ty, Filled(objects, f, i, j)[j := None]) && RoomForTail(p, t)
      && OnlyBase(o, s, p, t)
    ensures FailsAt(o, s, ty, i, end, f, count, j)
    decreases if i <= end then end - i + 1 else 0
  {
    hide Holds, CanHold, CanFill, PutOf, HasType, Size, RoomForTail, Filled, OnlyBase, Fillers, Sized, Has, Stuck;
    hide FailsAt;
    if i > end {
      CanFillNone(o, i, end, f);
    } else {
      FillerOk(ty, f, i, end);
      FillNext(o, s, ty, i, end, f, count);
      HoldsFacts(o, s, ty, objects, i);
      CanFillNext(o, s, i, end, f);
      if Has(o, i) {
        j := FillThrows(o, s, ty, objects, i + 1, end, f, count);
        FilledFirst(objects, f, i, j);
        FailsEarlier(o, s, ty, i, end, f, count, j);
      } else if CanHold(o, i, Size(f[i])) {
        PutOnlyBase(o, s, ty, objects, i, f[i], false);
        var (p, t, _) := PutOf(o, s, i, f[i], false);
        j := FillThrows(p, t, ty, objects[i := Some(f[i])], i + 1, end, f, count + 1);
        FilledFirst(objects, f, i, j);
        var (q, u, _, _) := FillOf(p, t, ty, i + 1, end, f, count + 1);
        OnlyBaseTrans(o, s, p, t, q, u);
        FailsEarlier(o, s, ty, i, end, f, count, j);
      } else {
        j := i;
        PutThrowsOnlyBase(o, s, ty, objects, i, f[i], false);
        FilledNone(objects, f, i, i);
        FailsNow(o, s, ty, i, end, f, count);
      }
    }
  }

  /** A failure further on, seen from one index before. */
  lemma FailsEarlier(o: Objs, s: Store, ty: Ty, i: u64, end: u64, f: map<u64, Value>, count: nat, j: u64)
    requires i < j <= end < U64_MAX && Fillers(ty, f, i, end) && Fillers(ty, f, i + 1, end)
    requires Sorted(o.unused) && (!Has(o, i) ==> i !in o.addrs)
    requires i in f && 0 < Size(f[i]) < U64_LIMIT
    requires Has(o, i) ==> FailsAt(o, s, ty, i + 1, end, f, count, j)
    requires !Has(o, i) ==>
               var (p, t, r) := PutOf(o, s, i, f[i], false);
               r == Success && CanHold(o, i, Size(f[i])) && FailsAt(p, t, ty, i + 1, end, f, count + 1, j)
    ensures FailsAt(o, s, ty, i, end, f, count, j)
  {
    hide PutOf, HasType, Size, CanFill, CanHold, Sorted, Has, FillOf;
    FillNext(o, s, ty, i, end, f, count);
    FillToNext(o, s, ty, i, j, f, count);
  }

  lemma FailsNow(o: Objs, s: Store, ty: Ty, i: u64, end: u64, f: map<u64, Value>, count: nat)
    requires i <= end < U64_MAX && Fillers(ty, f, i, end) && !Has(o, i)
    requires i in f && 0 < Size(f[i]) < U64_LIMIT && PutOf(o, s, i, f[i], false).2 != Success
    ensures FailsAt(o, s, ty, i, end, f, count, i)
  {
    hide PutOf, HasType, Size, CanFill, Has, FillOf;
    FillNext(o, s, ty, i, end, f, count);
  }

  lemma CanFillNone(o: Objs, i: u64, end: u64, f: map<u64, Value>)
    requires end < i && end < U64_MAX && Sized(f, i, end)
    ensures CanFill(o, i, end, f)
  {
  }

  lemma SameAsSelf(s: Store, c: nat)
    ensures Cells.SameOutside(s.vam.ivs, s.vam.ivs, c)
  {
  }

  lemma PutThrowsOnlyBase(o: Objs, s: Store, ty: Ty, objects: Objects, index: u64, v: Value, keep: bool)
    requires Holds(o, s, ty, objects) && RoomForTail(o, s) && index < U64_MAX && 0 < Size(v) < U64_LIMIT
    requires !CanHold(o, index, Size(v))
    ensures var (p, t, r) := PutOf(o, s, index, v, keep);
      && r == Thrown && t == s && Stuck(p, index, Size(v))
      && Holds(p, t, ty, objects[index := None]) && RoomForTail(p, t) && OnlyBase(o, s, p, t)
  {
    hide Holds, CanHold, PutOf, Mem, Stuck;
    PutThrows(o, s, ty, objects, index, v, keep);
    if InOneCell(o.base) { SameAsSelf(s, o.base.addr / Addresses.CELL); }
  }

  /**
   Filling succeeds exactly when the sizes of the unused blocks and of the tail have room
   for the sizes that are missing.
   */
  lemma FillSucceedsIff(o: Objs, s: Store, ty: Ty, objects: Objects, i: u64, end: u64, f: map<u64, Value>, count: nat)
    requires Holds(o, s, ty, objects) && RoomForTail(o, s)
    requires end < U64_MAX && Fillers(ty, f, i, end)
    ensures FillOf(o, s, ty, i, end, f, count).3 == if CanFill(o, i, end, f) then Success else Thrown
  {
    hide Holds, CanFill, HasType, RoomForTail, OnlyBase, FillOf, Stuck, Filled;
    if CanFill(o, i, end, f) {
      FillHolds(o, s, ty, objects, i, end, f, count);
    } else {
      var j := FillThrows(o, s, ty, objects, i, end, f, count);
    }
  }

  /** Of two objects of ten bytes, the second does not go into a range of sixteen. */
  lemma FillExample()
    ensures var (s, base) := AllocAddrOf(CrowdedStore(), 16);
      var o, f := NewObjs(base), map[0 := Scalar(Zeros(10)), 1 := Scalar(Zeros(10))];
      && Holds(o, s, TScalar(10), map[]) && RoomForTail(o, s) && Fillers(TScalar(10), f, 0, 1)
      && FillOf(o, s, TScalar(10), 0, 1, f, 0).3 == Thrown
  {
    hide StoreOk, Mem, AllocAddrOf, Holds, FillOf;
    CrowdedOk();
    NewHolds(CrowdedStore(), TScalar(10), 16);
    AllocAddrMeaning(CrowdedStore(), 16);
    var (s, base) := AllocAddrOf(CrowdedStore(), 16);
    var o, f := NewObjs(base), map[0 := Scalar(Zeros(10)), 1 := Scalar(Zeros(10))];
    assert Size(f[0]) == 10 && Size(f[1]) == 10;
    TenAndTen(o, f);
    FillSucceedsIff(o, s, TScalar(10), map[], 0, 1, f, 0);
  }

  lemma TenAndTen(o: Objs, f: map<u64, Value>)
    requires o.states == [] && o.unused == [] && o.tail.size == 16
    requires Sized(f, 0, 1) && Size(f[0]) == 10 && Size(f[1]) == 10
    ensures !CanFill(o, 0, 1, f)
  {
    hide Size, Packs;
    assert NeedsOf(o, 2, 1, f) == [];
    assert NeedsOf(o, 0, 1, f) == [10, 10];
    NoRoomForTen();
  }

  lemma NoRoomForTen()
    ensures !Packs(multiset{}, 16, [10, 10])
  {
    assert !SomeFits(multiset{}, 10);
    assert [10, 10][1..] == [10];
    assert !Packs(multiset{}, 6, [10]);
  }
}

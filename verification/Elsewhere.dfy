/**
 What the steps of the storage leave alone: an address cell without slots keeps its
 intervals and bytes through every one of them.
 */
module Elsewhere {
  import opened Machine
  import IntervalSpec
  import Tiling
  import opened MappingSpec
  import Erasure
  import opened Addresses
  import opened Cells
  import opened StorageSpec
  import opened Persistence
  import opened Slots

  /** How far the file reaches after a step. */
  function MaxAfter(s: Store, m: Memory, op: Op): int {
    match op
    case Write(a, _) =>
      if a in m && FirstTouchAt(s.vam, a) then NewMax(s.vam, m[a].size) else s.vam.maxOff
    case CloseReopen => if CloseFits(s) then NewMax(s.vam, ReservedSize(s.vam)) else s.vam.maxOff
    case _ => s.vam.maxOff
  }

  /**
   A step leaves a cell without slots alone: its intervals, its bytes, and all but what
   it must of the file's space.
   */
  lemma StepElsewhere(s: Store, m: Memory, op: Op, c: nat) returns (d: nat)
    requires StoreOk(s) && Refines(s, m) && Enabled(s, m, op)
    requires 3 <= c <= s.meta.highBits && forall a: u64 :: a in m ==> a / CELL != c
    ensures var t := Step(s, m, op).0;
      && d != c && SameOutside(s.vam.ivs, t.vam.ivs, d)
      && t.vam.maxOff == MaxAfter(s, m, op) && |t.bytes| == |s.bytes| && s.meta.highBits <= t.meta.highBits
    ensures forall x :: c * CELL <= x < c * CELL + CELL ==> Mem(Step(s, m, op).0, x) == Mem(s, x)
  {
    hide StoreOk, Mem, WriteOf, ReadOf, EraseOf, AllocAddrOf, ReopenedOf, ReopenStep, SameOutside, Refines, MaxAfter;
    match op
    case GetRandomAddress(size) =>
      d := s.meta.highBits + 1;
      AllocElsewhere(s, m, size);
    case Write(a, data) =>
      d := a / CELL;
      SlotOfMemory(s, m, a);
      WriteElsewhere(s, m, a, data, c);
    case Read(a) =>
      d := c + 1;
      ReadElsewhere(s, m, a, d);
    case Erase(a) =>
      d := a / CELL;
      SlotOfMemory(s, m, a);
      EraseElsewhere(s, m, a, c);
    case CloseReopen =>
      d := 1;
      ReopenElsewhere(s, m, c);
  }

  lemma AllocElsewhere(s: Store, m: Memory, size: u64)
    requires StoreOk(s) && 0 < size < CELL && s.meta.highBits + 1 < CELLS
    ensures var t := AllocAddrOf(s, size).0;
      && SameOutside(s.vam.ivs, t.vam.ivs, s.meta.highBits + 1)
      && t.vam.maxOff == MaxAfter(s, m, GetRandomAddress(size)) && t.bytes == s.bytes
      && s.meta.highBits <= t.meta.highBits
      && forall x :: Mem(t, x) == Mem(s, x)
  {
    hide StoreOk, Mem, AllocAddrOf;
    AllocAddrMeaning(s, size);
    NewSlotAlone(s, size);
  }

  lemma ReadElsewhere(s: Store, m: Memory, a: u64, d: nat)
    ensures SameOutside(s.vam.ivs, s.vam.ivs, d) && s.vam.maxOff == MaxAfter(s, m, Read(a))
  {
  }

  lemma WriteElsewhere(s: Store, m: Memory, a: u64, data: seq<byte>, c: nat)
    requires StoreOk(s) && a in m && SlotOk(s, a, m[a]) && FitsAt(s, a, m[a].size) && a / CELL != c
    ensures var t := WriteOf(s, a, m[a].size, data).0;
      && SameOutside(s.vam.ivs, t.vam.ivs, a / CELL)
      && t.vam.maxOff == MaxAfter(s, m, Write(a, data)) && |t.bytes| == |s.bytes| && t.meta == s.meta
      && forall x :: c * CELL <= x < c * CELL + CELL ==> Mem(t, x) == Mem(s, x)
  {
    hide StoreOk, Mem, WriteOf, SameOutside;
    var size := m[a].size;
    SlotAddressable(s, a, m[a]);
    WriteMax(s, m, a, data);
    if |data| <= size {
      WriteApart(s, a, size, data, c);
    } else {
      OversizeWrite(s, a, m[a], data);
      WriteApart(s, a, size, [], c);
    }
  }

  lemma WriteApart(s: Store, a: u64, size: u64, data: seq<byte>, c: nat)
    requires StoreOk(s) && Addressable(s, a, a, size) && FitsAt(s, a, size) && |data| <= size
    requires InCell(a, a + size - 1, a / CELL) && a / CELL != c
    ensures var t := WriteOf(s, a, size, data).0;
      && SameOutside(s.vam.ivs, t.vam.ivs, a / CELL) && |t.bytes| == |s.bytes| && t.meta == s.meta
      && forall x :: c * CELL <= x < c * CELL + CELL ==> Mem(t, x) == Mem(s, x)
  {
    hide StoreOk, Mem, WriteOf, SameOutside;
    WriteWithin(s, a, a, size, data);
    var t := WriteOf(s, a, size, data).0;
    forall x | c * CELL <= x < c * CELL + CELL ensures Mem(t, x) == Mem(s, x) {
      assert WriteSeen(s, t, a, size, data, x);
    }
  }

  lemma WriteMax(s: Store, m: Memory, a: u64, data: seq<byte>)
    requires StoreOk(s) && a in m && Addressable(s, a, a, m[a].size) && FitsAt(s, a, m[a].size)
    ensures WriteOf(s, a, m[a].size, data).0.vam.maxOff == MaxAfter(s, m, Write(a, data))
  {
    hide Tiling.Tiled, IntervalSpec.Disjoint, CellsOk, SystemCells, HeaderMapped, LookupOf;
    LookupKeepsStore(s, a, a, m[a].size, false);
    LookupKeepsTiling(s.vam, a, m[a].size, false);
  }

  lemma EraseElsewhere(s: Store, m: Memory, a: u64, c: nat)
    requires StoreOk(s) && a in m && SlotOk(s, a, m[a]) && a / CELL != c
    ensures var t := EraseOf(s, a, m[a].size).0;
      && SameOutside(s.vam.ivs, t.vam.ivs, a / CELL)
      && t.vam.maxOff == MaxAfter(s, m, Erase(a)) && t.bytes == s.bytes && t.meta == s.meta
      && forall x :: c * CELL <= x < c * CELL + CELL ==> Mem(t, x) == Mem(s, x)
  {
    hide StoreOk, Mem, EraseOf, SameOutside, Tiling.Translate;
    SlotAddressable(s, a, m[a]);
    AloneWhole(s, a, m[a]);
    EraseMeaning(s, a, m[a].size);
    EraseMax(s, a, m[a].size);
  }

  lemma EraseMax(s: Store, a: u64, size: u64)
    requires size != 0
    ensures EraseOf(s, a, size).0.vam.maxOff == s.vam.maxOff
  {
  }

  lemma ReopenElsewhere(s: Store, m: Memory, c: nat)
    requires StoreOk(s) && CloseFits(s) && 3 <= c
    ensures var t := ReopenStep(s).0;
      && SameOutside(s.vam.ivs, t.vam.ivs, 1)
      && t.vam.maxOff == MaxAfter(s, m, CloseReopen) && |t.bytes| == |s.bytes| && t.meta.highBits == s.meta.highBits
      && forall x :: c * CELL <= x < c * CELL + CELL ==> Mem(t, x) == Mem(s, x)
  {
    hide StoreOk, Mem, ReopenStep, SameOutside, Tiling.Translate, ReopenedOf;
    ReopenStepSucceeds(s);
    CloseReopenIdentity(s);
    ReopenedMax(s);
    var t := ReopenStep(s).0;
    forall x | c * CELL <= x < c * CELL + CELL ensures Mem(t, x) == Mem(s, x) {
      assert x / CELL != 2;
    }
  }

  lemma ReopenedMax(s: Store)
    requires StoreOk(s) && CloseFits(s)
    ensures ReopenedOf(s).vam.maxOff == NewMax(s.vam, ReservedSize(s.vam))
  {
    hide StoreOk, CloseOf, Erasure.DelOf;
    RegionFreed(s);
    RegionMax(s);
  }

  lemma RegionMax(s: Store)
    requires StoreOk(s) && CloseFits(s)
    ensures StoredVam(s).0.maxOff == NewMax(s.vam, ReservedSize(s.vam))
  {
    hide Tiling.Tiled, IntervalSpec.Disjoint, IntervalSpec.Assign, CellsOk, SystemCells, SameOutside, HeaderMapped;
    MapCellUnmapped(s, ReservedSize(s.vam));
    AllocKeepsTiling(s.vam, MAP_ADDR, ReservedSize(s.vam));
  }
}

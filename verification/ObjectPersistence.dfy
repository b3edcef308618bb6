/**
 The object store across a closed file: stored at an address of the storage it lives
 in, closed with it, opened and read back, it has the same objects at the same indices.
 */
module ObjectPersistence {
  import opened Machine
  import FreeList
  import opened Addresses
  import opened Codec
  import CodecOrder
  import opened StorageSpec
  import opened Persistence
  import opened ObjectSpec
  import opened ObjectReload
  import opened ObjectRuns
  import Slots
  import Sze

  /** The object store can be encoded, its addresses in the order in which they are walked. */
  ghost predicate Encodable(o: Objs, order: seq<u64>) {
    && WalkOrder(o.addrs, order)
    && |order| < U64_LIMIT && |o.unused| < U64_LIMIT && PaddedLength(|o.states|) < U64_LIMIT
  }

  /** Making room for a value at a known address is a step or two of the storage elsewhere. */
  lemma PlaceLeavesObjects(a: State, ty: Ty, p: Plain, v: Value, at: Addr)
    requires 0 < Size(v) < CELL && Ready(a, ty, p) && Sze.KnownAddress(a.m, at) && Sze.CanPlace(a.s, v, at)
    ensures var (t, b) := Sze.PlaceFor(a.s, v, at);
      && StoreOk(t) && Holds(a.o, t, ty, p.objects) && BaseCell(a.o.base, t)
      && Beside(Sze.Placed(a.m, at, b), a.o.base) && FitsAt(t, b.addr, b.size)
  {
    ReadyStore(a, ty, p);
    ReadyParts(a, ty, p);
    hide Ready, Holds, BaseCell, Beside, StoreOk, Slots.Refines, AllocAddrOf, EraseOf, FitsAt;
    if at.size < Size(v) {
      if at.size == 0 {
        PlaceFirst(a, ty, p, v, at);
      } else {
        PlaceAgain(a, ty, p, v, at);
      }
    }
  }

  lemma PlaceFirst(a: State, ty: Ty, p: Plain, v: Value, at: Addr)
    requires 0 < Size(v) < CELL && Ready(a, ty, p) && Sze.KnownAddress(a.m, at) && Sze.CanPlace(a.s, v, at)
    requires at.size == 0
    ensures var (t, b) := Sze.PlaceFor(a.s, v, at);
      && StoreOk(t) && Holds(a.o, t, ty, p.objects) && BaseCell(a.o.base, t)
      && Beside(Sze.Placed(a.m, at, b), a.o.base)
  {
    ReadyStore(a, ty, p);
    ReadyParts(a, ty, p);
    hide Ready, Holds, BaseCell, Beside, StoreOk, Slots.Refines, AllocAddrOf, FitsAt;
    AllocLeavesObjects(a.o, a.s, ty, p.objects, a.m, Size(v));
  }

  lemma PlaceAgain(a: State, ty: Ty, p: Plain, v: Value, at: Addr)
    requires 0 < Size(v) < CELL && Ready(a, ty, p) && Sze.KnownAddress(a.m, at) && Sze.CanPlace(a.s, v, at)
    requires 0 < at.size < Size(v)
    ensures var (t, b) := Sze.PlaceFor(a.s, v, at);
      && StoreOk(t) && Holds(a.o, t, ty, p.objects) && BaseCell(a.o.base, t)
      && Beside(Sze.Placed(a.m, at, b), a.o.base)
  {
    ReadyStore(a, ty, p);
    ReadyParts(a, ty, p);
    AgainFacts(a.s, a.m, v, at);
    hide Ready, Holds, BaseCell, Beside, StoreOk, Slots.Refines, AllocAddrOf, EraseOf;
    hide Sze.PlaceFor, Sze.Placed, Sze.CanPlace, Sze.KnownAddress;
    EraseLeavesObjects(a.o, a.s, ty, p.objects, a.m, at);
    var t := EraseOf(a.s, at.addr, at.size).0;
    AllocLeavesObjects(a.o, t, ty, p.objects, a.m[at.addr := Slots.Slot(at.size, None)], Size(v));
  }

  lemma AgainFacts(s: Store, m: Slots.Memory, v: Value, at: Addr)
    requires 0 < at.size < Size(v) < CELL && Sze.KnownAddress(m, at) && Sze.CanPlace(s, v, at)
    ensures var t := EraseOf(s, at.addr, at.size).0;
      var (u, b) := AllocAddrOf(t, Size(v));
      && at.addr in m && m[at.addr].size == at.size && t.meta.highBits + 1 < CELLS
      && Sze.PlaceFor(s, v, at) == (u, b) && b.size == Size(v)
      && (at != b ==>
            Sze.Placed(m, at, b) == m[at.addr := Slots.Slot(at.size, None)][b.addr := Slots.Slot(Size(v), None)])
      && at != b
  {
    hide EraseOf, AllocAddrOf, FitsAt;
    Sze.EraseKeeps(s, at.addr, at.size);
    Sze.AllocAddrKeeps(EraseOf(s, at.addr, at.size).0, Size(v));
  }

  lemma EraseLeavesObjects(o: Objs, s: Store, ty: Ty, objects: Objects, m: Slots.Memory, at: Addr)
    requires Holds(o, s, ty, objects) && BaseCell(o.base, s) && StoreOk(s) && Slots.Refines(s, m) && Beside(m, o.base)
    requires at.addr in m && m[at.addr].size == at.size && at.size != 0
    ensures var t := EraseOf(s, at.addr, at.size).0;
      var n := m[at.addr := Slots.Slot(at.size, None)];
      && StoreOk(t) && Holds(o, t, ty, objects) && BaseCell(o.base, t) && Slots.Refines(t, n) && Beside(n, o.base)
  {
    hide Holds, BaseCell, StoreOk, Slots.Refines, EraseOf;
    StorageLeavesObjects(o, s, ty, objects, m, Slots.Erase(at.addr));
    Slots.EraseRefines(s, m, at.addr);
  }

  lemma AllocLeavesObjects(o: Objs, s: Store, ty: Ty, objects: Objects, m: Slots.Memory, size: u64)
    requires Holds(o, s, ty, objects) && BaseCell(o.base, s) && StoreOk(s) && Slots.Refines(s, m) && Beside(m, o.base)
    requires 0 < size < CELL && s.meta.highBits + 1 < CELLS
    ensures var (t, b) := AllocAddrOf(s, size);
      && StoreOk(t) && Holds(o, t, ty, objects) && BaseCell(o.base, t)
      && b.size == size && Beside(m[b.addr := Slots.Slot(size, None)], o.base)
  {
    hide Holds, StoreOk, Slots.Refines, AllocAddrOf;
    StorageLeavesObjects(o, s, ty, objects, m, Slots.GetRandomAddress(size));
    Slots.AllocRefines(s, m, size);
    AllocAddrMeaning(s, size);
    Slots.NewSlotAlone(s, size);
  }

  lemma WriteLeavesObjects(o: Objs, s: Store, ty: Ty, objects: Objects, m: Slots.Memory, v: Value, b: Addr)
    requires Holds(o, s, ty, objects) && BaseCell(o.base, s) && StoreOk(s) && Slots.Refines(s, m) && Beside(m, o.base)
    requires b.addr in m && m[b.addr].size == b.size && Size(v) <= b.size && FitsAt(s, b.addr, b.size)
    ensures Holds(o, Sze.StoreInto(s, v, b).0, ty, objects) && BaseCell(o.base, Sze.StoreInto(s, v, b).0)
  {
    hide Holds, BaseCell, Beside, StoreOk, Slots.Refines, Sze.StoreInto, WriteOf;
    Slots.SlotOfMemory(s, m, b.addr);
    Slots.SlotAddressable(s, b.addr, m[b.addr]);
    Sze.StoreIntoIsWrite(s, b.addr, v, b);
    StorageLeavesObjects(o, s, ty, objects, m, Slots.Write(b.addr, Sze.Buffers.Written(v, b.size)));
  }

  lemma SerializeIsStoreInto(s: Store, v: Value, at: Addr)
    requires 0 < Size(v) < U64_LIMIT && Size(v) <= Sze.PlaceFor(s, v, at).1.size
    ensures var (t, b) := Sze.PlaceFor(s, v, at);
      Sze.SerializeOf(s, v, at) == (Sze.StoreInto(t, v, b).0, b, Sze.StoreInto(t, v, b).1)
  {
    hide Sze.PlaceFor, Sze.StoreInto;
  }

  /** Serializing any value to another address leaves the objects where they are. */
  lemma SerializeLeavesObjects(a: State, ty: Ty, p: Plain, v: Value, at: Addr)
    requires 0 < Size(v) < CELL && Ready(a, ty, p) && Sze.KnownAddress(a.m, at) && Sze.CanPlace(a.s, v, at)
    ensures var (u, b, r) := Sze.SerializeOf(a.s, v, at);
      && Holds(a.o, u, ty, p.objects) && BaseCell(a.o.base, u) && Beside(Sze.Placed(a.m, at, b), a.o.base)
  {
    ReadyStore(a, ty, p);
    hide Ready, Holds, BaseCell, Beside, StoreOk, Slots.Refines, Sze.PlaceFor, Sze.StoreInto, Sze.Placed;
    hide Sze.KnownAddress, Sze.CanPlace, FitsAt, Sze.SerializeOf;
    PlaceLeavesObjects(a, ty, p, v, at);
    Sze.PlaceRefines(a.s, a.m, v, at);
    SerializeIsStoreInto(a.s, v, at);
    var (t, b) := Sze.PlaceFor(a.s, v, at);
    WriteLeavesObjects(a.o, t, ty, p.objects, Sze.Placed(a.m, at, b), v, b);
  }

  /** What is read back from the address after the file was closed and opened. */
  ghost function ReopenedObjs(s: Store, at: Addr): Option<Objs>
    requires StoreOk(s) && CloseFits(s)
  {
    match Sze.DeserializeOf(Slots.ReopenStep(s).0, OBJS_TY, at)
    case None => None
    case Some(v) => ToObjs(v)
  }

  /**
   An object store is serialized to an address of its storage, the storage is closed
   and the file opened again, and the store is read back from the address: it is ready
   to go on, with the objects it had.
   */
  lemma ReloadAfterReopen(a: State, ty: Ty, p: Plain, order: seq<u64>, at: Addr)
    requires Encodable(a.o, order) && 0 < Size(OfObjs(a.o, order)) < CELL && Ready(a, ty, p)
    requires Sze.KnownAddress(a.m, at) && Sze.CanPlace(a.s, OfObjs(a.o, order), at)
    requires CloseFits(Sze.SerializeOf(a.s, OfObjs(a.o, order), at).0)
    ensures var v := OfObjs(a.o, order);
      var (t, b, r) := Sze.SerializeOf(a.s, v, at);
      var n := Sze.StoredMemory(a.s, a.m, v, at);
      && r == Success && StoreOk(t)
      && ReopenedObjs(t, b) == Some(ReloadedOf(a.o))
      && Ready(State(ReloadedOf(a.o), Slots.ReopenStep(t).0, n), ty, Plain(p.objects, n))
  {
    ReadyStore(a, ty, p);
    ReadyParts(a, ty, p);
    GeometryOf(a.o, a.s, ty, p.objects);
    hide Ready, Holds, BaseCell, Beside, StoreOk, Slots.Refines, Sze.SerializeOf, Sze.Placed;
    hide Slots.ReopenStep, ToObjs, OfObjs, RoomForTail;
    hide Sze.DeserializeOf, Sze.CanPlace, Sze.KnownAddress, Sze.StoredMemory, ReloadedOf, CloseFits;
    hide HasType, NulFree, Padded;
    var v := OfObjs(a.o, order);
    ObjsValue(a.o, order);
    Sze.StoredSlot(a.s, a.m, v, OBJS_TY, at);
    SerializeLeavesObjects(a, ty, p, v, at);
    var (t, b, _) := Sze.SerializeOf(a.s, v, at);
    var n := Sze.StoredMemory(a.s, a.m, v, at);
    SameCells(Sze.Placed(a.m, at, b), n, a.o.base);
    SlotReadsSame(t, n, OBJS_TY, b);
    PaddedObjs(a.o, order);
    ReopenReady(a.o, ty, p.objects, t, n);
  }

  /** Whatever is done after that, replies are still those of the plain map of the objects there were before. */
  lemma RunsGoOn(a: State, ty: Ty, p: Plain, order: seq<u64>, at: Addr, ops: seq<Op>, replies: seq<Reply>)
    requires Encodable(a.o, order) && 0 < Size(OfObjs(a.o, order)) < CELL && Ready(a, ty, p)
    requires Sze.KnownAddress(a.m, at) && Sze.CanPlace(a.s, OfObjs(a.o, order), at)
    requires CloseFits(Sze.SerializeOf(a.s, OfObjs(a.o, order), at).0)
    requires var t := Sze.SerializeOf(a.s, OfObjs(a.o, order), at).0;
      var n := Sze.StoredMemory(a.s, a.m, OfObjs(a.o, order), at);
      StoreOk(t) && Run(State(ReloadedOf(a.o), Slots.ReopenStep(t).0, n), ty, ops, replies)
    ensures PlainRun(Plain(p.objects, Sze.StoredMemory(a.s, a.m, OfObjs(a.o, order), at)), ops, replies)
  {
    hide Ready, StoreOk, Sze.SerializeOf, Slots.ReopenStep, OfObjs, Run, PlainRun, Sze.StoredMemory;
    hide Sze.CanPlace, CloseFits;
    ReloadAfterReopen(a, ty, p, order, at);
    var n := Sze.StoredMemory(a.s, a.m, OfObjs(a.o, order), at);
    var t := Sze.SerializeOf(a.s, OfObjs(a.o, order), at).0;
    RunRefines(State(ReloadedOf(a.o), Slots.ReopenStep(t).0, n), ty, Plain(p.objects, n), ops, replies);
  }

  lemma SameCells(m: Slots.Memory, n: Slots.Memory, base: Addr)
    requires Beside(m, base) && m.Keys == n.Keys
    ensures Beside(n, base)
  {
  }

  lemma GeometryOf(o: Objs, s: Store, ty: Ty, objects: Objects)
    requires Holds(o, s, ty, objects)
    ensures FreeList.Sorted(o.unused)
  {
  }

  /** A slot reads the same before and after the file was closed and opened. */
  lemma SlotReadsSame(t: Store, n: Slots.Memory, ty: Ty, b: Addr)
    requires StoreOk(t) && CloseFits(t) && Slots.Refines(t, n) && b.addr in n && n[b.addr].size == b.size
    ensures Sze.DeserializeOf(Slots.ReopenStep(t).0, ty, b) == Sze.DeserializeOf(t, ty, b)
  {
    hide StoreOk, Slots.Refines, Slots.SlotOk, ReadbOf, Decode, Slots.ReopenStep, ReopenedOf;
    Slots.ReopenStepSucceeds(t);
    Slots.ReopenRefines(t, n);
    var u := Slots.ReopenStep(t).0;
    Slots.SlotOfMemory(t, n, b.addr);
    Slots.SlotOfMemory(u, n, b.addr);
    Sze.ReadbSlot(t, b.addr, n[b.addr]);
    Sze.ReadbSlot(u, b.addr, n[b.addr]);
  }

  /** What storage makes of an encoded store is the store as it is reloaded. */
  lemma PaddedObjs(o: Objs, order: seq<u64>)
    requires Encodable(o, order) && FreeList.Sorted(o.unused)
    ensures ToObjs(Padded(OfObjs(o, order))) == Some(ReloadedOf(o))
  {
    hide Encode, Decode, CodecOrder.DecodeIn, ToObjs, OfObjs, HasType, Padded, NulFree;
    ObjsValue(o, order);
    ObjsRoundTrip(CodecOrder.IN_ORDER, o, order, []);
    CodecOrder.InOrderDecodes(OBJS_TY, Encode(OfObjs(o, order)) + []);
    RoundTrip(OfObjs(o, order), OBJS_TY, []);
  }

  lemma SameBase(o: Objs)
    ensures ReloadedOf(o).base == o.base
  {
  }

  lemma ReopenLeavesObjects(o: Objs, ty: Ty, objects: Objects, t: Store, n: Slots.Memory)
    requires StoreOk(t) && CloseFits(t) && Holds(o, t, ty, objects) && BaseCell(o.base, t)
    requires Slots.Refines(t, n) && Beside(n, o.base)
    ensures var u := Slots.ReopenStep(t).0;
      StoreOk(u) && Slots.Refines(u, n) && Holds(o, u, ty, objects) && BaseCell(o.base, u)
  {
    hide Holds, BaseCell, Beside, StoreOk, Slots.Refines, Slots.ReopenStep, ReopenedOf, RoomForTail;
    StorageLeavesObjects(o, t, ty, objects, n, Slots.CloseReopen);
    Slots.ReopenStepSucceeds(t);
    Slots.ReopenRefines(t, n);
  }

  lemma ReopenReady(o: Objs, ty: Ty, objects: Objects, t: Store, n: Slots.Memory)
    requires StoreOk(t) && CloseFits(t) && Holds(o, t, ty, objects) && BaseCell(o.base, t)
    requires Slots.Refines(t, n) && Beside(n, o.base)
    ensures Ready(State(ReloadedOf(o), Slots.ReopenStep(t).0, n), ty, Plain(objects, n))
  {
    hide Holds, BaseCell, Beside, StoreOk, Slots.Refines, Slots.ReopenStep, RoomForTail, Ready;
    hide ReloadedOf, ReopenedOf, CloseFits;
    ReopenLeavesObjects(o, ty, objects, t, n);
    var u := Slots.ReopenStep(t).0;
    FileBounds(u);
    ReloadHolds(o, u, ty, objects);
    SameBase(o);
    MakeReady(ReloadedOf(o), u, n, ty, objects);
  }
}

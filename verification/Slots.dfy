/**
 The refinement of virtual memory: a storage used by whole addresses behaves like a
 map from the addresses it handed out to the bytes last written there, over any run
 of its operations, closing and reopening included.
 */
module Slots {
  import opened Machine
  import IntervalSpec
  import opened Tiling
  import opened MappingSpec
  import opened Erasure
  import opened Addresses
  import opened Cells
  import Codec
  import CodecOrder
  import Buffers
  import opened StorageSpec
  import opened Persistence

  /** An address that was handed out: its size, and the bytes at it unless it was never written or was erased. */
  datatype Slot = Slot(size: u64, data: Option<seq<byte>>)

  type Memory = map<u64, Slot>

  datatype Op =
    | GetRandomAddress(size: u64)
    | Write(addr: u64, data: seq<byte>)
    | Read(addr: u64)
    | Erase(addr: u64)
    | CloseReopen

  datatype Reply = Address(addr: u64) | Done(r: Result) | Bytes(d: Option<seq<byte>>)

  // ------------------------------------------------------------- the storage

  /** What the storage must be able to afford: fresh cells, file space, and known addresses only. */
  ghost predicate Enabled(s: Store, m: Memory, op: Op) {
    match op
    case GetRandomAddress(size) => 0 < size < CELL && s.meta.highBits + 1 < CELLS
    case Write(a, d) => a in m && FitsAt(s, a, m[a].size)
    case Read(a) => a in m
    case Erase(a) => a in m
    case CloseReopen => CloseFits(s)
  }

  // ------------------------------------------------------- the plain memory

  /** What a plain map of slots does. Only what the client never wrote is left open. */
  ghost predicate MemoryStep(m: Memory, op: Op, reply: Reply, n: Memory) {
    match op
    case GetRandomAddress(size) =>
      reply.Address? && reply.addr !in m && n == m[reply.addr := Slot(size, None)]
    case Write(a, d) =>
      a in m && a in n && n == m[a := n[a]] && n[a].size == m[a].size &&
      if |d| > m[a].size then
        reply == Done(Thrown) && n[a].data.Some? && (m[a].data.Some? ==> n == m)
      else
        reply == Done(Success) && n[a].data.Some? && |n[a].data.value| == m[a].size
        && n[a].data.value[..|d|] == d
        && (m[a].data.Some? ==> |m[a].data.value| == m[a].size && n[a].data.value[|d|..] == m[a].data.value[|d|..])
    case Read(a) =>
      a in m && n == m && reply == Bytes(m[a].data)
    case Erase(a) =>
      a in m && n == m[a := Slot(m[a].size, None)] && reply == Done(if m[a].data.Some? then Success else Failure)
    case CloseReopen =>
      n == m && reply == Done(Success)
  }

  // ------------------------------------------------------------- refinement

  /** The slot at `a` is one interval, alone in its cell, with the slot's bytes. */
  ghost predicate SlotOk(s: Store, a: u64, slot: Slot) {
    && 0 < slot.size < CELL && a % CELL == 0 && 3 <= a / CELL <= s.meta.highBits
    && a in s.vam.ivs && s.vam.ivs[a].end == a + slot.size - 1
    && (forall k: u64 :: k in s.vam.ivs && k / CELL == a / CELL ==> k == a)
    && (slot.data.Some? <==> s.vam.ivs[a].value != UNMAPPED)
    && (slot.data.Some? ==> |slot.data.value| == slot.size && Seen(s, a, slot.data.value))
  }

  ghost predicate Refines(s: Store, m: Memory) {
    forall a: u64 :: a in m ==> SlotOk(s, a, m[a])
  }

  /** The bytes seen in a mapped slot. */
  ghost function SeenBytes(s: Store, a: u64, size: u64): seq<byte> {
    seq<byte>(size, i requires 0 <= i < size => ByteAt(s, a + i))
  }

  ghost function ByteAt(s: Store, x: int): byte {
    match Mem(s, x)
    case Some(b) => b
    case None => 0
  }

  lemma SlotAddressable(s: Store, a: u64, slot: Slot)
    requires StoreOk(s) && SlotOk(s, a, slot)
    ensures Addressable(s, a, a, slot.size) && InCell(a, a + slot.size - 1, a / CELL)
    ensures EndOffset(a, slot.size) == a + slot.size - 1
  {
    assert InCell(a, s.vam.ivs[a].end, a / CELL);
  }

  /** A slot in another cell is not affected by a step that keeps to one cell and to its own bytes. */
  lemma OtherSlotKept(s: Store, t: Store, a: u64, slot: Slot, c: nat)
    requires SlotOk(s, a, slot) && a / CELL != c && SameOutside(s.vam.ivs, t.vam.ivs, c)
    requires s.meta.highBits <= t.meta.highBits
    requires forall x :: a <= x < a + slot.size ==> Mem(t, x) == Mem(s, x)
    ensures SlotOk(t, a, slot)
  {
    hide Mem;
  }

  lemma CellsDiffer(a: u64, b: u64)
    requires a % CELL == 0 && b % CELL == 0 && a != b
    ensures a / CELL != b / CELL
  {
  }

  lemma SlotsApart(s: Store, a: u64, x: Slot, b: u64, y: Slot)
    requires StoreOk(s) && SlotOk(s, a, x) && SlotOk(s, b, y) && a != b
    ensures a / CELL != b / CELL
    ensures b + y.size <= a || a + x.size <= b
  {
    hide Mem;
    CellsDiffer(a, b);
    SlotAddressable(s, a, x);
    SlotAddressable(s, b, y);
  }

  lemma SlotOfMemory(s: Store, m: Memory, a: u64)
    requires Refines(s, m) && a in m
    ensures SlotOk(s, a, m[a]) && m[a].size != 0
  {
  }

  /** The storage's own step; whole addresses are used, with the size they were handed out with. */
  ghost function Step(s: Store, m: Memory, op: Op): (Store, Reply)
    requires StoreOk(s) && Refines(s, m) && Enabled(s, m, op)
  {
    hide StoreOk, Refines;
    match op
    case GetRandomAddress(size) => var (t, a) := AllocAddrOf(s, size); (t, Address(a.addr))
    case Write(a, d) => var (t, r) := WriteOf(s, a, m[a].size, d); (t, Done(r))
    case Read(a) => (s, Bytes(ReadOf(s, a, m[a].size)))
    case Erase(a) => SlotOfMemory(s, m, a); var (t, r) := EraseOf(s, a, m[a].size); (t, Done(r))
    case CloseReopen => ReopenStep(s)
  }

  /** Writes the file and opens it again. */
  ghost function ReopenStep(s: Store): (Store, Reply)
    requires StoreOk(s) && CloseFits(s)
  {
    FileBounds(s);
    match OpenOf(CodecOrder.IN_ORDER, CloseOf(s), s.meta.staticAddr.size)
    case None => (s, Done(Thrown))
    case Some(t) => (t, Done(Success))
  }

  lemma ReopenStepSucceeds(s: Store)
    requires StoreOk(s) && CloseFits(s)
    ensures ReopenStep(s) == (ReopenedOf(s), Done(Success))
  {
    hide StoreOk, CloseOf, ReopenOf, ReopenedOf, MagicOf;
    ReopenSucceeds(s, s.meta.staticAddr.size);
  }

  // ------------------------------------------------------------------- write

  lemma WriteRefines(s: Store, m: Memory, a: u64, d: seq<byte>)
    requires StoreOk(s) && Refines(s, m) && a in m && FitsAt(s, a, m[a].size) && |d| <= m[a].size
    ensures var (t, r) := WriteOf(s, a, m[a].size, d);
      var n := m[a := Slot(m[a].size, Some(SeenBytes(t, a, m[a].size)))];
      && StoreOk(t) && Refines(t, n) && r == Success
      && SeenBytes(t, a, m[a].size)[..|d|] == d
      && (m[a].data.Some? ==> SeenBytes(t, a, m[a].size)[|d|..] == m[a].data.value[|d|..])
  {
    hide StoreOk, WriteOf, Mem;
    var size := m[a].size;
    var (t, r) := WriteOf(s, a, size, d);
    SlotAddressable(s, a, m[a]);
    WriteWithin(s, a, a, size, d);
    WrittenSlot(s, t, a, m[a], d);
    forall b: u64 | b in m && b != a ensures SlotOk(t, b, m[b]) {
      SlotsApart(s, a, m[a], b, m[b]);
      forall x | b <= x < b + m[b].size ensures Mem(t, x) == Mem(s, x) {
        assert WriteSeen(s, t, a, size, d, x);
      }
      OtherSlotKept(s, t, b, m[b], a / CELL);
    }
  }

  lemma WrittenSlot(s: Store, t: Store, a: u64, slot: Slot, d: seq<byte>)
    requires StoreOk(s) && SlotOk(s, a, slot) && FitsAt(s, a, slot.size) && |d| <= slot.size
    requires t == WriteOf(s, a, slot.size, d).0 && StoreOk(t) && t.meta == s.meta
    requires forall x :: WriteSeen(s, t, a, slot.size, d, x)
    ensures var bytes := SeenBytes(t, a, slot.size);
      && SlotOk(t, a, Slot(slot.size, Some(bytes)))
      && bytes[..|d|] == d
      && (slot.data.Some? ==> bytes[|d|..] == slot.data.value[|d|..])
  {
    hide StoreOk, WriteOf, Mem;
    var bytes := SeenBytes(t, a, slot.size);
    WriteEntry(s, a, slot, d);
    forall i | 0 <= i < slot.size ensures Mem(t, a + i) == Some(bytes[i]) {
      assert WriteSeen(s, t, a, slot.size, d, a + i);
      assert Mem(t, a + i).Some? && bytes[i] == ByteAt(t, a + i);
    }
    forall i | 0 <= i < |d| ensures bytes[i] == d[i] {
      assert WriteSeen(s, t, a, slot.size, d, a + i);
    }
    if slot.data.Some? {
      forall i | |d| <= i < slot.size ensures bytes[i] == slot.data.value[i] {
        assert WriteSeen(s, t, a, slot.size, d, a + i);
      }
    }
  }

  /** Writing a slot maps its interval and keeps it alone in its cell. */
  lemma WriteEntry(s: Store, a: u64, slot: Slot, d: seq<byte>)
    requires StoreOk(s) && SlotOk(s, a, slot) && FitsAt(s, a, slot.size)
    ensures var t := WriteOf(s, a, slot.size, d).0;
      && a in t.vam.ivs && t.vam.ivs[a].end == s.vam.ivs[a].end && t.vam.ivs[a].value != UNMAPPED
      && (forall k: u64 :: k in t.vam.ivs && k / CELL == a / CELL ==> k == a)
  {
    hide Tiled, IntervalSpec.Disjoint, AllocOffset, Mem;
    SlotAddressable(s, a, slot);
    LookupFindsWithin(s.vam, a, a, slot.size);
    AvailFits(s, a, a);
    LookupKeepsStore(s, a, a, slot.size, false);
    if s.vam.ivs[a].value == UNMAPPED {
      AllocOffsetTiles(s.vam, a, slot.size);
    }
  }

  /** A write longer than its address throws, having mapped the address all the same. */
  lemma OversizeWrite(s: Store, a: u64, slot: Slot, d: seq<byte>)
    requires StoreOk(s) && SlotOk(s, a, slot) && FitsAt(s, a, slot.size) && slot.size < |d|
    ensures WriteOf(s, a, slot.size, d) == (WriteOf(s, a, slot.size, []).0, Thrown)
  {
    hide StoreOk, LookupOf, SameOutside, Mem;
    SlotAddressable(s, a, slot);
    LookupKeepsStore(s, a, a, slot.size, false);
    WritebIsWrite(s, a, a, slot.size, []);
    Buffers.SplatNone(s.bytes, LookupOf(s.vam, a, slot.size, false).value.offset);
  }

  // -------------------------------------------------------------------- read

  lemma ReadRefines(s: Store, a: u64, slot: Slot)
    requires StoreOk(s) && SlotOk(s, a, slot)
    ensures ReadOf(s, a, slot.size) == slot.data
  {
    hide StoreOk, Mem, ReadOf, ReadbOf;
    SlotAddressable(s, a, slot);
    ReadMeaning(s, a, a, slot.size);
    if slot.data.Some? {
      var d := ReadbOf(s, a, slot.size).value;
      forall i | 0 <= i < slot.size ensures d[i] == slot.data.value[i] {
        assert Mem(s, a + i) == Some(d[i]);
      }
      assert d == slot.data.value;
    }
  }

  // ------------------------------------------------------------------- erase

  lemma EraseRefines(s: Store, m: Memory, a: u64)
    requires StoreOk(s) && Refines(s, m) && a in m
    ensures var (t, r) := EraseOf(s, a, m[a].size);
      && StoreOk(t) && Refines(t, m[a := Slot(m[a].size, None)])
      && r == if m[a].data.Some? then Success else Failure
  {
    hide StoreOk, Mem, EraseOf, Translate;
    var size := m[a].size;
    var (t, r) := EraseOf(s, a, size);
    SlotAddressable(s, a, m[a]);
    AloneWhole(s, a, m[a]);
    EraseMeaning(s, a, size);
    ErasedEntry(s, a, m[a]);
    forall b: u64 | b in m && b != a ensures SlotOk(t, b, m[b]) {
      SlotsApart(s, a, m[a], b, m[b]);
      OtherSlotKept(s, t, b, m[b], a / CELL);
    }
  }

  lemma AloneWhole(s: Store, a: u64, slot: Slot)
    requires StoreOk(s) && SlotOk(s, a, slot)
    ensures IntervalSpec.At(s.vam.ivs, a).Some? && WholeMapped(s.vam.ivs, a, a + slot.size - 1)
    ensures MeetsAnyMapped(s.vam.ivs, a, a + slot.size - 1) <==> slot.data.Some?
  {
    hide Tiled, Mem;
    IntervalSpec.AtCovered(s.vam.ivs, a, a);
    forall k: u64 | k in s.vam.ivs && k <= a + slot.size - 1 && a <= s.vam.ivs[k].end ensures k == a {
      assert !(k < a) && !(a < k);
    }
    assert slot.data.Some? ==> MeetsMapped(s.vam.ivs, a, a, a + slot.size - 1);
  }

  lemma ErasedEntry(s: Store, a: u64, slot: Slot)
    requires StoreOk(s) && SlotOk(s, a, slot)
    ensures SlotOk(EraseOf(s, a, slot.size).0, a, Slot(slot.size, None))
  {
    hide Tiled, Mem, IntervalSpec.Assign, AnyFrees, AddFreed, CallsOf, CellsOk;
    SlotAddressable(s, a, slot);
    AloneWhole(s, a, slot);
    DelSucceedsIff(s.vam, a, slot.size);
    AssignAlone(s.vam.ivs, a, UNMAPPED, a / CELL, s.meta.highBits);
  }

  // ------------------------------------------------- allocate, close, reopen

  lemma AllocRefines(s: Store, m: Memory, size: u64)
    requires StoreOk(s) && Refines(s, m) && 0 < size < CELL && s.meta.highBits + 1 < CELLS
    ensures var (t, a) := AllocAddrOf(s, size);
      a.addr !in m && StoreOk(t) && Refines(t, m[a.addr := Slot(size, None)])
  {
    hide StoreOk, Mem, AllocAddrOf;
    var (t, a) := AllocAddrOf(s, size);
    AllocAddrMeaning(s, size);
    NewSlotAlone(s, size);
    StoreBounds(s);
    var c := a.addr / CELL;
    forall b: u64 | b in m ensures SlotOk(t, b, m[b]) && b != a.addr {
      assert b / CELL != c;
      OtherSlotKept(s, t, b, m[b], c);
    }
  }

  lemma NewSlotAlone(s: Store, size: u64)
    requires StoreOk(s) && 0 < size < CELL && s.meta.highBits + 1 < CELLS
    ensures var c := s.meta.highBits + 1;
      && (c * CELL) % CELL == 0 && (c * CELL) / CELL == c
      && forall k: u64 :: k in s.vam.ivs ==> k / CELL != c
  {
  }

  lemma ReopenRefines(s: Store, m: Memory)
    requires StoreOk(s) && Refines(s, m) && CloseFits(s)
    ensures StoreOk(ReopenedOf(s)) && Refines(ReopenedOf(s), m)
  {
    hide StoreOk, Mem, ReopenedOf, Translate;
    var t := ReopenedOf(s);
    CloseReopenIdentity(s);
    forall a: u64 | a in m ensures SlotOk(t, a, m[a]) {
      SlotAddressable(s, a, m[a]);
      forall x | a <= x < a + m[a].size ensures Mem(t, x) == Mem(s, x) {
        CellOf(x as u64, a / CELL);
      }
      OtherSlotKept(s, t, a, m[a], 1);
    }
  }

  // ---------------------------------------------------------------- the runs

  /** The memory the storage shows after a step. */
  ghost function Next(s: Store, m: Memory, op: Op): Memory
    requires StoreOk(s) && Refines(s, m) && Enabled(s, m, op)
  {
    var (t, reply) := Step(s, m, op);
    match op
    case GetRandomAddress(size) => m[reply.addr := Slot(size, None)]
    case Write(a, d) => m[a := Slot(m[a].size, Some(SeenBytes(t, a, m[a].size)))]
    case Read(a) => m
    case Erase(a) => m[a := Slot(m[a].size, None)]
    case CloseReopen => m
  }

  /** Every step of the storage is a step of the plain memory, with the same reply. */
  lemma StepRefines(s: Store, m: Memory, op: Op)
    requires StoreOk(s) && Refines(s, m) && Enabled(s, m, op)
    ensures StoreOk(Step(s, m, op).0) && Refines(Step(s, m, op).0, Next(s, m, op))
    ensures MemoryStep(m, op, Step(s, m, op).1, Next(s, m, op))
  {
    hide StoreOk, Mem, WriteOf, ReadOf, EraseOf, AllocAddrOf, ReopenedOf, ReopenStep, SeenBytes;
    match op
    case GetRandomAddress(size) => AllocRefines(s, m, size);
    case Write(a, d) =>
      if |d| <= m[a].size {
        WriteRefines(s, m, a, d);
      } else {
        OversizeWrite(s, a, m[a], d);
        WriteRefines(s, m, a, []);
      }
    case Read(a) => ReadRefines(s, a, m[a]);
    case Erase(a) => EraseRefines(s, m, a);
    case CloseReopen =>
      ReopenStepSucceeds(s);
      ReopenRefines(s, m);
  }

  /** Every operation is enabled when its turn comes. */
  ghost predicate CanRun(s: Store, m: Memory, ops: seq<Op>)
    requires StoreOk(s) && Refines(s, m)
    decreases |ops|
  {
    ops == [] ||
    (Enabled(s, m, ops[0]) &&
     (StepRefines(s, m, ops[0]);
      CanRun(Step(s, m, ops[0]).0, Next(s, m, ops[0]), ops[1..])))
  }

  /** What the storage replies over a run. */
  ghost function Replies(s: Store, m: Memory, ops: seq<Op>): (r: seq<Reply>)
    requires StoreOk(s) && Refines(s, m) && CanRun(s, m, ops)
    ensures |r| == |ops|
    decreases |ops|
  {
    if ops == [] then []
    else
      StepRefines(s, m, ops[0]);
      [Step(s, m, ops[0]).1] + Replies(Step(s, m, ops[0]).0, Next(s, m, ops[0]), ops[1..])
  }

  /** The plain memory can reply like this. */
  ghost predicate MemoryRun(m: Memory, ops: seq<Op>, replies: seq<Reply>)
    decreases |ops|
  {
    |replies| == |ops| &&
    (ops == [] || exists n: Memory :: MemoryStep(m, ops[0], replies[0], n) && MemoryRun(n, ops[1..], replies[1..]))
  }

  /** Over any run, the storage replies as a plain map of slots does. */
  lemma {:induction false} RunRefines(s: Store, m: Memory, ops: seq<Op>)
    requires StoreOk(s) && Refines(s, m) && CanRun(s, m, ops)
    ensures MemoryRun(m, ops, Replies(s, m, ops))
    decreases |ops|
  {
    hide StoreOk, Refines, MemoryStep, Step, Next, Enabled;
    if ops != [] {
      StepRefines(s, m, ops[0]);
      var t, n := Step(s, m, ops[0]).0, Next(s, m, ops[0]);
      RunRefines(t, n, ops[1..]);
      assert Replies(s, m, ops)[1..] == Replies(t, n, ops[1..]);
    }
  }

  ghost predicate Touches(op: Op, a: u64) {
    match op
    case Write(b, _) => b == a
    case Erase(b) => b == a
    case _ => false
  }

  /** In any run of the memory, a read returns the bytes the slot had when it was last touched. */
  lemma {:induction false} ReadsLastValue(m: Memory, ops: seq<Op>, replies: seq<Reply>, a: u64)
    requires a in m && MemoryRun(m, ops, replies) && ops != []
    requires forall i :: 0 <= i < |ops| ==> !Touches(ops[i], a)
    requires ops[|ops| - 1] == Read(a)
    ensures replies[|ops| - 1] == Bytes(m[a].data)
    decreases |ops|
  {
    var n: Memory :| MemoryStep(m, ops[0], replies[0], n) && MemoryRun(n, ops[1..], replies[1..]);
    if |ops| > 1 {
      assert !Touches(ops[0], a);
      assert a in n && n[a] == m[a];
      ReadsLastValue(n, ops[1..], replies[1..], a);
    }
  }

  /** Whatever else a run does, reading an address after a full write returns what was written. */
  lemma ReadsLastWrite(m: Memory, ops: seq<Op>, replies: seq<Reply>, a: u64, d: seq<byte>)
    requires a in m && MemoryRun(m, ops, replies) && 1 < |ops|
    requires ops[0] == Write(a, d) && |d| == m[a].size && ops[|ops| - 1] == Read(a)
    requires forall i :: 1 <= i < |ops| ==> !Touches(ops[i], a)
    ensures replies[|ops| - 1] == Bytes(Some(d))
  {
    var n: Memory :| MemoryStep(m, ops[0], replies[0], n) && MemoryRun(n, ops[1..], replies[1..]);
    assert n[a].data.value[..|d|] == n[a].data.value;
    ReadsLastValue(n, ops[1..], replies[1..], a);
  }

  /** Whatever else a run does, reading an erased address is rejected until it is written again. */
  lemma ErasedReadsRejected(m: Memory, ops: seq<Op>, replies: seq<Reply>, a: u64)
    requires a in m && MemoryRun(m, ops, replies) && 1 < |ops|
    requires ops[0] == Erase(a) && ops[|ops| - 1] == Read(a)
    requires forall i :: 1 <= i < |ops| ==> !Touches(ops[i], a)
    ensures replies[|ops| - 1] == Bytes(None)
  {
    var n: Memory :| MemoryStep(m, ops[0], replies[0], n) && MemoryRun(n, ops[1..], replies[1..]);
    ReadsLastValue(n, ops[1..], replies[1..], a);
  }

  /** A file without the magic number starts the refinement off: its static section is the one slot, full of zeros. */
  lemma NewFileRefines(p: CodecOrder.Order, b: seq<byte>, staticSize: u64)
    requires 0 < staticSize < CELL && META_SIZE + staticSize <= |b| < UNMAPPED && MagicOf(b) != MAGIC
    ensures OpenOf(p, b, staticSize).Some? && StoreOk(OpenOf(p, b, staticSize).value)
    ensures Refines(OpenOf(p, b, staticSize).value,
                    map[3 * CELL := Slot(staticSize, Some(Codec.Zeros(staticSize)))])
  {
    hide StoreOk, Mem, NewOf, ReopenOf;
    NewMeaning(b, staticSize);
    var s := NewOf(b, staticSize).value;
    var z := Codec.Zeros(staticSize);
    forall i | 0 <= i < |z| ensures Mem(s, 3 * CELL + i) == Some(z[i]) {
      CellOf(3 * CELL + i, 3);
    }
    assert HEADER / CELL == 2 && (3 * CELL) / CELL == 3;
  }
}

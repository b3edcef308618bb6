/**
 The refinement of the object store: over any run of its operations and of the
 storage's own on other addresses, closing and reopening included, it replies as a
 plain map from indices to objects does, and the other addresses as a plain memory.
 */
module ObjectRuns {
  import opened Machine
  import opened Addresses
  import Cells
  import opened Codec
  import opened StorageSpec
  import opened ObjectSpec
  import opened ObjectFill
  import opened Elsewhere
  import Slots

  datatype Op =
    | Put(index: u64, v: Value, keep: bool)
    | Get(index: u64)
    | GetRef(index: u64)
    | Clear(index: u64)
    | FillEmpty(start: u64, end: u64, f: map<u64, Value>)
    | Storage(op: Slots.Op)

  datatype Reply = Done(r: Result) | Got(v: Option<Value>) | Counted(n: int) | Other(reply: Slots.Reply)

  /** The object store, the storage below it, and what is at the storage's other addresses. */
  datatype State = State(o: Objs, s: Store, m: Slots.Memory)

  datatype Plain = Plain(objects: Objects, m: Slots.Memory)

  // ---------------------------------------------------------------- the stores

  /**
   Objects have the store's type, whether or not there is a block for them; a clear does
   not meet a mark without an object, for which the source follows an iterator past the
   end; a step elsewhere leaves the file space the tail may need.
   */
  ghost predicate Enabled(a: State, ty: Ty, op: Op) {
    match op
    case Put(i, v, _) => i < U64_MAX && HasType(v, ty) && 0 < Size(v) < U64_LIMIT
    case Clear(i) => Has(a.o, i) ==> i in a.o.addrs
    case FillEmpty(start, end, f) => end < U64_MAX && Fillers(ty, f, start, end)
    case Storage(op) =>
      Slots.Enabled(a.s, a.m, op) && MaxAfter(a.s, a.m, op) + a.o.tail.size <= |a.s.bytes|
    case _ => true
  }

  /** Objects find blocks: what decides whether a step succeeds. */
  ghost predicate Blocks(a: State, ty: Ty, op: Op)
    requires Enabled(a, ty, op)
  {
    match op
    case Put(i, v, _) => CanHold(a.o, i, Size(v))
    case FillEmpty(start, end, f) => CanFill(a.o, start, end, f)
    case _ => true
  }

  /** Both stores are sound, and the object store's base has a cell to itself. */
  ghost predicate Ready(a: State, ty: Ty, p: Plain) {
    && Holds(a.o, a.s, ty, p.objects) && RoomForTail(a.o, a.s)
    && BaseCell(a.o.base, a.s)
    && a.m == p.m && Slots.Refines(a.s, a.m)
    && Beside(a.m, a.o.base)
  }

  /** The base lies in a cell that has been handed out. */
  ghost predicate BaseCell(base: Addr, s: Store) {
    InOneCell(base) && base.addr / CELL <= s.meta.highBits
  }

  /** No other address has the base's cell. */
  ghost predicate Beside(m: Slots.Memory, base: Addr) {
    forall x: u64 :: x in m ==> x / CELL != base.addr / CELL
  }

  lemma ReadyStore(a: State, ty: Ty, p: Plain)
    requires Ready(a, ty, p)
    ensures StoreOk(a.s) && Slots.Refines(a.s, a.m) && Holds(a.o, a.s, ty, p.objects) && a.m == p.m
  {
  }

  /** The stores' own step, with the reply `reply`, to the state `b`. */
  ghost predicate StepTo(a: State, ty: Ty, op: Op, reply: Reply, b: State) {
    match op
    case Put(i, v, keep) =>
      0 < Size(v) < U64_LIMIT && var (o, s, r) := PutOf(a.o, a.s, i, v, keep); b == State(o, s, a.m) && reply == Done(r)
    case Get(i) => b == a && reply == Got(GetOf(a.o, a.s, ty, i))
    case GetRef(i) => b == a.(o := KeptOf(a.o, a.s, ty, i)) && reply == Got(GetOf(a.o, a.s, ty, i))
    case Clear(i) =>
      (Has(a.o, i) ==> i in a.o.addrs) && b == a.(o := ClearOf(a.o, i)) && reply == Done(Success)
    case FillEmpty(start, end, f) =>
      end < U64_MAX && Fillers(ty, f, start, end) &&
      var (o, s, n, r) := FillOf(a.o, a.s, ty, start, end, f, 0);
      b == State(o, s, a.m) && reply == if r == Success then Counted(n) else Done(r)
    case Storage(op) =>
      StoreOk(a.s) && Slots.Refines(a.s, a.m) && Slots.Enabled(a.s, a.m, op) &&
      var (s, r) := Slots.Step(a.s, a.m, op);
      b == State(a.o, s, Slots.Next(a.s, a.m, op)) && reply == Other(r)
  }

  // -------------------------------------------------------------- a plain map

  /**
   What a plain map of objects beside a plain memory does. A put may be refused, and then
   empties its index; filling may be refused at one index, and then empties that one.
   */
  ghost predicate PlainStep(p: Plain, op: Op, reply: Reply, q: Plain) {
    match op
    case Put(i, v, _) =>
      || (reply == Done(Success) && q == p.(objects := p.objects[i := Some(v)]))
      || (reply == Done(Thrown) && q == p.(objects := p.objects[i := None]))
    case Get(i) => q == p && reply.Got? && GotOk(reply.v, p.objects, i)
    case GetRef(i) => q == p && reply.Got? && GotOk(reply.v, p.objects, i)
    case Clear(i) => q == p.(objects := p.objects - {i}) && reply == Done(Success)
    case FillEmpty(start, end, f) => end < U64_MAX && q.m == p.m && FilledOr(p.objects, q.objects, start, end, f, reply)
    case Storage(op) => q.objects == p.objects && reply.Other? && Slots.MemoryStep(p.m, op, reply.reply, q.m)
  }

  ghost predicate FilledOr(objects: Objects, after: Objects, start: u64, end: u64, f: map<u64, Value>, reply: Reply)
    requires end < U64_MAX
  {
    || (after == Filled(objects, f, start, end + 1) && reply == Counted(|after| - |objects|))
    || (reply == Done(Thrown) && exists j: u64 :: RefusedAt(objects, after, start, end, f, j))
  }

  // --------------------------------------------------------------- refinement

  /** A change that keeps to the base range leaves every slot as it was. */
  lemma SlotsKept(a: State, ty: Ty, p: Plain, o: Objs, t: Store, objects: Objects)
    requires Ready(a, ty, p) && Holds(o, t, ty, objects) && RoomForTail(o, t) && OnlyBase(a.o, a.s, o, t)
    ensures Ready(State(o, t, a.m), ty, Plain(objects, p.m))
  {
    hide Holds, RoomForTail, Mem, StoreOk, Slots.SlotOk;
    ReadyStore(a, ty, p);
    var c := a.o.base.addr / CELL;
    forall x: u64 | x in a.m ensures Slots.SlotOk(t, x, a.m[x]) {
      Slots.SlotOfMemory(a.s, a.m, x);
      Slots.SlotAddressable(a.s, x, a.m[x]);
      SlotOffBase(a.o.base, x, a.m[x].size);
      Slots.OtherSlotKept(a.s, t, x, a.m[x], c);
    }
  }

  lemma SlotOffBase(base: Addr, x: u64, size: u64)
    requires 0 < size && x + size <= U64_LIMIT
    requires InOneCell(base) && Cells.InCell(x, x + size - 1, x / CELL) && x / CELL != base.addr / CELL
    ensures x + size <= base.addr || base.addr + base.size <= x
  {
  }

  /** Only the cache or the marks change: the storage is as it was. */
  lemma StoreUntouched(o: Objs, s: Store, q: Objs)
    requires q.base == o.base
    ensures OnlyBase(o, s, q, s)
  {
  }

  lemma PutRefines(a: State, ty: Ty, p: Plain, index: u64, v: Value, keep: bool)
    requires Ready(a, ty, p) && Enabled(a, ty, Put(index, v, keep))
    ensures var (o, s, r) := PutOf(a.o, a.s, index, v, keep);
      var objects := p.objects[index := if CanHold(a.o, index, Size(v)) then Some(v) else None];
      && r == (if CanHold(a.o, index, Size(v)) then Success else Thrown)
      && Ready(State(o, s, a.m), ty, Plain(objects, p.m))
  {
    hide Holds, RoomForTail, OnlyBase, PutOf, CanHold, HasType, Slots.Refines, Stuck;
    var (o, s, r) := PutOf(a.o, a.s, index, v, keep);
    if CanHold(a.o, index, Size(v)) {
      PutOnlyBase(a.o, a.s, ty, p.objects, index, v, keep);
      SlotsKept(a, ty, p, o, s, p.objects[index := Some(v)]);
    } else {
      PutThrowsOnlyBase(a.o, a.s, ty, p.objects, index, v, keep);
      SlotsKept(a, ty, p, o, s, p.objects[index := None]);
    }
  }

  lemma ReadRefines(a: State, ty: Ty, p: Plain, index: u64)
    requires Ready(a, ty, p)
    ensures GotOk(GetOf(a.o, a.s, ty, index), p.objects, index)
    ensures Ready(a.(o := KeptOf(a.o, a.s, ty, index)), ty, p)
  {
    hide Holds, OnlyBase, GetOf, GotOk, Slots.Refines;
    GetIsObject(a.o, a.s, ty, p.objects, index);
    KeptHolds(a.o, a.s, ty, p.objects, index);
    var o := KeptOf(a.o, a.s, ty, index);
    StoreUntouched(a.o, a.s, o);
    SlotsKept(a, ty, p, o, a.s, p.objects);
  }

  lemma ClearRefines(a: State, ty: Ty, p: Plain, index: u64)
    requires Ready(a, ty, p) && Enabled(a, ty, Clear(index))
    ensures Ready(a.(o := ClearOf(a.o, index)), ty, p.(objects := p.objects - {index}))
  {
    ReadyStore(a, ty, p);
    MarkHasObject(a.o, a.s, ty, p.objects, index);
    hide Holds, OnlyBase, Slots.Refines;
    ClearHolds(a.o, a.s, ty, p.objects, index);
    var o := ClearOf(a.o, index);
    StoreUntouched(a.o, a.s, o);
    SlotsKept(a, ty, p, o, a.s, p.objects - {index});
  }

  lemma MarkHasObject(o: Objs, s: Store, ty: Ty, objects: Objects, index: u64)
    requires Holds(o, s, ty, objects) && (Has(o, index) ==> index in o.addrs)
    ensures index in objects ==> Present(objects, index)
  {
  }

  lemma FillRefines(a: State, ty: Ty, p: Plain, start: u64, end: u64, f: map<u64, Value>) returns (objects: Objects)
    requires Ready(a, ty, p) && Enabled(a, ty, FillEmpty(start, end, f))
    ensures var (o, s, n, r) := FillOf(a.o, a.s, ty, start, end, f, 0);
      && Ready(State(o, s, a.m), ty, Plain(objects, p.m))
      && r == (if CanFill(a.o, start, end, f) then Success else Thrown)
      && FilledOr(p.objects, objects, start, end, f, if r == Success then Counted(n) else Done(r))
  {
    hide Holds, RoomForTail, OnlyBase, FillOf, CanFill, Sized, HasType, Size, Filled, Slots.Refines, Stuck;
    var (o, s, n, r) := FillOf(a.o, a.s, ty, start, end, f, 0);
    if CanFill(a.o, start, end, f) {
      FillHolds(a.o, a.s, ty, p.objects, start, end, f, 0);
      objects := Filled(p.objects, f, start, end + 1);
    } else {
      var j := FillThrows(a.o, a.s, ty, p.objects, start, end, f, 0);
      objects := Filled(p.objects, f, start, j)[j := None];
      assert RefusedAt(p.objects, objects, start, end, f, j);
    }
    SlotsKept(a, ty, p, o, s, objects);
  }

  /** Whatever the storage does at its other addresses leaves the objects as they are. */
  lemma StorageRefines(a: State, ty: Ty, p: Plain, op: Slots.Op)
    requires Ready(a, ty, p) && Enabled(a, ty, Storage(op))
    requires StoreOk(a.s) && Slots.Refines(a.s, a.m) && Slots.Enabled(a.s, a.m, op)
    ensures var (s, r) := Slots.Step(a.s, a.m, op);
      var n := Slots.Next(a.s, a.m, op);
      Ready(State(a.o, s, n), ty, p.(m := n)) && Slots.MemoryStep(p.m, op, r, n)
  {
    ReadyParts(a, ty, p);
    StorageRoom(a, ty, op);
    hide Ready, Enabled, StoreOk, Mem, Holds, RoomForTail, Beside, BaseCell, MaxAfter;
    hide Slots.Refines, Slots.Step, Slots.Next, Slots.MemoryStep, Slots.Enabled;
    Slots.StepRefines(a.s, a.m, op);
    StorageLeavesObjects(a.o, a.s, ty, p.objects, a.m, op);
    NextCells(a, op);
    MakeReady(a.o, Slots.Step(a.s, a.m, op).0, Slots.Next(a.s, a.m, op), ty, p.objects);
  }

  lemma ReadyParts(a: State, ty: Ty, p: Plain)
    requires Ready(a, ty, p)
    ensures Holds(a.o, a.s, ty, p.objects) && BaseCell(a.o.base, a.s) && Beside(a.m, a.o.base) && a.m == p.m
  {
  }

  lemma StorageRoom(a: State, ty: Ty, op: Slots.Op)
    requires Enabled(a, ty, Storage(op))
    ensures MaxAfter(a.s, a.m, op) + a.o.tail.size <= |a.s.bytes|
  {
  }

  lemma MakeReady(o: Objs, t: Store, n: Slots.Memory, ty: Ty, objects: Objects)
    requires Holds(o, t, ty, objects) && RoomForTail(o, t) && BaseCell(o.base, t)
    requires Slots.Refines(t, n) && Beside(n, o.base)
    ensures Ready(State(o, t, n), ty, Plain(objects, n))
  {
  }

  lemma StorageLeavesObjects(o: Objs, s: Store, ty: Ty, objects: Objects, m: Slots.Memory, op: Slots.Op)
    requires Holds(o, s, ty, objects) && BaseCell(o.base, s)
    requires StoreOk(s) && Slots.Refines(s, m) && Slots.Enabled(s, m, op)
    requires Beside(m, o.base)
    ensures var t := Slots.Step(s, m, op).0;
      && Holds(o, t, ty, objects) && BaseCell(o.base, t)
      && (MaxAfter(s, m, op) + o.tail.size <= |s.bytes| ==> RoomForTail(o, t))
  {
    hide StoreOk, Mem, Slots.Refines, Slots.Step, Slots.Next, Slots.MemoryStep, Slots.Enabled, MaxAfter;
    hide Cells.SameOutside, Holds;
    var c := o.base.addr / CELL;
    BaseBehindHeader(o, s, ty, objects);
    var d := StepElsewhere(s, m, op, c);
    Slots.StepRefines(s, m, op);
    var t := Slots.Step(s, m, op).0;
    forall x | o.base.addr <= x < o.base.addr + o.base.size ensures Mem(t, x) == Mem(s, x) {
      assert c * CELL <= x < c * CELL + CELL;
    }
    OthersLeaveObjects(o, s, t, ty, objects, d);
  }

  lemma BaseBehindHeader(o: Objs, s: Store, ty: Ty, objects: Objects)
    requires Holds(o, s, ty, objects)
    ensures 3 <= o.base.addr / CELL
  {
  }

  /** A step gives no slot the base's cell. */
  lemma NextCells(a: State, op: Slots.Op)
    requires BaseCell(a.o.base, a.s) && Beside(a.m, a.o.base)
    requires StoreOk(a.s) && Slots.Refines(a.s, a.m) && Slots.Enabled(a.s, a.m, op)
    ensures Beside(Slots.Next(a.s, a.m, op), a.o.base)
  {
    hide StoreOk, Holds, Slots.Refines, Slots.SlotOk, AllocAddrOf, WriteOf, EraseOf, Slots.ReopenStep, Mem;
    if op.GetRandomAddress? {
      AllocAddrMeaning(a.s, op.size);
      Slots.NewSlotAlone(a.s, op.size);
    }
  }

  /** The object store did what it was asked to. */
  predicate Succeeded(reply: Reply) {
    reply != Done(Thrown)
  }

  lemma PutStep(a: State, ty: Ty, p: Plain, op: Op, reply: Reply, b: State) returns (q: Plain)
    requires Ready(a, ty, p) && Enabled(a, ty, op) && StepTo(a, ty, op, reply, b) && op.Put?
    ensures Ready(b, ty, q) && PlainStep(p, op, reply, q) && (Succeeded(reply) <==> Blocks(a, ty, op))
  {
    hide Ready, CanHold, CanFill, Fillers, Filled, FilledOr, FillOf, PutOf, GetOf, KeptOf, ClearOf, GotOk, HasType;
    hide StoreOk, Slots.Refines, Slots.Enabled, Slots.MemoryStep, Slots.Step, Slots.Next, MaxAfter;
    PutRefines(a, ty, p, op.index, op.v, op.keep);
    q := Plain(p.objects[op.index := if CanHold(a.o, op.index, Size(op.v)) then Some(op.v) else None], p.m);
  }

  lemma ReadStep(a: State, ty: Ty, p: Plain, op: Op, reply: Reply, b: State) returns (q: Plain)
    requires Ready(a, ty, p) && Enabled(a, ty, op) && StepTo(a, ty, op, reply, b) && (op.Get? || op.GetRef?)
    ensures Ready(b, ty, q) && PlainStep(p, op, reply, q) && (Succeeded(reply) <==> Blocks(a, ty, op))
  {
    hide Ready, CanHold, CanFill, Fillers, Filled, FilledOr, FillOf, PutOf, GetOf, KeptOf, ClearOf, GotOk, HasType;
    hide StoreOk, Slots.Refines, Slots.Enabled, Slots.MemoryStep, Slots.Step, Slots.Next, MaxAfter;
    ReadRefines(a, ty, p, op.index);
    q := p;
  }

  lemma ClearStep(a: State, ty: Ty, p: Plain, op: Op, reply: Reply, b: State) returns (q: Plain)
    requires Ready(a, ty, p) && Enabled(a, ty, op) && StepTo(a, ty, op, reply, b) && op.Clear?
    ensures Ready(b, ty, q) && PlainStep(p, op, reply, q) && (Succeeded(reply) <==> Blocks(a, ty, op))
  {
    hide Ready, CanHold, CanFill, Fillers, Filled, FilledOr, FillOf, PutOf, GetOf, KeptOf, ClearOf, GotOk, HasType;
    hide StoreOk, Slots.Refines, Slots.Enabled, Slots.MemoryStep, Slots.Step, Slots.Next, MaxAfter;
    ClearRefines(a, ty, p, op.index);
    q := p.(objects := p.objects - {op.index});
  }

  lemma FillStep(a: State, ty: Ty, p: Plain, op: Op, reply: Reply, b: State) returns (q: Plain)
    requires Ready(a, ty, p) && Enabled(a, ty, op) && StepTo(a, ty, op, reply, b) && op.FillEmpty?
    ensures Ready(b, ty, q) && PlainStep(p, op, reply, q) && (Succeeded(reply) <==> Blocks(a, ty, op))
  {
    hide Ready, CanHold, CanFill, Fillers, Filled, FilledOr, FillOf, PutOf, GetOf, KeptOf, ClearOf, GotOk, HasType;
    hide StoreOk, Slots.Refines, Slots.Enabled, Slots.MemoryStep, Slots.Step, Slots.Next, MaxAfter;
    var objects := FillRefines(a, ty, p, op.start, op.end, op.f);
    q := Plain(objects, p.m);
  }

  lemma StorageStep(a: State, ty: Ty, p: Plain, op: Op, reply: Reply, b: State) returns (q: Plain)
    requires Ready(a, ty, p) && Enabled(a, ty, op) && StepTo(a, ty, op, reply, b) && op.Storage?
    ensures Ready(b, ty, q) && PlainStep(p, op, reply, q) && (Succeeded(reply) <==> Blocks(a, ty, op))
  {
    hide Ready, CanHold, CanFill, Fillers, Filled, FilledOr, FillOf, PutOf, GetOf, KeptOf, ClearOf, GotOk, HasType;
    hide StoreOk, Slots.Refines, Slots.Enabled, Slots.MemoryStep, Slots.Step, Slots.Next, MaxAfter;
    StorageRefines(a, ty, p, op.op);
    q := p.(m := Slots.Next(a.s, a.m, op.op));
  }

  /**
   Every step is a step of the plain map and memory, with the same reply; objects are
   refused exactly where blocks are missing.
   */
  lemma StepRefines(a: State, ty: Ty, p: Plain, op: Op, reply: Reply, b: State) returns (q: Plain)
    requires Ready(a, ty, p) && Enabled(a, ty, op) && StepTo(a, ty, op, reply, b)
    ensures Ready(b, ty, q) && PlainStep(p, op, reply, q) && (Succeeded(reply) <==> Blocks(a, ty, op))
  {
    hide Blocks;
    hide Ready, Enabled, StepTo, PlainStep;
    match op
    case Put(_, _, _) => q := PutStep(a, ty, p, op, reply, b);
    case Get(_) => q := ReadStep(a, ty, p, op, reply, b);
    case GetRef(_) => q := ReadStep(a, ty, p, op, reply, b);
    case Clear(_) => q := ClearStep(a, ty, p, op, reply, b);
    case FillEmpty(_, _, _) => q := FillStep(a, ty, p, op, reply, b);
    case Storage(_) => q := StorageStep(a, ty, p, op, reply, b);
  }

  /** No enabled step is stuck. */
  lemma StepExists(a: State, ty: Ty, p: Plain, op: Op) returns (reply: Reply, b: State)
    requires Ready(a, ty, p) && Enabled(a, ty, op)
    ensures StepTo(a, ty, op, reply, b)
  {
    ReadyStore(a, ty, p);
    hide Ready, StepTo, Holds, StoreOk, Fillers, HasType, MaxAfter, Slots.Refines, Slots.Enabled;
    if op.Storage? {
      reply, b := StorageStepExists(a, ty, op);
    } else {
      reply, b := ObjectStepExists(a, ty, op);
    }
  }

  lemma ObjectStepExists(a: State, ty: Ty, op: Op) returns (reply: Reply, b: State)
    requires !op.Storage?
    requires op.Put? ==> 0 < Size(op.v) < U64_LIMIT
    requires op.Clear? && Has(a.o, op.index) ==> op.index in a.o.addrs
    requires op.FillEmpty? ==> op.end < U64_MAX && Fillers(ty, op.f, op.start, op.end)
    ensures StepTo(a, ty, op, reply, b)
  {
    hide Fillers, FillOf, PutOf, GetOf, KeptOf, ClearOf, Has;
    match op
    case Put(i, v, keep) =>
      var (o, s, r) := PutOf(a.o, a.s, i, v, keep);
      reply, b := Done(r), State(o, s, a.m);
    case Get(i) => reply, b := Got(GetOf(a.o, a.s, ty, i)), a;
    case GetRef(i) => reply, b := Got(GetOf(a.o, a.s, ty, i)), a.(o := KeptOf(a.o, a.s, ty, i));
    case Clear(i) => reply, b := Done(Success), a.(o := ClearOf(a.o, i));
    case FillEmpty(start, end, f) =>
      var (o, s, n, r) := FillOf(a.o, a.s, ty, start, end, f, 0);
      reply, b := if r == Success then Counted(n) else Done(r), State(o, s, a.m);
  }

  lemma StorageStepExists(a: State, ty: Ty, op: Op) returns (reply: Reply, b: State)
    requires op.Storage? && StoreOk(a.s) && Slots.Refines(a.s, a.m) && Slots.Enabled(a.s, a.m, op.op)
    ensures StepTo(a, ty, op, reply, b)
  {
    hide StoreOk, Slots.Refines, Slots.Enabled, Slots.Step, Slots.Next;
    var (s, r) := Slots.Step(a.s, a.m, op.op);
    reply, b := Other(r), State(a.o, s, Slots.Next(a.s, a.m, op.op));
  }

  // ---------------------------------------------------------------- the runs

  /** The stores run through `ops` and reply like this. */
  ghost predicate Run(a: State, ty: Ty, ops: seq<Op>, replies: seq<Reply>)
    decreases |ops|
  {
    |replies| == |ops| &&
    (ops == [] ||
     (Enabled(a, ty, ops[0]) &&
      exists b: State :: StepTo(a, ty, ops[0], replies[0], b) && Run(b, ty, ops[1..], replies[1..])))
  }

  /** The plain map and memory can reply like this. */
  ghost predicate PlainRun(p: Plain, ops: seq<Op>, replies: seq<Reply>)
    decreases |ops|
  {
    |replies| == |ops| &&
    (ops == [] || exists q: Plain :: PlainStep(p, ops[0], replies[0], q) && PlainRun(q, ops[1..], replies[1..]))
  }

  /** Over any run, the object store and the storage below it reply as a plain map of objects beside a plain memory. */
  lemma {:induction false} RunRefines(a: State, ty: Ty, p: Plain, ops: seq<Op>, replies: seq<Reply>)
    requires Ready(a, ty, p) && Run(a, ty, ops, replies)
    ensures PlainRun(p, ops, replies)
    decreases |ops|
  {
    hide Ready, Enabled, StepTo, PlainStep;
    if ops != [] {
      var b: State :| StepTo(a, ty, ops[0], replies[0], b) && Run(b, ty, ops[1..], replies[1..]);
      var q := StepRefines(a, ty, p, ops[0], replies[0], b);
      RunRefines(b, ty, q, ops[1..], replies[1..]);
    }
  }

  predicate Touches(op: Op, index: u64) {
    match op
    case Put(i, _, _) => i == index
    case Clear(i) => i == index
    case _ => false
  }

  /** Filling a range leaves what is there, so only puts and clears at the index count. */
  lemma {:induction false} GetsLastValue(p: Plain, ops: seq<Op>, replies: seq<Reply>, index: u64)
    requires Present(p.objects, index) && PlainRun(p, ops, replies) && ops != []
    requires forall i :: 0 <= i < |ops| ==> !Touches(ops[i], index)
    requires ops[|ops| - 1] == Get(index)
    ensures replies[|ops| - 1].Got? && GotOk(replies[|ops| - 1].v, p.objects, index)
    decreases |ops|
  {
    hide Slots.MemoryStep, Storable, NulFree, Recalls, Filled;
    var q: Plain :| PlainStep(p, ops[0], replies[0], q) && PlainRun(q, ops[1..], replies[1..]);
    if |ops| > 1 {
      assert !Touches(ops[0], index);
      StepKeeps(p, ops[0], replies[0], q, index);
      GetsLastValue(q, ops[1..], replies[1..], index);
    }
  }

  lemma StepKeeps(p: Plain, op: Op, reply: Reply, q: Plain, index: u64)
    requires PlainStep(p, op, reply, q) && !Touches(op, index) && index in p.objects
    ensures index in q.objects && q.objects[index] == p.objects[index]
  {
    hide Slots.MemoryStep, GotOk;
  }

  /** Whatever else a run does, a get returns the object last put at the index; exactly, if it is storable. */
  lemma GetsLastPut(p: Plain, ops: seq<Op>, replies: seq<Reply>, index: u64, v: Value, keep: bool)
    requires PlainRun(p, ops, replies) && 1 < |ops|
    requires ops[0] == Put(index, v, keep) && replies[0] == Done(Success) && ops[|ops| - 1] == Get(index)
    requires forall i :: 1 <= i < |ops| ==> !Touches(ops[i], index)
    ensures replies[|ops| - 1].Got?
    ensures Storable(v) ==> replies[|ops| - 1] == Got(Some(v))
    ensures NulFree(v) ==> replies[|ops| - 1].v.Some? && Recalls(replies[|ops| - 1].v.value, v)
  {
    hide Storable, NulFree, Recalls;
    var q: Plain :| PlainStep(p, ops[0], replies[0], q) && PlainRun(q, ops[1..], replies[1..]);
    GetsLastValue(q, ops[1..], replies[1..], index);
  }

  /** After a refused put the index holds nothing until the next put there. */
  lemma {:induction false} RefusedGetsNothing(p: Plain, ops: seq<Op>, replies: seq<Reply>, index: u64)
    requires index in p.objects && !Present(p.objects, index) && PlainRun(p, ops, replies) && ops != []
    requires forall i :: 0 <= i < |ops| ==> !Touches(ops[i], index)
    requires ops[|ops| - 1] == Get(index)
    ensures replies[|ops| - 1] == Got(None)
    decreases |ops|
  {
    hide Slots.MemoryStep, Filled;
    var q: Plain :| PlainStep(p, ops[0], replies[0], q) && PlainRun(q, ops[1..], replies[1..]);
    if |ops| > 1 {
      assert !Touches(ops[0], index);
      StepKeeps(p, ops[0], replies[0], q, index);
      RefusedGetsNothing(q, ops[1..], replies[1..], index);
    }
  }

  /**
   Runs can start on a new store, over a fresh range, beside any other addresses, if the
   file has space for the range.
   */
  lemma NewReady(s: Store, ty: Ty, size: u64, m: Slots.Memory)
    requires StoreOk(s) && Slots.Refines(s, m)
    requires 0 < size < CELL && s.meta.highBits + 1 < CELLS && s.vam.maxOff + size <= |s.bytes|
    ensures var (t, base) := AllocAddrOf(s, size); Ready(State(NewObjs(base), t, m), ty, Plain(map[], m))
  {
    hide StoreOk, Holds, AllocAddrOf, Mem, Slots.Refines, Slots.SlotOk;
    NewHolds(s, ty, size);
    AllocAddrMeaning(s, size);
    Cells.CellOf((s.meta.highBits + 1) * CELL, s.meta.highBits + 1);
    Slots.AllocRefines(s, m, size);
    var (t, base) := AllocAddrOf(s, size);
    FewerSlots(t, m, m[base.addr := Slots.Slot(size, None)], base.addr);
    SlotCells(s, m);
  }

  lemma FewerSlots(t: Store, m: Slots.Memory, n: Slots.Memory, a: u64)
    requires Slots.Refines(t, n) && a !in m && a in n && n == m[a := n[a]]
    ensures Slots.Refines(t, m)
  {
    hide Slots.SlotOk;
    forall x: u64 | x in m ensures Slots.SlotOk(t, x, m[x]) {
      assert x in n && n[x] == m[x];
    }
  }

  lemma SlotCells(s: Store, m: Slots.Memory)
    requires Slots.Refines(s, m)
    ensures forall x: u64 :: x in m ==> x / CELL <= s.meta.highBits
  {
    forall x: u64 | x in m ensures x / CELL <= s.meta.highBits {
      Slots.SlotOfMemory(s, m, x);
    }
  }
}

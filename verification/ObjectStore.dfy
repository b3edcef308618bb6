/** `SimpleObjectStorage` of include/storage/SimpleObjectStorage.hpp, edited in place. */
module SimpleObjectStorages {
  import opened Machine
  import IntervalSpec
  import opened FreeList
  import Addresses
  import MappingSpec
  import opened Codec
  import CodecOrder
  import Buffers
  import VamCodec
  import opened StorageSpec
  import SimpleStorages
  import Sze
  import opened ObjectSpec
  import opened ObjectFill
  import opened ObjectEffects
  import opened ObjectReload

  /** 2^20 bytes. */
  const DEFAULT_ALLOC_SIZE: u64 := 0x10_0000

  class SimpleObjectStorage {
    const storage: SimpleStorages.SimpleStorage
    /** The type of the objects. */
    const ty: Ty
    var base: Addr
    var tail: Addr
    var objects: map<u64, Value>
    var states: seq<bool>
    var addresses: map<u64, Addr>
    const unused: SetOrderedBySize<Addr>

    /** The objects a client has put and not cleared, and the indices of refused puts. */
    ghost var contents: Objects

    ghost function State(): Objs
      reads this, unused
    {
      Objs(base, tail, objects, states, addresses, unused.data)
    }

    ghost predicate Valid()
      reads this, unused, storage, storage.rma, storage.ra
      reads storage.mapping, storage.mapping.intervals, storage.mapping.empty
    {
      Holds(State(), storage.State(), ty, contents)
    }

    /** The file has space for whatever the tail can still be asked to hold. */
    ghost predicate Roomy()
      reads this, unused, storage, storage.rma, storage.ra
      reads storage.mapping, storage.mapping.intervals, storage.mapping.empty
    {
      RoomForTail(State(), storage.State())
    }

    constructor (storage: SimpleStorages.SimpleStorage, ty: Ty, base: Addr)
      ensures this.storage == storage && this.ty == ty && fresh(unused)
      ensures State() == NewObjs(base) && contents == map[]
    {
      this.storage, this.ty, this.base, this.tail := storage, ty, base, base;
      objects, states, addresses := map[], [], map[];
      unused := new SetOrderedBySize();
      contents := map[];
    }

    /** An empty store over a fresh range of the default size. */
    constructor Fresh(storage: SimpleStorages.SimpleStorage, ty: Ty)
      requires storage.Valid() && storage.ra.highBits + 1 < Addresses.CELLS
      modifies storage.ra, storage.mapping.intervals
      ensures this.storage == storage && this.ty == ty && fresh(unused)
      ensures Valid() && contents == map[]
      ensures State() == NewObjs(base) && base.size == DEFAULT_ALLOC_SIZE
      ensures (storage.State(), base) == AllocAddrOf(old(storage.State()), DEFAULT_ALLOC_SIZE)
      ensures Roomy() <==> storage.mapping.maxOff + DEFAULT_ALLOC_SIZE <= storage.rma.Length
      ensures forall x :: Mem(storage.State(), x) == old(Mem(storage.State(), x))
    {
      hide Mem, StoreOk, AllocAddrOf;
      StoreDisjoint(storage.State());
      AllocAddrMeaning(storage.State(), DEFAULT_ALLOC_SIZE);
      NewHolds(storage.State(), ty, DEFAULT_ALLOC_SIZE);
      SimpleStorages.CellIsRange(storage.ra.highBits, DEFAULT_ALLOC_SIZE);
      var given := storage.GetRandomAddress(DEFAULT_ALLOC_SIZE);
      var range := given.value;
      this.storage, this.ty, this.base, this.tail := storage, ty, range, range;
      objects, states, addresses := map[], [], map[];
      unused := new SetOrderedBySize();
      contents := map[];
    }

    /** A store with the given fields, as read back by `deserializeImpl`. */
    constructor FromState(storage: SimpleStorages.SimpleStorage, ty: Ty, o: Objs)
      ensures this.storage == storage && this.ty == ty && fresh(unused) && State() == o
    {
      var free := new SetOrderedBySize();
      free.data := o.unused;
      this.storage, this.ty, this.base, this.tail := storage, ty, o.base, o.tail;
      objects, states, addresses, unused := o.cache, o.states, o.addrs, free;
      contents := map[];
    }

    predicate Has(index: u64)
      reads this
    {
      index < |states| && states[index]
    }

    method SetState(index: u64, val: bool)
      requires index < U64_MAX || index < |states|
      modifies this`states
      ensures states == ObjectSpec.SetState(old(states), index, val)
    {
      if |states| <= index {
        states := Resized(states, index + 1);
      }
      states := states[index := val];
    }

    /** `None` where the tail is too short and the source throws. */
    method GetNewAddress(size: u64) returns (a: Option<Addr>)
      requires Sorted(unused.data)
      modifies this`tail, unused
      ensures a == match NewAddressOf(old(State()), size) case None => None case Some((_, b)) => Some(b)
      ensures State() == match NewAddressOf(old(State()), size) case None => old(State()) case Some((q, _)) => q
    {
      hide Sorted, SplicedRest, SplicedItem;
      a := unused.Splice(size, AdvanceAddress, U64_MAX);
      if a.Some? {
        return;
      }
      if tail.size < size {
        return None;
      }
      a := Some(FrontOf(tail, size));
      tail := OffsetBy(tail, size);
    }

    method AllocAddrForIndex(index: u64, size: u64) returns (a: Option<Addr>)
      requires Sorted(unused.data)
      modifies this`addresses, this`tail, unused
      ensures (State(), a) == AddressFor(old(State()), index, size)
    {
      hide Sorted, NewAddressOf;
      if index in addresses {
        var oldAddr := addresses[index];
        if size < oldAddr.size {
          return Some(oldAddr);
        }
      }
      addresses := addresses - {index};
      a := GetNewAddress(size);
      if a.Some? {
        addresses := addresses[index := a.value];
      }
    }

    /** Marks the index, finds it a block and stores the object there. */
    method PutImpl(v: Value, index: u64) returns (r: Result)
      requires index < U64_MAX && index !in objects && 0 < Size(v) < U64_LIMIT
      requires PutReady(State(), storage.State(), index, Size(v))
      modifies this`states, this`addresses, this`tail, unused
      modifies storage.rma, storage.ra, storage.mapping`maxAddr, storage.mapping`maxOff
      modifies storage.mapping.intervals, storage.mapping.empty
      ensures (State(), storage.State(), r) == PutOf(old(State()), old(storage.State()), index, v, false)
    {
      assert objects - {index} == objects;
      hide AddressFor, ObjectSpec.SetState, Sze.StoreInto;
      SetState(index, true);
      var a := AllocAddrForIndex(index, Size(v));
      if a.None? {
        return Thrown;
      }
      var placed;
      placed, r := Sze.Serialize(storage, v, a.value);
    }

    /**
     Puts an object at an index. Only this index changes, and no byte outside the base
     range is seen to: it holds the object, or nothing if no block can hold it.
     */
    method Put(index: u64, v: Value, keep: bool) returns (r: Result)
      requires Valid() && index < U64_MAX
      requires HasType(v, ty) && 0 < Size(v) < U64_LIMIT
      modifies this`objects, this`states, this`addresses, this`tail, this`contents, unused
      modifies storage.rma, storage.ra, storage.mapping`maxAddr, storage.mapping`maxOff
      modifies storage.mapping.intervals, storage.mapping.empty
      ensures (State(), storage.State(), r) == PutOf(old(State()), old(storage.State()), index, v, keep)
      ensures old(PutFits(State(), storage.State(), index, v)) ==>
                && r == (if old(CanHold(State(), index, Size(v))) then Success else Thrown)
                && Valid() && contents == old(contents)[index := if r == Success then Some(v) else None]
                && forall x :: !(base.addr <= x < base.addr + base.size) ==>
                     Mem(storage.State(), x) == old(Mem(storage.State(), x))
      ensures old(Roomy()) ==> old(PutFits(State(), storage.State(), index, v)) && Roomy()
    {
      hide Holds, PutOf, PutReady, Mem, HasType, CanHold, RoomForTail, PutFits;
      ghost var o, s := State(), storage.State();
      PutFacts(o, s, ty, contents, index, v, keep);
      objects := objects - {index};
      PutErased(o, State(), s, index, v, keep);
      r := PutImpl(v, index);
      contents := contents[index := if r == Success then Some(v) else None];
      if r == Success && keep {
        objects := objects[index := v];
      }
    }

    /** `put` at a new index, one past all that were ever used. */
    method PutNew(v: Value, keep: bool) returns (index: u64, r: Result)
      requires Valid() && |states| < U64_MAX
      requires HasType(v, ty) && 0 < Size(v) < U64_LIMIT
      modifies this`objects, this`states, this`addresses, this`tail, this`contents, unused
      modifies storage.rma, storage.ra, storage.mapping`maxAddr, storage.mapping`maxOff
      modifies storage.mapping.intervals, storage.mapping.empty
      ensures index == |old(states)| && |states| == index + 1 && index !in old(contents)
      ensures (State(), storage.State(), r) == PutOf(old(WithIndex(State())), old(storage.State()), index, v, keep)
      ensures old(Roomy()) ==>
                && Valid() && Roomy() && r == (if old(CanHold(State(), |states|, Size(v))) then Success else Thrown)
                && contents == old(contents)[index := if r == Success then Some(v) else None]
    {
      hide Holds, Mem, HasType, CanHold, RoomForTail, PutFits, PutOf, Spent;
      index := |states|;
      ghost var o, s := State(), storage.State();
      Lengthen(o, s, ty, contents, index, Size(v));
      HoldsParts(o, s, ty, contents);
      LongerPut(o, s, index, v, keep);
      states := Resized(states, index + 1);
      r := Put(index, v, keep);
    }

    /** The object at an index, from the cache or from storage; `None` where the source throws. */
    method Get(index: u64, keep: bool) returns (r: Option<Value>)
      requires Valid()
      modifies this`objects, this`states
      modifies storage.mapping`maxAddr, storage.mapping`maxOff, storage.mapping.intervals, storage.mapping.empty
      ensures r == GetOf(old(State()), storage.State(), ty, index) && GotOk(r, contents, index)
      ensures State() == if keep then KeptOf(old(State()), storage.State(), ty, index) else old(State())
      ensures Valid() && storage.State() == old(storage.State())
    {
      hide Holds, Sze.DeserializeOf, ObjectSpec.SetState;
      GetFacts(State(), storage.State(), ty, contents, index);
      if !Has(index) {
        return None;
      }
      if index in objects {
        return Some(objects[index]);
      }
      if index !in addresses {
        return None;
      }
      r := Sze.Deserialize(storage, ty, addresses[index]);
      if keep && r.Some? {
        SetState(index, true);
        objects := objects[index := r.value];
      }
    }

    /** As `get`, but what is read stays in the cache, and a copy of the reference is returned. */
    method GetRef(index: u64) returns (r: Option<Value>)
      requires Valid()
      modifies this`objects, this`states
      modifies storage.mapping`maxAddr, storage.mapping`maxOff, storage.mapping.intervals, storage.mapping.empty
      ensures r == GetOf(old(State()), storage.State(), ty, index) && GotOk(r, contents, index)
      ensures State() == KeptOf(old(State()), storage.State(), ty, index)
      ensures r.Some? ==> index in objects
      ensures Valid() && storage.State() == old(storage.State())
    {
      hide Holds, Sze.DeserializeOf, ObjectSpec.SetState;
      GetFacts(State(), storage.State(), ty, contents, index);
      if !Has(index) {
        return None;
      }
      if index in objects {
        return Some(objects[index]);
      }
      SetState(index, true);
      if index !in addresses {
        return None;
      }
      r := Sze.Deserialize(storage, ty, addresses[index]);
      if r.Some? {
        objects := objects[index := r.value];
      }
    }

    /** The mark of a refused put has no address to give back; the source does not look. */
    method Clear(index: u64)
      requires Valid() && (index in contents ==> Present(contents, index))
      modifies this`objects, this`states, this`addresses, this`contents, unused
      ensures State() == ClearOf(old(State()), index)
      ensures Valid() && contents == old(contents) - {index}
      ensures old(Roomy()) ==> Roomy()
    {
      hide Holds, ObjectSpec.SetState, Inserted;
      GetFacts(State(), storage.State(), ty, contents, index);
      ClearHolds(State(), storage.State(), ty, contents, index);
      contents := contents - {index};
      if !Has(index) {
        return;
      }
      objects := objects - {index};
      SetState(index, false);
      unused.Add(addresses[index].size, addresses[index]);
      addresses := addresses - {index};
    }

    method ClearRange(start: u64, end: u64)
      requires Valid() && end < U64_MAX
      requires forall i :: start <= i <= end && i in contents ==> Present(contents, i)
      modifies this`objects, this`states, this`addresses, this`contents, unused
      ensures old(Clearable(State(), start, end)) && State() == ClearRangeOf(old(State()), start, end)
      ensures Valid() && (old(Roomy()) ==> Roomy())
      ensures contents == map i | i in old(contents) && !(start <= i <= end) :: old(contents)[i]
    {
      hide Holds, RoomForTail, ClearOf, ClearRangeOf, Clearable, Consistent;
      ghost var o := State();
      ClearableHolds(o, storage.State(), ty, contents, start, end);
      var i := start;
      while i <= end
        invariant start <= i && (i <= end + 1 || i == start)
        invariant Valid() && (old(Roomy()) ==> Roomy())
        invariant contents == map j | j in old(contents) && !(start <= j < i) :: old(contents)[j]
        invariant Clearable(State(), i, end) && ClearRangeOf(State(), i, end) == ClearRangeOf(o, start, end)
        decreases end + 1 - i
      {
        ClearRangeStep(State(), i, end);
        Clear(i);
        i := i + 1;
      }
      ClearRangeDone(State(), i, end);
    }

    /**
     Puts `f(i)` at every index of the range that holds none and counts them. It throws
     at the first of them for which no block is left, which is then marked and holds nothing.
     */
    method ForEachEmpty(start: u64, end: u64, f: u64 -> Value) returns (count: nat, r: Result)
      requires Valid() && Roomy() && end < U64_MAX
      requires FillersBy(ty, f, start, end)
      modifies this`objects, this`states, this`addresses, this`tail, this`contents, unused
      modifies storage.rma, storage.ra, storage.mapping`maxAddr, storage.mapping`maxOff
      modifies storage.mapping.intervals, storage.mapping.empty
      ensures (State(), storage.State(), count, r) == FillBy(old(State()), old(storage.State()), ty, start, end, f)
      ensures Valid() && Roomy()
      ensures r == (if old(CanFillBy(State(), start, end, f)) then Success else Thrown)
      ensures r == Success ==> contents == FilledBy(old(contents), f, start, end)
      ensures r == Thrown ==> exists j: u64 :: RefusedBy(old(contents), contents, f, start, end, j)
    {
      hide Holds, PutOf, PutFits, HasType, Size, RoomForTail, CanHold, Filled, FillOf, Mem, GetOf, GotOk, Fillers;
      hide Sized, CanFill;
      ghost var o, s := State(), storage.State();
      ghost var vs := Returned(f, start, end);
      FillerFacts(ty, vs, start, end);
      FilledNone(contents, vs, start, start);
      if end < start { FilledNone(contents, vs, start, end + 1); }
      FillSucceedsIff(o, s, ty, contents, start, end, vs, 0);
      count := 0;
      var i := start;
      while i <= end
        invariant start <= i && (i <= end + 1 || i == start)
        invariant Valid() && Roomy() && Fillers(ty, vs, i, end)
        invariant FillOf(State(), storage.State(), ty, i, end, vs, count) == FillOf(o, s, ty, start, end, vs, 0)
        invariant contents == Filled(old(contents), vs, start, i)
        decreases end + 1 - i
      {
        GetIsObject(State(), storage.State(), ty, contents, i);
        FillNext(State(), storage.State(), ty, i, end, vs, count);
        FillerOk(ty, vs, i, end);
        FilledNext(old(contents), vs, start, i);
        if !Has(i) {
          count := count + 1;
          var newobj := f(i);
          r := Put(i, newobj, false);
          if r != Success {
            assert RefusedBy(old(contents), contents, f, start, end, i);
            return;
          }
        }
        i := i + 1;
      }
      FillDone(State(), storage.State(), ty, i, end, vs, count);
      r := Success;
    }

    /**
     Writes the store into a window, its addresses in the order in which the map is
     walked. Nothing is checked first: a window that is too short is left with the
     fields that fit.
     */
    method Serialize(buf: array<byte>, lo: nat, size: nat, order: seq<u64>) returns (r: Result)
      requires lo + size <= buf.Length && WalkOrder(addresses, order)
      requires |order| < U64_LIMIT && |unused.data| < U64_LIMIT && PaddedLength(|states|) < U64_LIMIT
      modifies buf
      ensures var fields := FieldsOf(State(), order);
        && r == (if Size(OfObjs(State(), order)) <= size then Success else Thrown)
        && |EncodeAll(Buffers.Fitting(fields, size))| <= size
        && buf[..] == Buffers.Splat(old(buf[..]), lo, EncodeAll(Buffers.Fitting(fields, size)))
      ensures r == Success ==>
                |Encode(OfObjs(State(), order))| <= size &&
                buf[..] == Buffers.Splat(old(buf[..]), lo, Encode(OfObjs(State(), order)))
    {
      hide OfAddrs, OfObjs, VamCodec.OfNodes, Buffers.Splat, Buffers.Fitting, Encode, EncodeAll, Size, SizeAll;
      var addrs, blocks := OfAddrs(addresses, order), VamCodec.OfNodes(unused.data, OfAddr);
      var fields := [OfAddr(base), Bits(states), Range(addrs), Range(blocks)];
      Buffers.FittingMeaning(fields, size);
      FieldsEncode(State(), order);
      r := Buffers.SerializeSequentially(fields, buf, lo, size);
    }

    /** The store read from the front of a buffer; `None` where decoding throws. */
    static method Deserialize(p: CodecOrder.Order, storage: SimpleStorages.SimpleStorage, ty: Ty, buffer: seq<byte>)
      returns (r: Option<SimpleObjectStorage>)
      ensures r.Some? <==> ReadObjs(p, buffer).Some?
      ensures r.Some? ==>
                && fresh(r.value) && r.value.storage == storage && r.value.ty == ty
                && r.value.State() == ReadObjs(p, buffer).value
    {
      hide CodecOrder.DecodeIn, ToObjs;
      var v := Buffers.Deserialize(p, OBJS_TY, buffer);
      if v.None? || ToObjs(v.value).None? {
        return None;
      }
      var o := new SimpleObjectStorage.FromState(storage, ty, ToObjs(v.value).value);
      r := Some(o);
    }
  }

  /** `getNewIndex`: one more state, not set. */
  function WithIndex(o: Objs): Objs {
    o.(states := Resized(o.states, |o.states| + 1))
  }

  lemma LongerPut(o: Objs, s: Store, index: u64, v: Value, keep: bool)
    requires Geometry(o) && index == |o.states| && index < U64_MAX && 0 < Size(v) < U64_LIMIT
    ensures |PutOf(WithIndex(o), s, index, v, keep).0.states| == index + 1
  {
    hide PutOf, Spent;
    assert Geometry(WithIndex(o));
    PutEffects(WithIndex(o), s, index, v, keep);
  }

  /** What a put relies on: whatever block the index gets fits and does not wrap around. */
  ghost predicate PutReady(o: Objs, s: Store, index: u64, size: u64) {
    && IntervalSpec.Disjoint(s.vam.ivs) && Sorted(s.vam.free) && Sorted(o.unused)
    && var a := AddressFor(Marked(o, index), index, size).1;
       a.Some? ==> size <= a.value.size && MappingSpec.IsRange(a.value.addr, a.value.size)
  }

  /** The cached object may be dropped before the put, and the new one cached after it. */
  lemma PutErased(o: Objs, e: Objs, s: Store, index: u64, v: Value, keep: bool)
    requires e == o.(cache := o.cache - {index}) && 0 < Size(v) < U64_LIMIT
    ensures PutReady(e, s, index, Size(v)) <==> PutReady(o, s, index, Size(v))
    ensures var (q, t, r) := PutOf(e, s, index, v, false);
      PutOf(o, s, index, v, keep) == (if keep && r == Success then q.(cache := q.cache[index := v]) else q, t, r)
  {
    hide AddressFor, Sze.SerializeOf, ObjectSpec.SetState;
    assert Marked(e, index) == Marked(o, index);
  }

  /** What a put relies on, and what it comes to. */
  lemma PutFacts(o: Objs, s: Store, ty: Ty, objects: Objects, index: u64, v: Value, keep: bool)
    requires Holds(o, s, ty, objects) && index < U64_MAX
    requires HasType(v, ty) && 0 < Size(v) < U64_LIMIT
    ensures PutReady(o, s, index, Size(v))
    ensures RoomForTail(o, s) ==> PutFits(o, s, index, v)
    ensures PutFits(o, s, index, v) ==>
              var (p, t, r) := PutOf(o, s, index, v, keep);
              && r == (if CanHold(o, index, Size(v)) then Success else Thrown) && p.base == o.base
              && Holds(p, t, ty, objects[index := if r == Success then Some(v) else None])
              && (forall x :: !(o.base.addr <= x < o.base.addr + o.base.size) ==> Mem(t, x) == Mem(s, x))
              && (RoomForTail(o, s) ==> RoomForTail(p, t))
  {
    hide StoreOk, Content, Geometry, Placement, Indexed, CanHold, AddressFor, Marked, PutOf, PutFits, HasType;
    hide Mem;
    StoreDisjoint(s);
    GeometrySorted(o);
    PutAddress(o, s, index, Size(v));
    if RoomForTail(o, s) { PutKeepsRoom(o, s, ty, objects, index, v, keep); }
    if PutFits(o, s, index, v) {
      if CanHold(o, index, Size(v)) {
        PutHolds(o, s, ty, objects, index, v, keep);
      } else {
        PutThrows(o, s, ty, objects, index, v, keep);
      }
    }
  }

  lemma PutAddress(o: Objs, s: Store, index: u64, size: u64)
    requires Geometry(o) && Placement(o, s) && 0 < size
    ensures var a := AddressFor(Marked(o, index), index, size).1;
      a.Some? ==> size <= a.value.size && MappingSpec.IsRange(a.value.addr, a.value.size)
  {
    hide Geometry, Placement, AddressFor, Given;
    var m := Marked(o, index);
    MarkedGeometry(o, s, index);
    AddressForIsGiven(m, s, index, size);
    var (q, found) := AddressFor(m, index, size);
    if found.Some? {
      GivenFacts(m, q, s, index, found.value, size);
      BaseBounds(m);
    }
  }

  lemma BaseBounds(o: Objs)
    requires Geometry(o)
    ensures o.base.addr + o.base.size < U64_LIMIT
  {
  }

  lemma StoreDisjoint(s: Store)
    requires StoreOk(s)
    ensures IntervalSpec.Disjoint(s.vam.ivs) && Sorted(s.vam.free)
  {
  }

  /** A new index: one more state, not set, changes nothing else. */
  lemma Lengthen(o: Objs, s: Store, ty: Ty, objects: Objects, index: u64, size: u64)
    requires Holds(o, s, ty, objects) && index == |o.states| && index < U64_MAX
    ensures var p := o.(states := Resized(o.states, index + 1));
      && index !in objects && Holds(p, s, ty, objects)
      && (RoomForTail(p, s) <==> RoomForTail(o, s)) && (CanHold(p, index, size) <==> CanHold(o, index, size))
  {
    hide StoreOk, Content, Geometry, Placement;
    var p := o.(states := Resized(o.states, index + 1));
    MarksIrrelevant(o, p, s, ty, objects);
    forall i: u64 ensures ObjectSpec.Has(p, i) <==> ObjectSpec.Has(o, i) {
    }
  }

  /** What a read or a clear relies on, and what it comes to. */
  lemma GetFacts(o: Objs, s: Store, ty: Ty, objects: Objects, index: u64)
    requires Holds(o, s, ty, objects)
    ensures IntervalSpec.Disjoint(s.vam.ivs) && Sorted(s.vam.free) && Sorted(o.unused)
    ensures ObjectSpec.Has(o, index) <==> index in objects
    ensures Present(objects, index) <==> index in o.addrs
    ensures index in o.cache ==> Present(objects, index)
    ensures index in o.addrs ==> MappingSpec.IsRange(o.addrs[index].addr, o.addrs[index].size)
    ensures GotOk(GetOf(o, s, ty, index), objects, index)
    ensures index in o.cache ==> GetOf(o, s, ty, index) == Some(o.cache[index])
    ensures Holds(KeptOf(o, s, ty, index), s, ty, objects)
    ensures index in o.cache ==> KeptOf(o, s, ty, index) == o
    ensures ObjectSpec.Has(o, index) ==> ObjectSpec.SetState(o.states, index, true) == o.states
  {
    hide StoreOk, Content, Geometry, Placement, GetOf;
    StoreDisjoint(s);
    GeometrySorted(o);
    BaseBounds(o);
    GetIsObject(o, s, ty, objects, index);
    KeptHolds(o, s, ty, objects, index);
    if index in o.addrs { LiveBlock(o, index); TailBounds(o); }
    if index in o.cache {
      CachedGet(o, s, ty, index);
      assert o.cache[index := o.cache[index]] == o.cache;
      assert ObjectSpec.SetState(o.states, index, true) == o.states;
    }
  }

  lemma CachedGet(o: Objs, s: Store, ty: Ty, index: u64)
    requires index in o.cache && ObjectSpec.Has(o, index)
    ensures GetOf(o, s, ty, index) == Some(o.cache[index])
  {
  }

  lemma TailBounds(o: Objs)
    requires Geometry(o)
    ensures UsedEnd(o) <= o.base.addr + o.base.size
  {
  }
}

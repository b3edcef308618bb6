/**
 `sze::serialize` and `sze::deserialize` of include/storage/Serialize.hpp: a value
 goes to the address it had if it still fits there, and to a new one otherwise.
 */
module Sze {
  import opened Machine
  import IntervalSpec
  import FreeList
  import MappingSpec
  import Addresses
  import opened Codec
  import CodecOrder
  import opened Buffers
  import opened StorageSpec
  import opened Slots
  import SimpleStorages

  /** Serializes into the window the storage gives for the address. */
  ghost function StoreInto(s: Store, v: Value, a: Addr): (Store, Result)
    requires Size(v) <= a.size
  {
    var (t, off) := WritebOf(s, a.addr, a.size);
    if off.None? || |t.bytes| < off.value + a.size then (t, Thrown)
    else (t.(bytes := Splat(t.bytes, off.value, Written(v, a.size))), Success)
  }

  /** Where the value goes: an address too small for it is erased, unless empty, and replaced. */
  ghost function PlaceFor(s: Store, v: Value, a: Addr): (Store, Addr)
    requires 0 < Size(v) < U64_LIMIT
  {
    if a.size < Size(v) then
      AllocAddrOf(if a.size != 0 then EraseOf(s, a.addr, a.size).0 else s, Size(v))
    else (s, a)
  }

  ghost function SerializeOf(s: Store, v: Value, a: Addr): (Store, Addr, Result)
    requires 0 < Size(v) < U64_LIMIT
  {
    var (t, b) := PlaceFor(s, v, a);
    var (u, r) := if Size(v) <= b.size then StoreInto(t, v, b) else (t, Thrown);
    (u, b, r)
  }

  ghost function DeserializeOf(s: Store, t: Ty, a: Addr): Option<Value> {
    match ReadbOf(s, a.addr, a.size)
    case None => None
    case Some(d) => Decode(t, d)
  }

  /** Storing into an addressable range is a write of the encoding. */
  lemma StoreIntoIsWrite(s: Store, k: u64, v: Value, a: Addr)
    requires StoreOk(s) && Addressable(s, k, a.addr, a.size) && FitsAt(s, a.addr, a.size) && Size(v) <= a.size
    ensures StoreInto(s, v, a) == WriteOf(s, a.addr, a.size, Written(v, a.size))
    ensures StoreInto(s, v, a).1 == Success
  {
    hide StoreOk, WritebOf, WriteOf, Addressable;
    WritebIsWrite(s, k, a.addr, a.size, Written(v, a.size));
  }

  /** An address as a client holds it: null, or a slot with the size it was handed out with. */
  ghost predicate KnownAddress(m: Memory, a: Addr) {
    a.size != 0 ==> a.addr in m && m[a.addr].size == a.size
  }

  /** The storage can afford the value. */
  ghost predicate CanPlace(s: Store, v: Value, a: Addr) {
    && 0 < Size(v) < Addresses.CELL
    && (a.size < Size(v) ==> s.meta.highBits + 1 < Addresses.CELLS)
    && var (t, b) := PlaceFor(s, v, a); FitsAt(t, b.addr, b.size)
  }

  /** The memory once the value is placed and before it is written. */
  ghost function Placed(m: Memory, a: Addr, b: Addr): Memory {
    if a == b then m
    else (if a.size != 0 && a.addr in m then m[a.addr := Slot(a.size, None)] else m)[b.addr := Slot(b.size, None)]
  }

  lemma PlaceRefines(s: Store, m: Memory, v: Value, a: Addr)
    requires StoreOk(s) && Refines(s, m) && KnownAddress(m, a) && CanPlace(s, v, a)
    ensures var (t, b) := PlaceFor(s, v, a);
      && StoreOk(t) && Refines(t, Placed(m, a, b)) && Size(v) <= b.size
      && b.addr in Placed(m, a, b) && Placed(m, a, b)[b.addr].size == b.size
      && (a.size < Size(v) ==> b.addr !in m && b.size == Size(v))
  {
    hide StoreOk, Refines, EraseOf, AllocAddrOf;
    if a.size < Size(v) {
      if a.size == 0 {
        AllocRefines(s, m, Size(v));
        AllocAddrKeeps(s, Size(v));
      } else {
        EraseRefines(s, m, a.addr);
        EraseKeeps(s, a.addr, a.size);
        var t := EraseOf(s, a.addr, a.size).0;
        AllocRefines(t, m[a.addr := Slot(a.size, None)], Size(v));
        AllocAddrKeeps(t, Size(v));
      }
    }
  }

  lemma AllocAddrKeeps(s: Store, size: u64)
    requires size != 0
    ensures var (t, a) := AllocAddrOf(s, size);
      t.vam.maxOff == s.vam.maxOff && t.bytes == s.bytes && a == Addr(Addresses.AddressOf(Inc(s.meta.highBits)), size)
  {
  }

  lemma EraseKeeps(s: Store, addr: u64, size: u64)
    requires size != 0
    ensures var t := EraseOf(s, addr, size).0;
      t.vam.maxOff == s.vam.maxOff && t.bytes == s.bytes && t.meta == s.meta
  {
  }

  /**
   Serializing succeeds, disturbs no other slot, and deserializing from the address
   it leaves gives the value back if and only if the value is storable.
   */
  lemma SerializeDeserialize(s: Store, m: Memory, v: Value, ty: Ty, a: Addr)
    requires StoreOk(s) && Refines(s, m) && KnownAddress(m, a) && CanPlace(s, v, a) && HasType(v, ty)
    ensures var (t, b, r) := SerializeOf(s, v, a);
      && r == Success && StoreOk(t)
      && (DeserializeOf(t, ty, b) == Some(v) <==> Storable(v))
      && (NulFree(v) ==> DeserializeOf(t, ty, b) == Some(Padded(v)))
      && Refines(t, Placed(m, a, b)[b.addr := Slot(b.size, Some(SeenBytes(t, b.addr, b.size)))])
  {
    hide StoreOk, Refines, PlaceFor, StoreInto, WriteOf, Encode, Decode, Storable, NulFree, Padded, HasType;
    hide Placed, ReadbOf, SeenBytes, Mem;
    var (t, b) := PlaceFor(s, v, a);
    var n := Placed(m, a, b);
    PlaceRefines(s, m, v, a);
    SlotOfMemory(t, n, b.addr);
    SlotAddressable(t, b.addr, n[b.addr]);
    var d := Written(v, b.size);
    StoreIntoIsWrite(t, b.addr, v, b);
    WriteRefines(t, n, b.addr, d);
    var u := SerializeOf(s, v, a).0;
    var n' := n[b.addr := Slot(b.size, Some(SeenBytes(u, b.addr, b.size)))];
    SlotOfMemory(u, n', b.addr);
    ReadbSlot(u, b.addr, n'[b.addr]);
    PrefixDecodes(v, ty, n'[b.addr].data.value, |d|);
  }

  // ------------------------------------------------------ every byte of memory

  /** What is seen after storing `v` at `b`, which is `a` or replaces it. */
  ghost predicate SerializedAt(s: Store, u: Store, v: Value, a: Addr, b: Addr, x: int)
    requires Size(v) <= b.size
  {
    var d := Written(v, b.size);
    if b.addr <= x < b.addr + |d| then Mem(u, x) == Some(d[x - b.addr])
    else if b.addr <= x < b.addr + b.size then Mem(u, x).Some? && (Mem(s, x).Some? ==> Mem(u, x) == Mem(s, x))
    else if b != a && a.addr <= x < a.addr + a.size then Mem(u, x) == None
    else Mem(u, x) == Mem(s, x)
  }

  /**
   A value that fits stays at its address, any other goes to the next cell, at exactly
   its size, and its old address is erased. No byte is seen to change but those written.
   */
  lemma SerializeSeen(s: Store, m: Memory, v: Value, a: Addr)
    requires StoreOk(s) && Refines(s, m) && KnownAddress(m, a) && CanPlace(s, v, a)
    ensures var (u, b, _) := SerializeOf(s, v, a);
      && b == (if Size(v) <= a.size then a else Addr((s.meta.highBits + 1) * Addresses.CELL, Size(v)))
      && u.meta == s.meta.(highBits := if b == a then s.meta.highBits else s.meta.highBits + 1)
      && forall x :: SerializedAt(s, u, v, a, b, x)
  {
    hide StoreOk, Refines, PlaceFor, StoreInto, WriteOf, Written, Placed, Mem, SlotOk;
    var (t, b) := PlaceFor(s, v, a);
    var n := Placed(m, a, b);
    PlaceRefines(s, m, v, a);
    PlaceSeen(s, m, v, a);
    SlotOfMemory(t, n, b.addr);
    SlotAddressable(t, b.addr, n[b.addr]);
    var d := Written(v, b.size);
    StoreIntoIsWrite(t, b.addr, v, b);
    WriteWithin(t, b.addr, b.addr, b.size, d);
    var u := SerializeOf(s, v, a).0;
    forall x ensures SerializedAt(s, u, v, a, b, x) {
      assert WriteSeen(t, u, b.addr, b.size, d, x);
    }
  }

  /** Making room changes no byte but those of an address that is given up. */
  lemma PlaceSeen(s: Store, m: Memory, v: Value, a: Addr)
    requires StoreOk(s) && Refines(s, m) && KnownAddress(m, a) && CanPlace(s, v, a)
    ensures var (t, b) := PlaceFor(s, v, a);
      && b == (if Size(v) <= a.size then a else Addr((s.meta.highBits + 1) * Addresses.CELL, Size(v)))
      && t.meta == s.meta.(highBits := if b == a then s.meta.highBits else s.meta.highBits + 1)
      && (b != a && a.size != 0 ==> a.addr + a.size <= b.addr)
      && forall x :: Mem(t, x) == if b != a && a.addr <= x < a.addr + a.size then None else Mem(s, x)
  {
    hide StoreOk, Refines, EraseOf, AllocAddrOf, Mem, SlotOk, FitsAt;
    if a.size < Size(v) {
      if a.size == 0 {
        AllocAddrMeaning(s, Size(v));
      } else {
        EraseSlotSeen(s, m, a.addr);
        var t := EraseOf(s, a.addr, a.size).0;
        AllocAddrMeaning(t, Size(v));
        SlotBelow(s, m, a.addr);
      }
    }
  }

  /** Slots lie below the next cell. */
  lemma SlotBelow(s: Store, m: Memory, a: u64)
    requires StoreOk(s) && Refines(s, m) && a in m
    ensures a + m[a].size <= (s.meta.highBits + 1) * Addresses.CELL
  {
    hide StoreOk, Mem;
    SlotOfMemory(s, m, a);
    SlotAddressable(s, a, m[a]);
  }

  lemma EraseSlotSeen(s: Store, m: Memory, a: u64)
    requires StoreOk(s) && Refines(s, m) && a in m
    ensures m[a].size != 0
    ensures var t := EraseOf(s, a, m[a].size).0;
      && StoreOk(t) && t.meta == s.meta
      && forall x :: Mem(t, x) == if a <= x < a + m[a].size then None else Mem(s, x)
  {
    hide StoreOk, Refines, EraseOf, Mem;
    SlotOfMemory(s, m, a);
    SlotAddressable(s, a, m[a]);
    AloneWhole(s, a, m[a]);
    EraseMeaning(s, a, m[a].size);
    if m[a].data.None? { UnmappedSlot(s, a, m[a]); }
  }

  lemma UnmappedSlot(s: Store, a: u64, slot: Slot)
    requires StoreOk(s) && SlotOk(s, a, slot) && slot.data.None?
    ensures forall x :: a <= x < a + slot.size ==> Mem(s, x) == None
  {
    hide StoreOk, Mem;
    forall x: int | a <= x < a + slot.size ensures Mem(s, x) == None { UnmappedUnseen(s, a, x); }
  }

  /** A string leaves zeros behind its end, to the end of its address. */
  lemma StringTail(s: Store, m: Memory, str: seq<byte>, a: Addr, x: int)
    requires StoreOk(s) && Refines(s, m) && KnownAddress(m, a) && CanPlace(s, Str(str), a)
    ensures var (u, b, _) := SerializeOf(s, Str(str), a);
      b.addr + |UpToNul(str)| <= x < b.addr + b.size ==> Mem(u, x) == Some(0)
  {
    hide StoreOk, Refines, SerializeOf, Mem;
    SerializeSeen(s, m, Str(str), a);
    var (u, b, _) := SerializeOf(s, Str(str), a);
    WrittenMeaning(Str(str), b.size);
    assert SerializedAt(s, u, Str(str), a, b, x);
  }

  /** Any other value leaves what was behind it. */
  lemma ValueTail(s: Store, m: Memory, v: Value, a: Addr, x: int)
    requires StoreOk(s) && Refines(s, m) && KnownAddress(m, a) && CanPlace(s, v, a) && !v.Str?
    ensures var (u, b, _) := SerializeOf(s, v, a);
      b.addr + Size(v) <= x < b.addr + b.size && Mem(s, x).Some? ==> Mem(u, x) == Mem(s, x)
  {
    hide StoreOk, Refines, SerializeOf, Mem, Encode;
    SerializeSeen(s, m, v, a);
    var (u, b, _) := SerializeOf(s, v, a);
    WrittenMeaning(v, b.size);
    assert SerializedAt(s, u, v, a, b, x);
  }

  /** The memory once the value is stored: what it is seen to hold is in its slot. */
  ghost function StoredMemory(s: Store, m: Memory, v: Value, a: Addr): Memory
    requires 0 < Size(v) < U64_LIMIT
  {
    var (t, b, _) := SerializeOf(s, v, a);
    Placed(m, a, b)[b.addr := Slot(b.size, Some(SeenBytes(t, b.addr, b.size)))]
  }

  lemma StoredSlot(s: Store, m: Memory, v: Value, ty: Ty, a: Addr)
    requires 0 < Size(v) < U64_LIMIT && StoreOk(s) && Refines(s, m) && KnownAddress(m, a) && CanPlace(s, v, a)
    requires HasType(v, ty) && NulFree(v)
    ensures var (t, b, r) := SerializeOf(s, v, a);
      var n := StoredMemory(s, m, v, a);
      && r == Success && StoreOk(t) && Refines(t, n)
      && b.addr in n && n[b.addr].size == b.size && n.Keys == Placed(m, a, b).Keys
      && DeserializeOf(t, ty, b) == Some(Padded(v))
  {
    hide StoreOk, Refines, PlaceFor, StoreInto, Storable, NulFree, Padded, HasType, DeserializeOf, SeenBytes, Placed;
    SerializeDeserialize(s, m, v, ty, a);
    PlaceRefines(s, m, v, a);
  }

  lemma ReadbSlot(s: Store, a: u64, slot: Slot)
    requires StoreOk(s) && SlotOk(s, a, slot)
    ensures ReadbOf(s, a, slot.size) == slot.data
  {
    hide StoreOk, Mem, ReadOf, ReadbOf;
    SlotAddressable(s, a, slot);
    ReadMeaning(s, a, a, slot.size);
    ReadRefines(s, a, slot);
  }

  /** Whatever lies behind a written value in its range, decoding sees the value's encoding first. */
  lemma PrefixDecodes(v: Value, ty: Ty, bytes: seq<byte>, n: nat)
    requires HasType(v, ty) && Size(v) <= n <= |bytes| && bytes[..n][..Size(v)] == Encode(v)
    ensures NulFree(v) ==> Decode(ty, bytes) == Some(Padded(v))
    ensures Decode(ty, bytes) == Some(v) <==> Storable(v)
  {
    hide HasType, Encode, Decode, Storable, NulFree, Padded;
    assert bytes == Encode(v) + bytes[Size(v)..] by {
      assert bytes[..n][..Size(v)] == bytes[..Size(v)];
    }
    RoundTripExactIff(v, ty, bytes[Size(v)..]);
    if NulFree(v) { RoundTrip(v, ty, bytes[Size(v)..]); }
  }

  // --------------------------------------------------- any range, wrapping too

  ghost function StoreIntoAny(s: Store, v: Value, a: Addr): (Store, Result)
    requires Size(v) <= a.size
  {
    var (t, off) := WritebAny(s, a.addr, a.size);
    if off.None? || |t.bytes| < off.value + a.size then (t, Thrown)
    else (t.(bytes := Splat(t.bytes, off.value, Written(v, a.size))), Success)
  }

  ghost function PlaceAny(s: Store, v: Value, a: Addr): (Store, Option<Addr>)
    requires Size(v) < U64_LIMIT
  {
    if a.size < Size(v) then
      var (t, r) := if a.size != 0 then EraseAny(s, a.addr, a.size) else (s, Success);
      if r == Thrown then (t, None) else AllocAddrAny(t, Size(v))
    else (s, Some(a))
  }

  /** `serialize` on any storage, to any address; where it throws the address is as it was. */
  ghost function SerializeAny(s: Store, v: Value, a: Addr): (Store, Addr, Result)
    requires Size(v) < U64_LIMIT
  {
    match PlaceAny(s, v, a)
    case (t, None) => (t, a, Thrown)
    case (t, Some(b)) =>
      var (u, r) := if Size(v) <= b.size then StoreIntoAny(t, v, b) else (t, Thrown);
      (u, b, r)
  }

  /** No range wraps around: neither the address nor, if one is needed, the fresh one. */
  predicate NoWrap(s: Store, v: Value, a: Addr)
    requires Size(v) < U64_LIMIT
  {
    && (a.size == 0 || MappingSpec.IsRange(a.addr, a.size))
    && (a.size < Size(v) ==> MappingSpec.IsRange(Addresses.AddressOf(Inc(s.meta.highBits)), Size(v)))
  }

  lemma StoreIntoAnyIs(s: Store, v: Value, a: Addr)
    requires IntervalSpec.Disjoint(s.vam.ivs) && MappingSpec.IsRange(a.addr, a.size) && Size(v) <= a.size
    ensures StoreIntoAny(s, v, a) == StoreInto(s, v, a)
  {
    hide WritebAny, WritebOf, Splat, Written;
    WritebAnyIs(s, a.addr, a.size);
  }

  lemma SerializeAnyIs(s: Store, v: Value, a: Addr)
    requires IntervalSpec.Disjoint(s.vam.ivs) && 0 < Size(v) < U64_LIMIT && NoWrap(s, v, a)
    ensures SerializeAny(s, v, a) == SerializeOf(s, v, a)
  {
    hide IntervalSpec.Disjoint, EraseAny, EraseOf, AllocAddrAny, AllocAddrOf, StoreIntoAny, StoreInto;
    var t := if a.size != 0 then EraseOf(s, a.addr, a.size).0 else s;
    if a.size < Size(v) {
      if a.size != 0 {
        EraseAnyIs(s, a.addr, a.size);
        EraseKeeps(s, a.addr, a.size);
      }
      AllocAddrAnyIs(t, Size(v));
      AllocAddrKeeps(t, Size(v));
      AllocDisjoint(t, Size(v));
      StoreIntoAnyIs(AllocAddrOf(t, Size(v)).0, v, AllocAddrOf(t, Size(v)).1);
    } else {
      StoreIntoAnyIs(s, v, a);
    }
  }

  lemma AllocDisjoint(s: Store, size: u64)
    requires IntervalSpec.Disjoint(s.vam.ivs) && MappingSpec.IsRange(Addresses.AddressOf(Inc(s.meta.highBits)), size)
    ensures IntervalSpec.Disjoint(AllocAddrOf(s, size).0.vam.ivs)
  {
    hide IntervalSpec.Disjoint, IntervalSpec.Assign;
    var a := Addresses.AddressOf(Inc(s.meta.highBits));
    MappingSpec.EndOffsetExact(a, size);
    IntervalSpec.AssignDisjoint(s.vam.ivs, a, MappingSpec.EndOffset(a, size), MappingSpec.Tiling.UNMAPPED);
  }

  // ------------------------------------------------------------------ methods

  method StoreWindow(storage: SimpleStorages.SimpleStorage, v: Value, a: Addr) returns (r: Result)
    requires FreeList.Sorted(storage.mapping.empty.data) && Size(v) <= a.size
    modifies storage.rma, storage.mapping`maxAddr, storage.mapping`maxOff
    modifies storage.mapping.intervals, storage.mapping.empty
    ensures (storage.State(), r) == StoreIntoAny(old(storage.State()), v, a)
  {
    hide WritebAny, WritebOf, Splat, Written;
    var window := storage.Writeb(a.addr, a.size);
    if window.None? || storage.rma.Length < window.value + a.size {
      return Thrown;
    }
    r := Buffers.Serialize(v, storage.rma, window.value, a.size);
  }

  /** The address, erased and replaced if it is too small; `None` where that throws. */
  method Place(storage: SimpleStorages.SimpleStorage, v: Value, address: Addr) returns (placed: Option<Addr>)
    requires FreeList.Sorted(storage.mapping.empty.data) && Size(v) < U64_LIMIT
    modifies storage.ra, storage.mapping.intervals, storage.mapping.empty
    ensures (storage.State(), placed) == PlaceAny(old(storage.State()), v, address)
    ensures FreeList.Sorted(storage.mapping.empty.data)
  {
    hide IntervalSpec.Disjoint, FreeList.Sorted, EraseAny, EraseOf, AllocAddrAny, AllocAddrOf;
    if address.size < Size(v) {
      if address.size != 0 {
        var erased := storage.Erase(address.addr, address.size);
        if erased == Thrown {
          return None;
        }
      }
      placed := storage.GetRandomAddress(Size(v));
    } else {
      placed := Some(address);
    }
  }

  /** `serialize(storage, obj, address)`: the address is updated by reference. */
  method Serialize(storage: SimpleStorages.SimpleStorage, v: Value, address: Addr) returns (placed: Addr, r: Result)
    requires FreeList.Sorted(storage.mapping.empty.data) && Size(v) < U64_LIMIT
    modifies storage.rma, storage.ra
    modifies storage.mapping`maxAddr, storage.mapping`maxOff, storage.mapping.intervals, storage.mapping.empty
    ensures (storage.State(), placed, r) == SerializeAny(old(storage.State()), v, address)
    ensures 0 < Size(v) &&
            old(IntervalSpec.Disjoint(storage.mapping.intervals.m) && NoWrap(storage.State(), v, address)) ==>
              (storage.State(), placed, r) == SerializeOf(old(storage.State()), v, address)
  {
    if IntervalSpec.Disjoint(storage.mapping.intervals.m) && NoWrap(storage.State(), v, address) && 0 < Size(v) {
      SerializeAnyIs(storage.State(), v, address);
    }
    PlacedSize(storage.State(), v, address);
    hide IntervalSpec.Disjoint, FreeList.Sorted, PlaceAny, StoreIntoAny, SerializeOf, NoWrap;
    var found := Place(storage, v, address);
    if found.None? {
      return address, Thrown;
    }
    placed := found.value;
    r := StoreWindow(storage, v, placed);
  }

  lemma PlacedSize(s: Store, v: Value, a: Addr)
    requires Size(v) < U64_LIMIT
    ensures PlaceAny(s, v, a).1.Some? ==> Size(v) <= PlaceAny(s, v, a).1.value.size
  {
  }

  method Deserialize(storage: SimpleStorages.SimpleStorage, ty: Ty, address: Addr) returns (r: Option<Value>)
    requires IntervalSpec.Disjoint(storage.mapping.intervals.m) && FreeList.Sorted(storage.mapping.empty.data)
    requires address.size == 0 || MappingSpec.IsRange(address.addr, address.size)
    modifies storage.mapping`maxAddr, storage.mapping`maxOff, storage.mapping.intervals, storage.mapping.empty
    ensures r == DeserializeOf(storage.State(), ty, address) && storage.State() == old(storage.State())
  {
    hide ReadbOf, Decode, CodecOrder.DecodeIn;
    var data := storage.Readb(address.addr, address.size);
    if data.None? {
      return None;
    }
    CodecOrder.InOrderDecodes(ty, data.value);
    r := Buffers.Deserialize(CodecOrder.IN_ORDER, ty, data.value);
  }
}

/** `SimpleStorage` of include/storage/SimpleStorage.hpp over a file mapped into memory. */
module SimpleStorages {
  import opened Machine
  import opened IntervalSpec
  import opened FreeList
  import Tiling
  import opened MappingSpec
  import Erasure
  import opened Addresses
  import Codec
  import CodecOrder
  import opened Buffers
  import opened VamCodec
  import opened StorageSpec
  import opened Persistence
  import VirtAddressMappings

  class SimpleStorage {
    /** The mapped file. */
    var rma: array<byte>
    var ra: RandomAddressRange
    var magic: u64
    var vaOffset: u64
    var vaSize: u64
    var vaAddr: u64
    var staticAddr: Addr
    var mapping: VirtAddressMappings.VirtAddressMapping

    ghost function Repr(): set<object>
      reads this, mapping
    {
      {this, rma, ra, mapping} + mapping.Repr()
    }

    function Metadata(): Meta
      reads this, ra
    {
      Meta(magic, ra.highBits, vaOffset, vaSize, vaAddr, staticAddr)
    }

    ghost function State(): Store
      reads this, rma, ra, mapping, mapping.intervals, mapping.empty
    {
      Store(Metadata(), mapping.State(), rma[..])
    }

    ghost predicate Valid()
      reads this, rma, ra, mapping, mapping.intervals, mapping.empty
    {
      StoreOk(State())
    }

    constructor (rma: array<byte>)
      ensures this.rma == rma && fresh(Repr() - {rma})
      ensures State() == Store(Meta(0, 0, 0, 0, 0, Addr(U64_MAX, 0)), NEW_VAM, rma[..])
    {
      this.rma := rma;
      ra := new RandomAddressRange(0);
      magic, vaOffset, vaSize, vaAddr, staticAddr := 0, 0, 0, 0, Addr(U64_MAX, 0);
      mapping := new VirtAddressMappings.VirtAddressMapping();
    }

    /** `None` where the source throws: for an empty range, or one that wraps around onto others. */
    method GetRandomAddress(size: u64) returns (a: Option<Addr>)
      modifies ra, mapping.intervals
      ensures (State(), a) == AllocAddrAny(old(State()), size)
      ensures old(Disjoint(mapping.intervals.m)) && IsRange(AddressOf(Inc(old(ra.highBits))), size) ==>
                var (t, b) := AllocAddrOf(old(State()), size);
                State() == t && a == Some(b) && Disjoint(mapping.intervals.m)
      ensures old(Valid()) && 0 < size < CELL && old(ra.highBits) + 1 < CELLS ==> Valid()
    {
      if Disjoint(mapping.intervals.m) && IsRange(AddressOf(Inc(ra.highBits)), size) { AllocAddrAnyIs(State(), size); }
      hide StoreOk, AllocUnmappedAny, AllocUnmappedOf, Disjoint;
      ghost var s := State();
      var addr := ra.GetRandomAddress(size);
      var res := mapping.AllocUnmapped(addr, size);
      if StoreOk(s) && 0 < size < CELL && s.meta.highBits + 1 < CELLS {
        AllocAddrMeaning(s, size);
        CellIsRange(s.meta.highBits, size);
        StoreVam(s);
        VamDisjoint(s.vam);
      }
      if res == Thrown {
        return None;
      }
      a := Some(Addr(addr, size));
    }

    /** The offset of the window a client may fill; `None` where the source throws. */
    method Writeb(addr: u64, size: u64) returns (r: Option<u64>)
      requires Sorted(mapping.empty.data)
      modifies mapping`maxAddr, mapping`maxOff, mapping.intervals, mapping.empty
      ensures (State(), r) == WritebAny(old(State()), addr, size)
      ensures old(Disjoint(mapping.intervals.m)) && (size == 0 || IsRange(addr, size)) ==>
                (State(), r) == WritebOf(old(State()), addr, size)
    {
      if Disjoint(mapping.intervals.m) && (size == 0 || IsRange(addr, size)) { WritebAnyIs(State(), addr, size); }
      hide LookupOf, LookupAny, WritebOf, Disjoint;
      var hit := mapping.Lookup(addr, size, false);
      if hit.None? {
        return None;
      }
      var (offset, avail) := hit.value;
      if avail < size || offset == 0 || rma.Length < offset + size {
        return None;
      }
      r := Some(offset);
    }

    /** The bytes of a window for reading; `None` where the source throws. */
    method Readb(addr: u64, size: u64) returns (r: Option<seq<byte>>)
      requires Disjoint(mapping.intervals.m) && Sorted(mapping.empty.data)
      requires size == 0 || IsRange(addr, size)
      modifies mapping`maxAddr, mapping`maxOff, mapping.intervals, mapping.empty
      ensures r == ReadbOf(old(State()), addr, size) && State() == old(State())
    {
      ReadOnlyKeeps(mapping.State(), addr, size);
      hide LookupAny, LookupOf;
      var hit := mapping.Lookup(addr, size, true);
      if hit.None? {
        return None;
      }
      var (offset, avail) := hit.value;
      if avail < size || offset == 0 || rma.Length < offset + size {
        return None;
      }
      r := Some(rma[offset..offset + size]);
    }

    /** Copies `data` to the front of the range. */
    method Write(addr: u64, size: u64, data: seq<byte>) returns (r: Result)
      requires Disjoint(mapping.intervals.m) && Sorted(mapping.empty.data)
      requires size == 0 || IsRange(addr, size)
      modifies rma, mapping`maxAddr, mapping`maxOff, mapping.intervals, mapping.empty
      ensures (State(), r) == WriteOf(old(State()), addr, size, data)
    {
      hide LookupAny, LookupOf, Splat;
      var hit := mapping.Lookup(addr, size, false);
      if hit.None? {
        return Thrown;
      }
      var (offset, avail) := hit.value;
      if avail < |data| || offset == 0 || rma.Length < offset + |data| {
        return Thrown;
      }
      CopyInto(rma, offset, data);
      r := Success;
    }

    /** Copies the range out into a buffer of `room` bytes; `None` where the source throws. */
    method Read(addr: u64, size: u64, room: nat) returns (r: Option<seq<byte>>)
      requires Disjoint(mapping.intervals.m) && Sorted(mapping.empty.data)
      requires size == 0 || IsRange(addr, size)
      modifies mapping`maxAddr, mapping`maxOff, mapping.intervals, mapping.empty
      ensures r == (if room < size then None else ReadOf(old(State()), addr, size)) && State() == old(State())
    {
      hide LookupAny, LookupOf, Disjoint, Sorted;
      ReadOnlyKeeps(mapping.State(), addr, size);
      ghost var s := State();
      var hit := mapping.Lookup(addr, size, true);
      assert State() == s;
      if hit.None? {
        return None;
      }
      var (offset, avail) := hit.value;
      if avail > size || size > room || offset == 0 || rma.Length < offset + size {
        return None;
      }
      r := Some(rma[offset..offset + size]);
    }

    method Erase(addr: u64, size: u64) returns (r: Result)
      requires Sorted(mapping.empty.data)
      modifies mapping.intervals, mapping.empty
      ensures (State(), r) == EraseAny(old(State()), addr, size)
      ensures old(Disjoint(mapping.intervals.m)) && IsRange(addr, size) ==>
                (State(), r) == EraseOf(old(State()), addr, size) && Disjoint(mapping.intervals.m)
      ensures Sorted(mapping.empty.data)
    {
      hide Disjoint, Sorted, Erasure.DelOf, Erasure.DelAnyOf;
      if size == 0 {
        return Thrown;
      }
      r := mapping.Del(addr, size);
    }

    /** The destructor: stores the mapping in its own space and the header at the start. */
    method Close()
      requires Valid() && CloseFits(State())
      modifies this, rma, mapping`maxAddr, mapping`maxOff, mapping.intervals, mapping.empty
      ensures rma[..] == CloseOf(old(State()))
    {
      hide StoreOk, RegionOk, Splat, MetaBytes, Codec.Encode, OfVam, AllocOf;
      ghost var s := State();
      StoreVam(s);
      StoreMagic(s);
      StoredMappingFits(s);
      ghost var (w, off) := StoredVam(s);
      RegionBounds(s, w, off);
      VamValue(w);
      vaSize := VamSize(mapping.State()) + EXTRA_SPARE_SPACE;
      vaOffset := mapping.Alloc(vaAddr, vaSize);
      var res := mapping.Serialize(rma, vaOffset, vaSize);
      CopyInto(rma, 0, MetaBytes(Metadata()));
    }

    /** `init_simple_storage`, on any file that is large enough. */
    method Init(p: CodecOrder.Order, staticSize: u64) returns (r: Result)
      requires META_SIZE + staticSize <= rma.Length < Tiling.UNMAPPED && 0 < staticSize < CELL
      requires Metadata() == Meta(0, 0, 0, 0, 0, Addr(U64_MAX, 0)) && mapping.State() == NEW_VAM
      modifies this, ra, rma, mapping, mapping.intervals, mapping.empty
      ensures OpenOf(p, old(rma[..]), staticSize).None? ==> r == Thrown
      ensures OpenOf(p, old(rma[..]), staticSize).Some? ==>
                r == Success && State() == OpenOf(p, old(rma[..]), staticSize).value && rma == old(rma)
      ensures r == Success ==> staticSize <= staticAddr.size
    {
      OpenedStatic(p, rma[..], staticSize);
      if MagicOf(rma[..]) != MAGIC {
        r := InitNew(staticSize);
      } else {
        r := InitExisting(p, staticSize);
      }
    }

    method InitNew(staticSize: u64) returns (r: Result)
      requires META_SIZE + staticSize <= rma.Length < Tiling.UNMAPPED && 0 < staticSize < CELL
      requires Metadata() == Meta(0, 0, 0, 0, 0, Addr(U64_MAX, 0)) && mapping.State() == NEW_VAM
      modifies this, ra, rma, mapping`maxAddr, mapping`maxOff, mapping.intervals, mapping.empty
      ensures NewOf(old(rma[..]), staticSize).Some?
      ensures r == Success && State() == NewOf(old(rma[..]), staticSize).value && rma == old(rma)
    {
      hide NewOf, FormattedOf, WithStatic;
      Format();
      AddStatic(staticSize);
      ClearStatic(staticSize);
      r := Success;
    }

    /** The header: mapped at offset 0, as the second address handed out. */
    method Format()
      requires META_SIZE <= rma.Length < Tiling.UNMAPPED
      requires Metadata() == Meta(0, 0, 0, 0, 0, Addr(U64_MAX, 0)) && mapping.State() == NEW_VAM
      modifies this`magic, this`vaAddr, ra, mapping`maxAddr, mapping`maxOff, mapping.intervals, mapping.empty
      ensures State() == FormattedOf(old(rma[..]))
    {
      hide StoreOk, AllocOf, Mem;
      ghost var b := rma[..];
      NewVamOk();
      magic := MAGIC;
      vaAddr := ra.GetRandomAddress(1024 * 1024);
      var metadataAddr := ra.GetRandomAddress(META_SIZE);
      assert vaAddr == MAP_ADDR && metadataAddr == HEADER;
      var offset := mapping.Alloc(metadataAddr, META_SIZE);
    }

    /** The static section: the next address. */
    method AddStatic(staticSize: u64)
      requires META_SIZE + staticSize <= rma.Length < Tiling.UNMAPPED && 0 < staticSize < CELL
      requires State() == FormattedOf(rma[..])
      modifies this`staticAddr, ra, mapping.intervals
      ensures State() == WithStatic(FormattedOf(rma[..]), staticSize)
    {
      hide StoreOk, AllocAddrAny, AllocAddrOf, FormattedOf;
      FormattedOk(rma[..]);
      StoreVam(State());
      VamDisjoint(mapping.State());
      CellIsRange(ra.highBits, staticSize);
      var given := GetRandomAddress(staticSize);
      staticAddr := given.value;
    }

    /** It starts as zeros. */
    method ClearStatic(staticSize: u64)
      requires META_SIZE + staticSize <= rma.Length < Tiling.UNMAPPED && 0 < staticSize < CELL
      requires State() == WithStatic(FormattedOf(rma[..]), staticSize)
      modifies rma, mapping`maxAddr, mapping`maxOff, mapping.intervals, mapping.empty
      ensures NewOf(old(rma[..]), staticSize) == Some(State())
    {
      hide StoreOk, Splat, AllocAddrOf, WritebOf, WritebAny, NewOf, FormattedOf, WithStatic;
      FreshStatic(rma[..], staticSize);
      NewIsClear(rma[..], staticSize);
      StoreVam(State());
      VamDisjoint(mapping.State());
      var window := Writeb(staticAddr.addr, staticAddr.size);
      CopyInto(rma, window.value, Codec.Zeros(staticAddr.size));
    }

    method InitExisting(p: CodecOrder.Order, staticSize: u64) returns (r: Result)
      requires META_SIZE <= rma.Length
      modifies this, ra
      ensures ReopenOf(p, old(rma[..]), staticSize).None? ==> r == Thrown
      ensures ReopenOf(p, old(rma[..]), staticSize).Some? ==>
                r == Success && State() == ReopenOf(p, old(rma[..]), staticSize).value
      ensures rma == old(rma)
    {
      hide Erasure.DelOf, Erasure.DelAnyOf, ReadVam, FieldAt;
      var meta := ReadMeta(rma[..]);
      magic, staticAddr := meta.magic, meta.staticAddr;
      vaOffset, vaSize, vaAddr := meta.vaOffset, meta.vaSize, meta.vaAddr;
      ra.highBits := meta.highBits;
      if staticAddr.size < staticSize || rma.Length < vaOffset + vaSize || vaSize == 0 {
        return Thrown;
      }
      var stored := VirtAddressMappings.VirtAddressMapping.Deserialize(p, rma[vaOffset..vaOffset + vaSize]);
      if stored.None? {
        return Thrown;
      }
      mapping := stored.value;
      ReadVamSorted(p, rma[vaOffset..vaOffset + vaSize]);
      var res := mapping.Del(vaAddr, vaSize);
      r := if res == Thrown then Thrown else Success;
    }
  }

  lemma CellIsRange(h: u64, size: u64)
    requires h + 1 < CELLS && 0 < size < CELL
    ensures IsRange(AddressOf(Inc(h)), size)
  {
  }

  lemma VamDisjoint(v: Vam)
    requires VamOk(v)
    ensures Disjoint(v.ivs)
  {
  }

  lemma ReadOnlyKeeps(v: Vam, addr: u64, size: u64)
    ensures LookupOf(v, addr, size, true).Some? ==> LookupOf(v, addr, size, true).value.vam == v
  {
  }
}

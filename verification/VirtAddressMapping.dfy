/** `VirtAddressMapping` of include/storage/SimpleStorage.hpp, edited in place. */
module VirtAddressMappings {
  import opened Machine
  import opened IntervalSpec
  import IntervalSteps
  import IntervalMaps
  import opened FreeList
  import Tiling
  import opened MappingSpec
  import opened Erasure
  import Codec
  import CodecOrder
  import opened VamCodec
  import Buffers

  class VirtAddressMapping {
    var intervals: IntervalMaps.IntervalMap<u64>
    var empty: SetOrderedBySize<u64>
    var maxAddr: u64
    var maxOff: u64

    ghost function Repr(): set<object>
      reads this
    {
      {this, intervals, empty}
    }

    function State(): Vam
      reads this, intervals, empty
    {
      Vam(intervals.m, empty.data, maxAddr, maxOff)
    }

    constructor ()
      ensures State() == NEW_VAM && fresh(Repr())
    {
      intervals := new IntervalMaps.IntervalMap();
      empty := new SetOrderedBySize();
      maxAddr, maxOff := 0, 0;
    }

    /** A mapping with the given contents, as read back by `deserializeImpl`. */
    constructor FromState(v: Vam)
      ensures State() == v && fresh(Repr())
    {
      var ivs := new IntervalMaps.IntervalMap();
      ivs.m := v.ivs;
      intervals := ivs;
      var free := new SetOrderedBySize();
      free.data := v.free;
      empty := free;
      maxAddr, maxOff := v.maxAddr, v.maxOff;
    }

    /** The mapping read from the front of a buffer; `None` where decoding throws. */
    static method Deserialize(p: CodecOrder.Order, buffer: seq<byte>) returns (r: Option<VirtAddressMapping>)
      ensures r.Some? <==> ReadVam(p, buffer).Some?
      ensures r.Some? ==> fresh(r.value) && fresh(r.value.Repr()) && r.value.State() == ReadVam(p, buffer).value
    {
      var v := Buffers.Deserialize(p, VAM_TY, buffer);
      if v.None? || ToVam(v.value).None? {
        return None;
      }
      var vam := new VirtAddressMapping.FromState(ToVam(v.value).value);
      r := Some(vam);
    }

    /** Writes the mapping into the window [lo, lo + size) of `buf`. */
    method Serialize(buf: array<byte>, lo: nat, size: nat) returns (r: Result)
      requires lo + size <= buf.Length && Countable(State())
      modifies buf
      ensures r == if size < VamSize(State()) then Thrown else Success
      ensures size < VamSize(State()) ==> buf[..] == old(buf[..])
      ensures VamSize(State()) <= size ==> |Codec.Encode(OfVam(State()))| <= size &&
                                           buf[..] == Buffers.Splat(old(buf[..]), lo, Codec.Encode(OfVam(State())))
    {
      VamValue(State());
      r := Buffers.Serialize(OfVam(State()), buf, lo, size);
    }

    method AllocOffset(addr: u64, size: u64) returns (offset: u64)
      requires Sorted(empty.data)
      modifies this`maxAddr, this`maxOff, empty
      ensures (State(), offset) == MappingSpec.AllocOffset(old(State()), addr, size)
      ensures Sorted(empty.data)
    {
      var spliced := empty.Splice(size, AdvanceOffset, U64_MAX);
      if spliced.Some? {
        return spliced.value;
      }
      offset := maxOff;
      maxAddr := Add64(addr, size);
      maxOff := Add64(maxOff, size);
    }

    /** The first touch of an unmapped interval: it gets its offset, and what lies behind `size` stays unmapped. */
    method Touch(vaStart: u64, size: u64, offset: u64) returns (r: Result)
      requires vaStart in intervals.m && size != 0
      modifies intervals
      ensures (intervals.m, r) == TouchSteps(old(intervals.m), vaStart, size, offset)
    {
      hide Replaced, IntervalSteps.SplitSteps, EndOffset, SizeOf;
      var vaEnd := intervals.m[vaStart].end;
      intervals.SetValue(vaStart, offset);
      r := Success;
      if size != SizeOf(vaStart, vaEnd) {
        r := intervals.Split(vaStart, EndOffset(vaStart, size), (_: u64) => Tiling.UNMAPPED);
      }
    }

    /** Where `addr` is in the file, and how much of its interval follows; `None` where the source throws. */
    method Lookup(addr: u64, size: u64, readOnly: bool) returns (r: Option<(u64, u64)>)
      requires Sorted(empty.data)
      modifies this`maxAddr, this`maxOff, intervals, empty
      ensures (State(), r) == LookupAny(old(State()), addr, size, readOnly)
      ensures old(Disjoint(intervals.m)) && (size == 0 || IsRange(addr, size)) ==>
                (State(), r) == Answer(old(State()), LookupOf(old(State()), addr, size, readOnly))
      ensures Sorted(empty.data)
    {
      if Disjoint(intervals.m) && (size == 0 || IsRange(addr, size)) {
        LookupAnyIsLookup(State(), addr, size, readOnly);
      }
      hide Disjoint, Sorted, TouchSteps, EndOffset, Add64, LookupOf, Find, Answer, SizeOf;
      var found := Find(intervals.m, addr);
      if found.None? {
        return None;
      }
      var vaStart := found.value;
      var vaEnd := intervals.m[vaStart].end;
      var mappedOffset := intervals.m[vaStart].value;
      if size == 0 || vaEnd < EndOffset(addr, size) {
        return None;
      }
      if mappedOffset == Tiling.UNMAPPED {
        if readOnly {
          return None;
        }
        mappedOffset := AllocOffset(addr, size);
        var touched := Touch(vaStart, size, mappedOffset);
        if touched == Thrown {
          return None;
        }
      }
      r := Some((Add64(mappedOffset, addr - vaStart), SizeOf(addr, vaEnd)));
    }

    method Alloc(addr: u64, size: u64) returns (offset: u64)
      requires Disjoint(intervals.m) && Sorted(empty.data) && IsRange(addr, size)
      modifies this`maxAddr, this`maxOff, intervals, empty
      ensures (State(), offset) == AllocOf(old(State()), addr, size)
      ensures Disjoint(intervals.m) && Sorted(empty.data)
    {
      offset := AllocOffset(addr, size);
      assert EndOffset(addr, size) == addr + size - 1;
      var res := intervals.Insert(addr, EndOffset(addr, size), offset);
      assert res == Success;
    }

    method AllocUnmapped(addr: u64, size: u64) returns (r: Result)
      modifies intervals
      ensures (State(), r) == AllocUnmappedAny(old(State()), addr, size)
      ensures old(Disjoint(intervals.m)) && IsRange(addr, size) ==>
                State() == AllocUnmappedOf(old(State()), addr, size) && r == Success && Disjoint(intervals.m)
    {
      if size == 0 {
        return Thrown;
      }
      if Disjoint(intervals.m) && IsRange(addr, size) {
        AllocUnmappedAnyIs(State(), addr, size);
        EndOffsetExact(addr, size);
      }
      r := intervals.Insert(addr, EndOffset(addr, size), Tiling.UNMAPPED);
    }

    /** Frees the mapped intervals of the range and unmaps it; fails, changing nothing, if it frees none. */
    method Del(addr: u64, size: u64) returns (r: Result)
      requires Sorted(empty.data) && size != 0
      modifies intervals, empty
      ensures (State(), r) == DelAnyOf(old(State()), addr, size)
      ensures old(Disjoint(intervals.m)) && IsRange(addr, size) ==>
                (State(), r) == DelOf(old(State()), addr, size) && Disjoint(intervals.m)
      ensures Sorted(empty.data)
    {
      hide Disjoint, Sorted, AddFreed, Inserted, Assign, VisitsOf, Visited, IntervalSteps.SetSteps, DelOf;
      if IsRange(addr, size) {
        EndOffsetExact(addr, size);
        if Disjoint(intervals.m) {
          DelAnyIsDel(State(), addr, size);
          AssignDisjoint(intervals.m, addr, EndOffset(addr, size), Tiling.UNMAPPED);
        }
      }
      ghost var v := State();
      var calls := intervals.ForEachInterval(addr, EndOffset(addr, size));
      assert AddFreed(v.free, calls[..0]) == v.free by { AddFreedNone(v.free); }
      var count := 0;
      for i := 0 to |calls|
        invariant calls == CallsOf(v, addr, EndOffset(addr, size))
        invariant intervals.m == v.ivs && Sorted(empty.data)
        invariant empty.data == AddFreed(v.free, calls[..i])
        invariant count > 0 <==> AnyFrees(calls[..i])
        invariant count == 0 ==> empty.data == v.free
      {
        var c := calls[i];
        assert calls[..i + 1] == calls[..i] + [c];
        AddFreedSnoc(v.free, calls[..i], c);
        AnyFreesSnoc(calls[..i], c);
        if c.value != Tiling.UNMAPPED && SizeOf(c.lo, c.hi) != 0 {
          count := count + 1;
          empty.Add(SizeOf(c.lo, c.hi), c.value);
        }
      }
      assert calls[..|calls|] == calls;
      if count == 0 {
        return Failure;
      }
      r := intervals.Set(addr, EndOffset(addr, size), Tiling.UNMAPPED);
    }
  }

  lemma AddFreedNone(free: seq<Node<u64>>)
    ensures AddFreed(free, []) == free
  {
  }

  lemma AnyFreesSnoc(calls: seq<Visit<u64>>, c: Visit<u64>)
    ensures AnyFrees(calls + [c]) <==> AnyFrees(calls) || Frees(c)
  {
    if i :| 0 <= i < |calls| && Frees(calls[i]) {
      assert (calls + [c])[i] == calls[i];
    }
    assert (calls + [c])[|calls|] == c;
  }
}

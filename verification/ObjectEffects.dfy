/**
 What the operations of an object store leave behind besides their object: the unused
 blocks, the tail, the marks, the cache, and what is read at every other index.
 */
module ObjectEffects {
  import opened Machine
  import opened FreeList
  import opened Codec
  import opened StorageSpec
  import opened ObjectBlocks
  import Packing
  import opened ObjectSpec
  import opened ObjectFill
  import Sze

  // ------------------------------------------------------------ handing out

  /** `a` is the front of the unused block `n`, a smallest that is large enough; only the rest of it comes back. */
  ghost predicate FromBlock(o: Objs, q: Objs, a: Addr, size: u64, n: Node<Addr>) {
    && n in multiset(o.unused) && size <= n.size
    && (forall k :: k in multiset(o.unused) && size <= k.size ==> n.size <= k.size)
    && a == Addr(n.item.addr, size) && q.tail == o.tail
    && multiset(q.unused) == multiset(o.unused) - multiset{n} + RestOf(n, size)
  }

  /** What remains of a block behind its first `size` bytes. */
  ghost function RestOf(n: Node<Addr>, size: u64): multiset<Node<Addr>> {
    if n.size <= size || U64_LIMIT <= n.item.addr + size then multiset{}
    else multiset{Node(n.size - size, Addr(n.item.addr + size, n.size - size))}
  }

  ghost predicate FromUnused(o: Objs, q: Objs, a: Addr, size: u64) {
    exists n :: FromBlock(o, q, a, size, n)
  }

  /** `a` is the front of the tail, no unused block being large enough. */
  ghost predicate FromTail(o: Objs, q: Objs, a: Addr, size: u64) {
    && (forall n :: n in multiset(o.unused) ==> n.size < size)
    && size <= o.tail.size && a == Addr(o.tail.addr, size) && q.unused == o.unused
    && q.tail.addr == o.tail.addr + size && q.tail.size == o.tail.size - size
  }

  /** The bytes that new blocks can still be cut from. */
  ghost function FreeBytes(o: Objs): nat {
    TotalSize(o.unused) + o.tail.size
  }

  lemma NewAddressTakes(o: Objs, size: u64)
    requires Geometry(o) && 0 < size && NewAddressOf(o, size).Some?
    ensures var (q, a) := NewAddressOf(o, size).value;
      && (FromUnused(o, q, a, size) || FromTail(o, q, a, size)) && FreeBytes(q) + size == FreeBytes(o)
  {
    hide Sorted, ObjectsApart, SplicedRest, SplicedItem, TotalSize;
    ChosenIsBestFit(o.unused, size, U64_MAX);
    match Chosen(o.unused, size, U64_MAX)
    case Some(i) =>
      SplicedTakes(o, i, size);
    case None =>
      Add64Exact(o.tail.addr, size);
      forall n | n in multiset(o.unused) ensures n.size < size { assert n in o.unused; }
  }

  lemma SplicedTakes(o: Objs, i: nat, size: u64)
    requires Geometry(o) && 0 < size && i < |o.unused| && size <= o.unused[i].size
    requires forall k :: k in o.unused && size <= k.size ==> o.unused[i].size <= k.size
    ensures var q := o.(unused := SplicedRest(o.unused, i, size, AdvanceAddress));
      && FromUnused(o, q, SplicedItem(o.unused, i, size, AdvanceAddress), size)
      && FreeBytes(q) + size == FreeBytes(o)
  {
    hide Sorted, ObjectsApart, SplicedRest, TotalSize;
    var n := o.unused[i];
    var q := o.(unused := SplicedRest(o.unused, i, size, AdvanceAddress));
    SplicedMeaning(o.unused, i, size, AdvanceAddress);
    assert n in multiset(o.unused);
    UnusedBlock(o, n);
    Add64Exact(n.item.addr, size);
    assert multiset(o.unused) - multiset{n} + multiset{} == multiset(o.unused) - multiset{n};
    forall k | k in multiset(o.unused) && size <= k.size ensures n.size <= k.size { assert k in o.unused; }
    assert FromBlock(o, q, SplicedItem(o.unused, i, size, AdvanceAddress), size, n);
  }

  // -------------------------------------------------------------------- put

  /** The index keeps its block, which is strictly larger than the object. */
  predicate Reuses(o: Objs, index: u64, size: u64) {
    index in o.addrs && size < o.addrs[index].size
  }

  /** A reused block costs nothing; a new one is cut from one unused block or the tail, and no block comes back. */
  ghost predicate Spent(o: Objs, p: Objs, index: u64, size: u64) {
    if Reuses(o, index, size) then
      p.unused == o.unused && p.tail == o.tail && p.addrs == o.addrs
    else if CanHold(o, index, size) then
      && index in p.addrs && p.addrs == o.addrs[index := p.addrs[index]]
      && (FromUnused(o, p, p.addrs[index], size) || FromTail(o, p, p.addrs[index], size))
      && FreeBytes(p) + size == FreeBytes(o)
    else
      p.unused == o.unused && p.tail == o.tail && p.addrs == o.addrs - {index}
  }

  lemma AddressTakes(o: Objs, index: u64, size: u64)
    requires Geometry(o) && 0 < size
    ensures var (q, a) := AddressFor(o, index, size);
      && Spent(o, q, index, size)
      && q == o.(unused := q.unused, tail := q.tail, addrs := q.addrs)
  {
    hide Sorted, ObjectsApart, NewAddressOf, FromUnused, FromTail, TotalSize;
    if !Reuses(o, index, size) {
      var r := o.(addrs := o.addrs - {index});
      Forget(o.addrs, multiset(o.unused), o.base.addr, UsedEnd(o), index);
      NewAddressExists(r, size);
      if NewAddressOf(r, size).Some? {
        var (q, a) := NewAddressOf(r, size).value;
        NewAddressTakes(r, size);
        NewAddressFrame(r, size);
        FreeOnly(r, o, q, q.(addrs := q.addrs[index := a]), a, size);
        assert (o.addrs - {index})[index := a] == o.addrs[index := a];
      }
    }
  }

  lemma NewAddressExists(o: Objs, size: u64)
    requires Sorted(o.unused)
    ensures NewAddressOf(o, size).Some? <==> (exists n :: n in o.unused && size <= n.size) || size <= o.tail.size
  {
    hide Sorted;
    ChosenIsBestFit(o.unused, size, U64_MAX);
  }

  lemma NewAddressFrame(o: Objs, size: u64)
    requires NewAddressOf(o, size).Some?
    ensures var q := NewAddressOf(o, size).value.0; q == o.(unused := q.unused, tail := q.tail)
  {
  }

  /** Where a block comes from depends on the unused blocks and the tail only. */
  lemma FreeOnly(o: Objs, p: Objs, q: Objs, r: Objs, a: Addr, size: u64)
    requires p.unused == o.unused && p.tail == o.tail && r.unused == q.unused && r.tail == q.tail
    ensures FromUnused(p, r, a, size) <==> FromUnused(o, q, a, size)
    ensures FromTail(p, r, a, size) <==> FromTail(o, q, a, size)
    ensures FreeBytes(p) == FreeBytes(o) && FreeBytes(r) == FreeBytes(q)
  {
    if n :| FromBlock(o, q, a, size, n) { assert FromBlock(p, r, a, size, n); }
    if n :| FromBlock(p, r, a, size, n) { assert FromBlock(o, q, a, size, n); }
  }

  /** As many states as are needed, the index marked, the cache changed at the index only. */
  ghost predicate PutFrame(o: Objs, p: Objs, index: u64, v: Value, kept: bool) {
    && p.base == o.base
    && |p.states| == (if |o.states| <= index then index + 1 else |o.states|)
    && (forall j: u64 :: Has(p, j) <==> Has(o, j) || j == index)
    && p.cache == if kept then o.cache[index := v] else o.cache - {index}
  }

  /** What a put leaves behind besides its object, whether it succeeds or not. */
  lemma PutEffects(o: Objs, s: Store, index: u64, v: Value, keep: bool)
    requires Geometry(o) && index < U64_MAX && 0 < Size(v) < U64_LIMIT
    ensures var (p, t, r) := PutOf(o, s, index, v, keep);
      Spent(o, p, index, Size(v)) && PutFrame(o, p, index, v, keep && r == Success)
  {
    hide Sorted, ObjectsApart, AddressFor, Sze.SerializeOf, TotalSize;
    var m := Marked(o, index);
    assert Geometry(m);
    AddressTakes(m, index, Size(v));
    var q := AddressFor(m, index, Size(v)).0;
    var p := PutOf(o, s, index, v, keep).0;
    assert (o.cache - {index})[index := v] == o.cache[index := v];
    SpentSame(m, o, q, p, index, Size(v));
  }

  lemma SpentSame(m: Objs, o: Objs, q: Objs, p: Objs, index: u64, size: u64)
    requires o.unused == m.unused && o.tail == m.tail && o.addrs == m.addrs
    requires p.unused == q.unused && p.tail == q.tail && p.addrs == q.addrs
    requires Spent(m, q, index, size)
    ensures Spent(o, p, index, size)
  {
    hide FromUnused, FromTail, FreeBytes;
    if index in q.addrs { FreeOnly(m, o, q, p, q.addrs[index], size); }
  }

  /** Reading a block depends on its own bytes only. */
  lemma BlockReadsSame(s: Store, t: Store, ty: Ty, a: Addr)
    requires StoreOk(s) && StoreOk(t) && Located(s, a) && Located(t, a)
    requires forall x :: InAddr(a, x) ==> Mem(t, x) == Mem(s, x)
    ensures Sze.DeserializeOf(t, ty, a) == Sze.DeserializeOf(s, ty, a)
  {
    hide StoreOk, Mem, Decode, ReadbOf;
    var j: u64 :| InMapped(s, j, a);
    var k: u64 :| InMapped(t, k, a);
    ReadMeaning(s, j, a.addr, a.size);
    ReadMeaning(t, k, a.addr, a.size);
    var d, e := ReadbOf(s, a.addr, a.size).value, ReadbOf(t, a.addr, a.size).value;
    forall i | 0 <= i < |d| ensures d[i] == e[i] {
      assert InAddr(a, a.addr + i);
      assert Mem(s, a.addr + i) == Some(d[i]) && Mem(t, a.addr + i) == Some(e[i]);
    }
    assert d == e;
  }

  /** A put leaves what is read at every other index exactly as it was, the cached and the padded included. */
  lemma PutLeavesOthers(o: Objs, s: Store, ty: Ty, objects: Objects, index: u64, v: Value, keep: bool, j: u64)
    requires Holds(o, s, ty, objects) && index < U64_MAX && j != index
    requires HasType(v, ty) && 0 < Size(v) < U64_LIMIT && PutFits(o, s, index, v)
    ensures var (p, t, _) := PutOf(o, s, index, v, keep);
      (Has(p, j) <==> Has(o, j)) && GetOf(p, t, ty, j) == GetOf(o, s, ty, j)
  {
    if CanHold(o, index, Size(v)) {
      PutHolds(o, s, ty, objects, index, v, keep);
      HoldsParts(o, s, ty, objects);
      hide Holds, PutOf, CanHold, HasType, PutFits, Spent, Mem, Sze.DeserializeOf, Geometry;
      PutEffects(o, s, index, v, keep);
      var (p, t, _) := PutOf(o, s, index, v, keep);
      PutAddrs(o, p, index, Size(v));
      OtherReads(o, p, s, t, ty, objects, objects[index := Some(v)], index, j);
    } else {
      hide Holds, PutOf, CanHold, GetOf;
      PutThrows(o, s, ty, objects, index, v, keep);
      assert AsBefore(o, PutOf(o, s, index, v, keep).0, s, ty, j);
    }
  }

  lemma HoldsParts(o: Objs, s: Store, ty: Ty, objects: Objects)
    requires Holds(o, s, ty, objects)
    ensures StoreOk(s) && Geometry(o)
  {
  }

  lemma PutAddrs(o: Objs, p: Objs, index: u64, size: u64)
    requires Spent(o, p, index, size) && index in p.addrs
    ensures p.addrs == o.addrs[index := p.addrs[index]]
  {
    hide FromUnused, FromTail, FreeBytes;
  }

  lemma OtherReads(o: Objs, p: Objs, s: Store, t: Store, ty: Ty, objects: Objects, after: Objects, index: u64, j: u64)
    requires Holds(o, s, ty, objects) && Holds(p, t, ty, after) && j != index
    requires index in p.addrs && p.addrs == o.addrs[index := p.addrs[index]]
    requires Has(p, j) <==> Has(o, j)
    requires j in p.cache <==> j in o.cache
    requires j in o.cache ==> p.cache[j] == o.cache[j]
    requires forall x :: !InAddr(p.addrs[index], x) ==> Mem(t, x) == Mem(s, x)
    ensures GetOf(p, t, ty, j) == GetOf(o, s, ty, j)
  {
    hide StoreOk, Mem, Located, Sorted, Content, Sze.DeserializeOf;
    if j in o.addrs {
      assert AddrsApart(p.addrs[index], p.addrs[j]);
      BlockReadsSame(s, t, ty, o.addrs[j]);
    }
  }

  /** With Keep access the object is read back exactly, whatever storage makes of it; else it comes from storage. */
  lemma PutThenGet(o: Objs, s: Store, ty: Ty, objects: Objects, index: u64, v: Value, keep: bool)
    requires Holds(o, s, ty, objects) && index < U64_MAX
    requires HasType(v, ty) && 0 < Size(v) < U64_LIMIT && PutFits(o, s, index, v) && CanHold(o, index, Size(v))
    ensures var (p, t, _) := PutOf(o, s, index, v, keep);
      && (keep ==> GetOf(p, t, ty, index) == Some(v))
      && (!keep ==> index in p.addrs && GetOf(p, t, ty, index) == Sze.DeserializeOf(t, ty, p.addrs[index]))
  {
    PutHolds(o, s, ty, objects, index, v, keep);
    HoldsParts(o, s, ty, objects);
    hide Holds, PutOf, CanHold, HasType, PutFits, Spent, Mem, Sze.DeserializeOf, Geometry;
    PutEffects(o, s, index, v, keep);
  }

  // ------------------------------------------------------------ get and clear

  /** Reading into the cache adds what was read, and nothing else is different. */
  lemma KeptEffects(o: Objs, s: Store, ty: Ty, objects: Objects, index: u64)
    requires Holds(o, s, ty, objects)
    ensures var got := GetOf(o, s, ty, index);
      KeptOf(o, s, ty, index) == if got.None? then o else o.(cache := o.cache[index := got.value])
    ensures forall j: u64 :: GetOf(KeptOf(o, s, ty, index), s, ty, j) == GetOf(o, s, ty, j)
  {
    hide StoreOk, Geometry, Placement, Content, Sze.DeserializeOf;
    if Has(o, index) { assert SetState(o.states, index, true) == o.states; }
  }

  /** Clearing gives back exactly the index's block and forgets exactly the index. */
  ghost predicate Cleared(o: Objs, p: Objs, index: u64)
    requires index in o.addrs
  {
    var n := Node(o.addrs[index].size, o.addrs[index]);
    && multiset(p.unused) == multiset(o.unused) + multiset{n} && Sorted(p.unused)
    && FreeBytes(p) == FreeBytes(o) + n.size
    && p.base == o.base && p.tail == o.tail && |p.states| == |o.states|
    && p.addrs == o.addrs - {index} && p.cache == o.cache - {index}
    && (forall j: u64 :: Has(p, j) <==> Has(o, j) && j != index)
  }

  lemma ClearEffects(o: Objs, index: u64)
    requires Sorted(o.unused) && (Has(o, index) ==> index in o.addrs)
    ensures var p := ClearOf(o, index);
      if Has(o, index) then Cleared(o, p, index) else p == o
  {
    hide Inserted, Sorted, TotalSize;
    if Has(o, index) { InsertedMeaning(o.unused, Node(o.addrs[index].size, o.addrs[index])); }
  }

  /** So another index can hold what it could before, and whatever fits the block given back. */
  lemma ClearCanHold(o: Objs, index: u64, i: u64, size: u64)
    requires Sorted(o.unused) && Has(o, index) && index in o.addrs && i != index
    ensures CanHold(ClearOf(o, index), i, size) <==> CanHold(o, i, size) || size <= o.addrs[index].size
  {
    var p := ClearOf(o, index);
    ClearEffects(o, index);
    hide ClearOf, Sorted, FreeBytes;
    var n := Node(o.addrs[index].size, o.addrs[index]);
    forall k: Node<Addr> ensures k in p.unused <==> k in o.unused || k == n {
      assert k in p.unused <==> k in multiset(p.unused);
    }
  }

  /** Every other index reads as before. */
  lemma ClearLeavesOthers(o: Objs, s: Store, ty: Ty, index: u64, j: u64)
    requires Sorted(o.unused) && (Has(o, index) ==> index in o.addrs) && j != index
    ensures GetOf(ClearOf(o, index), s, ty, j) == GetOf(o, s, ty, j)
  {
    ClearEffects(o, index);
    hide ClearOf, Sorted, FreeBytes, Sze.DeserializeOf;
  }

  /** No index of the range is marked without having a block. */
  ghost predicate Clearable(o: Objs, i: u64, end: u64) {
    forall k: u64 :: i <= k <= end && Has(o, k) ==> k in o.addrs
  }

  /** `clear(start, end)`. */
  ghost function ClearRangeOf(o: Objs, i: u64, end: u64): Objs
    requires end < U64_MAX && Clearable(o, i, end)
    decreases if i <= end then end - i + 1 else 0
  {
    if i > end then o
    else
      ClearableNext(o, i, end);
      ClearRangeOf(ClearOf(o, i), i + 1, end)
  }

  lemma ClearableHolds(o: Objs, s: Store, ty: Ty, objects: Objects, i: u64, end: u64)
    requires Holds(o, s, ty, objects) && forall k :: i <= k <= end && k in objects ==> Present(objects, k)
    ensures Clearable(o, i, end) && Sorted(o.unused) && Consistent(o)
  {
  }

  lemma ClearRangeStep(o: Objs, i: u64, end: u64)
    requires i <= end < U64_MAX && Clearable(o, i, end)
    ensures (Has(o, i) ==> i in o.addrs) && Clearable(ClearOf(o, i), i + 1, end)
    ensures ClearRangeOf(o, i, end) == ClearRangeOf(ClearOf(o, i), i + 1, end)
  {
    ClearableNext(o, i, end);
  }

  lemma ClearRangeDone(o: Objs, i: u64, end: u64)
    requires end < i && end < U64_MAX
    ensures Clearable(o, i, end) && ClearRangeOf(o, i, end) == o
  {
  }

  lemma ClearableNext(o: Objs, i: u64, end: u64)
    requires i <= end < U64_MAX && Clearable(o, i, end)
    ensures Has(o, i) ==> i in o.addrs
    ensures Clearable(ClearOf(o, i), i + 1, end)
  {
    hide Inserted;
  }

  /** The sizes of the blocks of a range of indices. */
  ghost function RangeBytes(addrs: map<u64, Addr>, i: u64, end: u64): nat
    requires end < U64_MAX
    decreases if i <= end then end - i + 1 else 0
  {
    if i > end then 0 else (if i in addrs then addrs[i].size else 0) + RangeBytes(addrs, i + 1, end)
  }

  lemma {:induction false} RangeBytesSame(a: map<u64, Addr>, b: map<u64, Addr>, i: u64, end: u64)
    requires end < U64_MAX && forall k: u64 :: i <= k ==> (k in a <==> k in b) && (k in a ==> a[k] == b[k])
    ensures RangeBytes(a, i, end) == RangeBytes(b, i, end)
    decreases if i <= end then end - i + 1 else 0
  {
    if i <= end { RangeBytesSame(a, b, i + 1, end); }
  }

  /** Clearing a range forgets exactly its indices and gives back exactly their blocks. */
  ghost predicate RangeCleared(o: Objs, p: Objs, i: u64, end: u64)
    requires end < U64_MAX
  {
    && Sorted(p.unused) && FreeBytes(p) == FreeBytes(o) + RangeBytes(o.addrs, i, end)
    && p.base == o.base && p.tail == o.tail && |p.states| == |o.states|
    && (forall k: u64 :: Has(p, k) <==> Has(o, k) && !(i <= k <= end))
    && (forall k: u64 :: k in p.addrs <==> k in o.addrs && !(i <= k <= end))
    && (forall k: u64 :: k in p.addrs ==> p.addrs[k] == o.addrs[k])
    && (forall k: u64 :: k in p.cache <==> k in o.cache && !(i <= k <= end))
    && (forall k: u64 :: k in p.cache ==> p.cache[k] == o.cache[k])
  }

  lemma {:induction false} ClearRangeEffects(o: Objs, i: u64, end: u64)
    requires Sorted(o.unused) && end < U64_MAX && Clearable(o, i, end) && Consistent(o)
    ensures RangeCleared(o, ClearRangeOf(o, i, end), i, end)
    decreases if i <= end then end - i + 1 else 0
  {
    hide ClearOf, Sorted, TotalSize, Has, RangeCleared, Clearable;
    if i > end {
      RangeClearedNone(o, i, end);
    } else {
      ClearableNext(o, i, end);
      ClearEffects(o, i);
      var p := ClearOf(o, i);
      ClearConsistent(o, p, i);
      ClearRangeEffects(p, i + 1, end);
      RangeClearedNext(o, p, ClearRangeOf(o, i, end), i, end);
    }
  }

  /** Blocks and cached objects are at marked indices only. */
  ghost predicate Consistent(o: Objs) {
    && (forall k: u64 :: k in o.addrs ==> Has(o, k))
    && (forall k: u64 :: k in o.cache ==> k in o.addrs)
  }

  lemma ClearConsistent(o: Objs, p: Objs, i: u64)
    requires Consistent(o) && Sorted(o.unused)
    requires if Has(o, i) then i in o.addrs && Cleared(o, p, i) else p == o
    ensures Consistent(p) && Sorted(p.unused)
  {
    hide Has, TotalSize, Sorted;
  }

  lemma RangeClearedNone(o: Objs, i: u64, end: u64)
    requires end < i && end < U64_MAX && Sorted(o.unused)
    ensures RangeCleared(o, o, i, end)
  {
  }

  lemma RangeClearedNext(o: Objs, p: Objs, q: Objs, i: u64, end: u64)
    requires i <= end < U64_MAX && Consistent(o)
    requires if Has(o, i) then i in o.addrs && Cleared(o, p, i) else p == o
    requires RangeCleared(p, q, i + 1, end)
    ensures RangeCleared(o, q, i, end)
  {
    hide Has, TotalSize, Sorted, RangeBytes;
    RangeBytesSame(p.addrs, o.addrs, i + 1, end);
    RangeBytesStep(o.addrs, i, end);
  }

  lemma RangeBytesStep(addrs: map<u64, Addr>, i: u64, end: u64)
    requires i <= end < U64_MAX
    ensures RangeBytes(addrs, i, end) == (if i in addrs then addrs[i].size else 0) + RangeBytes(addrs, i + 1, end)
  {
  }

  /** So what is read at every other index is as before. */
  lemma ClearRangeLeavesOthers(o: Objs, s: Store, ty: Ty, i: u64, end: u64, j: u64)
    requires end < U64_MAX && Clearable(o, i, end) && !(i <= j <= end)
    requires Sorted(o.unused) && Consistent(o)
    ensures GetOf(ClearRangeOf(o, i, end), s, ty, j) == GetOf(o, s, ty, j)
  {
    ClearRangeEffects(o, i, end);
    hide ClearRangeOf, RangeBytes, FreeBytes, Sorted, Sze.DeserializeOf, Consistent, Clearable;
  }

  // -------------------------------------------------------------------- fill

  /** Filling takes exactly the missing bytes, caches nothing, and makes as many states as are needed. */
  ghost predicate FillFrame(o: Objs, p: Objs, i: u64, end: u64, f: map<u64, Value>)
    requires end < U64_MAX && Sized(f, i, end)
  {
    && p.base == o.base && p.cache == o.cache
    && |p.states| == (if i <= end && |o.states| <= end then end + 1 else |o.states|)
    && FreeBytes(p) + Packing.Sum(NeedsOf(o, i, end, f)) == FreeBytes(o)
  }

  lemma {:induction false} FillEffects(o: Objs, s: Store, ty: Ty, objects: Objects, i: u64, end: u64,
          f: map<u64, Value>, count: nat)
    requires Holds(o, s, ty, objects) && RoomForTail(o, s)
    requires end < U64_MAX && Fillers(ty, f, i, end) && CanFill(o, i, end, f)
    ensures FillFrame(o, FillOf(o, s, ty, i, end, f, count).0, i, end, f)
    decreases if i <= end then end - i + 1 else 0
  {
    hide Holds, CanHold, CanFill, PutOf, HasType, Size, RoomForTail, Fillers, Sized, Has, FillOf, FillFrame, OnlyBase;
    hide Geometry, StoreOk;
    if i > end {
      FillDone(o, s, ty, i, end, f, count);
      FillFrameNone(o, i, end, f);
    } else {
      FillerOk(ty, f, i, end);
      FillNext(o, s, ty, i, end, f, count);
      HoldsFacts(o, s, ty, objects, i);
      CanFillNext(o, s, i, end, f);
      if Has(o, i) {
        FillEffects(o, s, ty, objects, i + 1, end, f, count);
        FillFrameHas(o, FillOf(o, s, ty, i, end, f, count).0, i, end, f);
      } else {
        PutOnlyBase(o, s, ty, objects, i, f[i], false);
        var (p, t, _) := PutOf(o, s, i, f[i], false);
        FillEffects(p, t, ty, objects[i := Some(f[i])], i + 1, end, f, count + 1);
        HoldsParts(o, s, ty, objects);
        UncachedUnlessMarked(o, s, ty, objects, i);
        PutFillFrame(o, s, FillOf(o, s, ty, i, end, f, count).0, i, end, f);
      }
    }
  }

  lemma FillFrameNone(o: Objs, i: u64, end: u64, f: map<u64, Value>)
    requires end < i && end < U64_MAX && Sized(f, i, end)
    ensures FillFrame(o, o, i, end, f)
  {
  }

  lemma FillFrameHas(o: Objs, p: Objs, i: u64, end: u64, f: map<u64, Value>)
    requires i <= end < U64_MAX && Sized(f, i, end) && Sized(f, i + 1, end) && Has(o, i)
    requires FillFrame(o, p, i + 1, end, f)
    ensures FillFrame(o, p, i, end, f)
  {
  }

  lemma PutFillFrame(o: Objs, s: Store, q: Objs, i: u64, end: u64, f: map<u64, Value>)
    requires Geometry(o) && i !in o.addrs && i !in o.cache
    requires i <= end < U64_MAX && Sized(f, i, end) && Sized(f, i + 1, end)
    requires !Has(o, i) && i in f && 0 < Size(f[i]) < U64_LIMIT && CanHold(o, i, Size(f[i]))
    requires FillFrame(PutOf(o, s, i, f[i], false).0, q, i + 1, end, f)
    ensures FillFrame(o, q, i, end, f)
  {
    hide PutOf, CanHold, Geometry, Size, Sized, Has, FreeBytes, Spent, NeedsOf, Packing.Sum;
    PutEffects(o, s, i, f[i], false);
    var p := PutOf(o, s, i, f[i], false).0;
    SpentBytes(o, p, i, Size(f[i]));
    NeedsSame(o, p, i + 1, end, f);
    NeedsStep(o, i, end, f);
    assert o.cache - {i} == o.cache;
  }

  lemma SpentBytes(o: Objs, p: Objs, index: u64, size: u64)
    requires Spent(o, p, index, size) && CanHold(o, index, size) && index !in o.addrs
    ensures FreeBytes(p) + size == FreeBytes(o)
  {
    hide FromUnused, FromTail, FreeBytes;
  }

  lemma NeedsStep(o: Objs, i: u64, end: u64, f: map<u64, Value>)
    requires i <= end < U64_MAX && Sized(f, i, end) && !Has(o, i)
    ensures i in f && Sized(f, i + 1, end)
    ensures Packing.Sum(NeedsOf(o, i, end, f)) == Size(f[i]) + Packing.Sum(NeedsOf(o, i + 1, end, f))
  {
    var needs := NeedsOf(o, i, end, f);
    assert needs[1..] == NeedsOf(o, i + 1, end, f);
  }

  lemma UncachedUnlessMarked(o: Objs, s: Store, ty: Ty, objects: Objects, i: u64)
    requires Holds(o, s, ty, objects) && !Has(o, i)
    ensures i !in o.cache
  {
  }

  /** What was there reads exactly as before. */
  lemma {:induction false} FillLeavesOthers(o: Objs, s: Store, ty: Ty, objects: Objects, i: u64, end: u64,
          f: map<u64, Value>, count: nat, j: u64)
    requires Holds(o, s, ty, objects) && RoomForTail(o, s) && Has(o, j)
    requires end < U64_MAX && Fillers(ty, f, i, end) && CanFill(o, i, end, f)
    ensures var (p, t, _, _) := FillOf(o, s, ty, i, end, f, count);
      Has(p, j) && GetOf(p, t, ty, j) == GetOf(o, s, ty, j)
    decreases if i <= end then end - i + 1 else 0
  {
    hide Holds, CanHold, CanFill, PutOf, PutFits, HasType, Size, RoomForTail, Fillers, Sized, Has, FillOf, OnlyBase;
    hide GetOf;
    if i > end {
      FillDone(o, s, ty, i, end, f, count);
    } else {
      FillerOk(ty, f, i, end);
      FillNext(o, s, ty, i, end, f, count);
      HoldsFacts(o, s, ty, objects, i);
      CanFillNext(o, s, i, end, f);
      if Has(o, i) {
        FillLeavesOthers(o, s, ty, objects, i + 1, end, f, count, j);
      } else {
        PutOnlyBase(o, s, ty, objects, i, f[i], false);
        PutKeepsRoom(o, s, ty, objects, i, f[i], false);
        PutLeavesOthers(o, s, ty, objects, i, f[i], false, j);
        var (p, t, _) := PutOf(o, s, i, f[i], false);
        FillLeavesOthers(p, t, ty, objects[i := Some(f[i])], i + 1, end, f, count + 1, j);
      }
    }
  }

  /** A new store can hand out its whole range, and has no index. */
  lemma NewEffects(base: Addr, i: u64, size: u64)
    ensures FreeBytes(NewObjs(base)) == base.size && NewObjs(base).states == []
    ensures CanHold(NewObjs(base), i, size) <==> size <= base.size
  {
  }
}

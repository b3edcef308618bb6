/**
 `SimpleObjectStorage` of include/storage/SimpleObjectStorage.hpp as a value: objects
 of one type, kept by index in a base range of a storage, with a cache in front.
 */
module ObjectSpec {
  import opened Machine
  import IntervalSpec
  import opened FreeList
  import opened Tiling
  import opened MappingSpec
  import opened Addresses
  import opened Cells
  import opened Codec
  import opened Buffers
  import opened StorageSpec
  import opened Sze
  import opened ObjectBlocks

  datatype Objs = Objs(
    base: Addr,
    tail: Addr,
    cache: map<u64, Value>,
    states: seq<bool>,
    addrs: map<u64, Addr>,
    unused: seq<Node<Addr>>)

  /** What the indices hold: an object, or nothing where a put that found no block left its mark. */
  type Objects = map<u64, Option<Value>>

  predicate Present(objects: Objects, index: u64) {
    index in objects && objects[index].Some?
  }

  // ---------------------------------------------------------------- operations

  /** `StorageAddress::offset`. */
  function OffsetBy(a: Addr, n: u64): Addr
    requires n <= a.size
  {
    Addr(Add64(a.addr, n), a.size - n)
  }

  /** `StorageAddress::subrange` from the start of the range. */
  function FrontOf(a: Addr, n: u64): Addr
    requires n <= a.size
  {
    Addr(a.addr, n)
  }

  /** What `splice` does to a block; the source's asserts hold because a block's key is its size. */
  function AdvanceAddress(a: Addr, size: u64): (Addr, Addr) {
    if size <= a.size then (OffsetBy(a, size), FrontOf(a, size)) else (a, a)
  }

  predicate Has(o: Objs, index: u64) {
    index < |o.states| && o.states[index]
  }

  function Resized(states: seq<bool>, n: nat): (r: seq<bool>)
    ensures |r| == if n <= |states| then |states| else n
    ensures forall i :: 0 <= i < |r| ==> r[i] == (i < |states| && states[i])
  {
    if n <= |states| then states else states + seq(n - |states|, _ => false)
  }

  function SetState(states: seq<bool>, index: u64, val: bool): seq<bool> {
    Resized(states, index + 1)[index := val]
  }

  /** `getNewAddress`: an unused block of best fit, else the front of the tail; `None` where the source throws. */
  ghost function NewAddressOf(o: Objs, size: u64): Option<(Objs, Addr)> {
    match Chosen(o.unused, size, U64_MAX)
    case Some(i) =>
      Some((o.(unused := SplicedRest(o.unused, i, size, AdvanceAddress)),
            SplicedItem(o.unused, i, size, AdvanceAddress)))
    case None =>
      if o.tail.size < size then None
      else Some((o.(tail := OffsetBy(o.tail, size)), FrontOf(o.tail, size)))
  }

  /** `allocAddrForIndex`: the old block is reused only if it is strictly larger. */
  ghost function AddressFor(o: Objs, index: u64, size: u64): (Objs, Option<Addr>) {
    if index in o.addrs && size < o.addrs[index].size then (o, Some(o.addrs[index]))
    else
      var p := o.(addrs := o.addrs - {index});
      match NewAddressOf(p, size)
      case None => (p, None)
      case Some((q, a)) => (q.(addrs := q.addrs[index := a]), Some(a))
  }

  /** The store once the old cached object is dropped and the index is marked. */
  ghost function Marked(o: Objs, index: u64): Objs {
    o.(cache := o.cache - {index}, states := SetState(o.states, index, true))
  }

  ghost function PutOf(o: Objs, s: Store, index: u64, v: Value, keep: bool): (Objs, Store, Result)
    requires 0 < Size(v) < U64_LIMIT
  {
    match AddressFor(Marked(o, index), index, Size(v))
    case (q, None) => (q, s, Thrown)
    case (q, Some(a)) =>
      var (t, _, r) := SerializeOf(s, v, a);
      (if keep && r == Success then q.(cache := q.cache[index := v]) else q, t, r)
  }

  ghost function GetOf(o: Objs, s: Store, ty: Ty, index: u64): Option<Value> {
    if !Has(o, index) then None
    else if index in o.cache then Some(o.cache[index])
    else if index in o.addrs then DeserializeOf(s, ty, o.addrs[index])
    else None
  }

  /** `getRef`, and `get` with Keep access: what is read stays in the cache. */
  ghost function KeptOf(o: Objs, s: Store, ty: Ty, index: u64): Objs {
    match GetOf(o, s, ty, index)
    case None => o
    case Some(v) => o.(states := SetState(o.states, index, true), cache := o.cache[index := v])
  }

  ghost function ClearOf(o: Objs, index: u64): Objs
    requires Has(o, index) ==> index in o.addrs
  {
    if !Has(o, index) then o
    else
      o.(cache := o.cache - {index},
         states := SetState(o.states, index, false),
         unused := Inserted(o.unused, Node(o.addrs[index].size, o.addrs[index])),
         addrs := o.addrs - {index})
  }

  // ---------------------------------------------------------------- invariants

  /** A block inside one mapped client interval. */
  ghost predicate InMapped(s: Store, k: u64, a: Addr) {
    IsRange(a.addr, a.size) && Within(s.vam.ivs, k, a.addr, a.size) && s.vam.ivs[k].value != UNMAPPED && 3 <= k / CELL
  }

  predicate InAddr(a: Addr, x: int) {
    a.addr <= x < a.addr + a.size
  }

  ghost predicate Located(s: Store, a: Addr) {
    exists k: u64 :: InMapped(s, k, a)
  }

  /** Where the tail begins; a store that was read back has none. */
  function UsedEnd(o: Objs): int {
    if o.tail.size != 0 then o.tail.addr else o.base.addr + o.base.size
  }

  /** The tail ends where the base does. */
  predicate TailInBase(o: Objs) {
    o.tail.size != 0 ==>
      o.base.addr <= o.tail.addr && o.tail.addr + o.tail.size == o.base.addr + o.base.size
  }

  /** Blocks do not overlap one another or the tail. */
  ghost predicate Geometry(o: Objs) {
    && Sorted(o.unused)
    && 3 * CELL <= o.base.addr && o.base.addr + o.base.size < U64_LIMIT
    && TailInBase(o)
    && ObjectsApart(o.addrs, multiset(o.unused), o.base.addr, UsedEnd(o))
  }

  /** Every block is mapped; the tail is one unmapped interval. */
  ghost predicate Placement(o: Objs, s: Store) {
    && (forall i :: i in o.addrs ==> Located(s, o.addrs[i]))
    && (forall n :: n in multiset(o.unused) ==> Located(s, n.item))
    && TailFree(o.tail, s)
  }

  ghost predicate TailFree(tail: Addr, s: Store) {
    tail.size != 0 ==>
      && tail.addr in s.vam.ivs && s.vam.ivs[tail.addr].end == tail.addr + tail.size - 1
      && s.vam.ivs[tail.addr].value == UNMAPPED
  }

  /** What may come back for an object: the object, or what storage makes of it. A NUL in it leaves this open. */
  ghost predicate Recalls(got: Value, v: Value) {
    NulFree(v) ==> got == v || got == Padded(v)
  }

  /** A storable object comes back as it is. */
  lemma RecallsStorable(got: Value, v: Value)
    requires Recalls(got, v) && Storable(v)
    ensures got == v
  {
    PaddedIsSelfIff(v);
  }

  /** Marks, addresses and objects agree: an index has an object exactly when it has an address. */
  ghost predicate Indexed(o: Objs, objects: Objects) {
    && (forall i: u64 :: Has(o, i) <==> i in objects)
    && Addressed(o, objects)
    && (forall i :: i in o.cache ==> Present(objects, i) && Recalls(o.cache[i], objects[i].value))
  }

  ghost predicate Addressed(o: Objs, objects: Objects) {
    forall i: u64 :: i in o.addrs <==> Present(objects, i)
  }

  ghost predicate ObjectAt(s: Store, ty: Ty, a: Addr, v: Value) {
    HasType(v, ty) && Size(v) <= a.size && Seen(s, a.addr, Encode(v))
  }

  ghost predicate Content(o: Objs, s: Store, ty: Ty, objects: Objects) {
    forall i :: i in o.addrs && Present(objects, i) ==> ObjectAt(s, ty, o.addrs[i], objects[i].value)
  }

  /** The object store holds exactly `objects`. */
  ghost predicate Holds(o: Objs, s: Store, ty: Ty, objects: Objects) {
    StoreOk(s) && Geometry(o) && Placement(o, s) && Indexed(o, objects) && Content(o, s, ty, objects)
  }

  // ------------------------------------------------------------ new addresses

  lemma SubBlockLocated(s: Store, a: Addr, b: Addr)
    requires Located(s, a) && 0 < b.size && a.addr <= b.addr && b.addr + b.size <= a.addr + a.size
    ensures Located(s, b)
  {
    var k: u64 :| InMapped(s, k, a);
    assert InMapped(s, k, b);
  }

  /** Handing out a block: it is a block of its own, of exactly the size asked for. */
  ghost predicate HandedOut(o: Objs, p: Objs, s: Store, a: Addr, size: u64) {
    && p == o.(unused := p.unused, tail := p.tail)
    && Sorted(p.unused) && a.size == size && TailInBase(p)
    && ObjectsApart(o.addrs, multiset(p.unused) + multiset{Node(size, a)}, o.base.addr, UsedEnd(p))
    && (forall n :: n in multiset(p.unused) ==> Located(s, n.item))
    && (if p.tail == o.tail then Located(s, a)
        else size <= o.tail.size && a == FrontOf(o.tail, size) && p.tail == OffsetBy(o.tail, size))
  }

  lemma NewAddressIsBlock(o: Objs, s: Store, size: u64)
    requires Geometry(o) && 0 < size
    requires forall n :: n in multiset(o.unused) ==> Located(s, n.item)
    ensures NewAddressOf(o, size).Some? <==> (exists n :: n in o.unused && size <= n.size) || size <= o.tail.size
    ensures NewAddressOf(o, size).Some? ==>
              var (p, a) := NewAddressOf(o, size).value; HandedOut(o, p, s, a, size)
  {
    hide Sorted, ObjectsApart, Located, HandedOut, SplicedRest, SplicedItem;
    ChosenIsBestFit(o.unused, size, U64_MAX);
    match Chosen(o.unused, size, U64_MAX)
    case Some(i) => SplicedBlock(o, s, i, size);
    case None => if size <= o.tail.size { TailBlock(o, s, size); }
  }

  lemma TailBlock(o: Objs, s: Store, size: u64)
    requires Geometry(o) && 0 < size <= o.tail.size
    requires forall n :: n in multiset(o.unused) ==> Located(s, n.item)
    ensures HandedOut(o, o.(tail := OffsetBy(o.tail, size)), s, FrontOf(o.tail, size), size)
  {
    hide Sorted, ObjectsApart, Located;
    Add64Exact(o.tail.addr, size);
    GrowTail(o.addrs, multiset(o.unused), o.base.addr, o.tail.addr, Node(size, FrontOf(o.tail, size)));
  }

  lemma SplicedBlock(o: Objs, s: Store, i: nat, size: u64)
    requires Geometry(o) && 0 < size && i < |o.unused| && size <= o.unused[i].size
    requires forall n :: n in multiset(o.unused) ==> Located(s, n.item)
    ensures HandedOut(o, o.(unused := SplicedRest(o.unused, i, size, AdvanceAddress)), s,
                      SplicedItem(o.unused, i, size, AdvanceAddress), size)
  {
    hide Sorted, Located, SplicedRest, ObjectsApart, HandedOut, Geometry;
    var n := o.unused[i];
    var rest := SplicedRest(o.unused, i, size, AdvanceAddress);
    GeometrySorted(o);
    SplicedMeaning(o.unused, i, size, AdvanceAddress);
    assert n in multiset(o.unused);
    UnusedBlock(o, n);
    if n.size == size {
      WholeHandedOut(o, s, n, rest);
    } else {
      PartHandedOut(o, s, n, rest, size);
    }
  }

  lemma GeometrySorted(o: Objs)
    requires Geometry(o)
    ensures Sorted(o.unused)
  {
  }

  lemma WholeHandedOut(o: Objs, s: Store, n: Node<Addr>, rest: seq<Node<Addr>>)
    requires Geometry(o) && n in multiset(o.unused) && n.size == n.item.size
    requires forall n :: n in multiset(o.unused) ==> Located(s, n.item)
    requires Sorted(rest) && multiset(rest) == multiset(o.unused) - multiset{n}
    ensures HandedOut(o, o.(unused := rest), s, n.item, n.size)
  {
    hide Sorted, Located, ObjectsApart;
    assert n == Node(n.size, n.item);
    assert multiset(rest) + multiset{n} == multiset(o.unused);
  }

  lemma PartHandedOut(o: Objs, s: Store, n: Node<Addr>, rest: seq<Node<Addr>>, size: u64)
    requires Geometry(o) && n in multiset(o.unused) && 0 < size < n.size == n.item.size
    requires o.base.addr <= n.item.addr && n.item.addr + n.size <= UsedEnd(o)
    requires forall n :: n in multiset(o.unused) ==> Located(s, n.item)
    requires Sorted(rest)
    requires multiset(rest) == multiset(o.unused) - multiset{n} + multiset{Node(n.size - size, OffsetBy(n.item, size))}
    ensures HandedOut(o, o.(unused := rest), s, FrontOf(n.item, size), size)
  {
    hide Sorted, Located, ObjectsApart;
    Add64Exact(n.item.addr, size);
    var a, b := Node(size, FrontOf(n.item, size)), Node(n.size - size, OffsetBy(n.item, size));
    CutBlock(o.addrs, multiset(o.unused), o.base.addr, UsedEnd(o), n, a, b);
    SubBlockLocated(s, n.item, a.item);
    SubBlockLocated(s, n.item, b.item);
  }

  lemma UnusedBlock(o: Objs, n: Node<Addr>)
    requires Geometry(o) && n in multiset(o.unused)
    ensures n.size == n.item.size && 0 < n.size && o.base.addr <= n.item.addr && n.item.addr + n.size <= UsedEnd(o)
  {
  }

  lemma LiveBlock(o: Objs, i: u64)
    requires Geometry(o) && i in o.addrs
    ensures 0 < o.addrs[i].size && o.base.addr <= o.addrs[i].addr && o.addrs[i].addr + o.addrs[i].size <= UsedEnd(o)
  {
  }

  // -------------------------------------------------------- address for index

  /** The index's old block can be reused, or an unused block or the tail is large enough. */
  predicate CanHold(o: Objs, index: u64, size: u64) {
    || (index in o.addrs && size < o.addrs[index].size)
    || (exists n :: n in o.unused && size <= n.size)
    || size <= o.tail.size
  }

  /** `q` is `o` with block `a` given to `index`, which keeps every other block where it was. */
  ghost predicate Given(o: Objs, q: Objs, s: Store, index: u64, a: Addr, size: u64) {
    && Geometry(q) && q == o.(addrs := q.addrs, unused := q.unused, tail := q.tail)
    && q.addrs == o.addrs[index := a] && size <= a.size
    && (forall n :: n in multiset(q.unused) ==> Located(s, n.item))
    && (if q.tail == o.tail then Located(s, a)
        else size == a.size && size <= o.tail.size && a == FrontOf(o.tail, size) && q.tail == OffsetBy(o.tail, size))
  }

  /** An address is found exactly when the store can hold the object. */
  lemma AddressForIsGiven(o: Objs, s: Store, index: u64, size: u64)
    requires Geometry(o) && Placement(o, s) && 0 < size
    ensures var (q, a) := AddressFor(o, index, size);
      && (a.Some? <==> CanHold(o, index, size))
      && (a.None? ==> q == o.(addrs := o.addrs - {index}))
      && (a.Some? ==> Given(o, q, s, index, a.value, size))
  {
    hide ObjectsApart, Located, NewAddressOf, Sorted, TailFree, HandedOut;
    if index in o.addrs && size < o.addrs[index].size {
      assert o.addrs[index := o.addrs[index]] == o.addrs;
    } else {
      var p := o.(addrs := o.addrs - {index});
      Forget(o.addrs, multiset(o.unused), o.base.addr, UsedEnd(o), index);
      NewAddressIsBlock(p, s, size);
      if NewAddressOf(p, size).Some? {
        var (q, a) := NewAddressOf(p, size).value;
        GivenNew(o, q, s, index, a, size);
      }
    }
  }

  lemma GivenNew(o: Objs, q: Objs, s: Store, index: u64, a: Addr, size: u64)
    requires Geometry(o) && HandedOut(o.(addrs := o.addrs - {index}), q, s, a, size)
    ensures Given(o, q.(addrs := q.addrs[index := a]), s, index, a, size)
  {
    hide ObjectsApart, Located, Sorted;
    var n := Node(size, a);
    var unused := multiset(q.unused) + multiset{n};
    HandOut(q.addrs, unused, o.base.addr, UsedEnd(q), n, index);
    assert unused - multiset{n} == multiset(q.unused);
    assert (o.addrs - {index})[index := a] == o.addrs[index := a];
  }

  // ------------------------------------------------------------------- storing

  /** What storing into a range does to the intervals: nothing if it was mapped, one cut if it was the first touch. */
  ghost predicate Stored(s: Store, t: Store, k: u64, a: Addr)
    requires k in s.vam.ivs
  {
    if s.vam.ivs[k].value != UNMAPPED then t.vam == s.vam
    else
      var e := s.vam.ivs[k].end;
      && k == a.addr
      && (forall j: u64 :: j in s.vam.ivs && j != k ==> j in t.vam.ivs && t.vam.ivs[j] == s.vam.ivs[j])
      && k in t.vam.ivs && t.vam.ivs[k].end == k + a.size - 1 && t.vam.ivs[k].value != UNMAPPED
      && (k + a.size - 1 < e ==>
            k + a.size in t.vam.ivs && t.vam.ivs[k + a.size].end == e && t.vam.ivs[k + a.size].value == UNMAPPED)
  }

  lemma StoreIntoStructure(s: Store, k: u64, v: Value, a: Addr)
    requires StoreOk(s) && Addressable(s, k, a.addr, a.size) && FitsAt(s, a.addr, a.size) && Size(v) <= a.size
    ensures Stored(s, StoreInto(s, v, a).0, k, a)
  {
    hide StoreOk, LookupOf, Within, Stored;
    LookupKeepsStore(s, k, a.addr, a.size, false);
    LookupStructure(s, k, a);
  }

  lemma LookupStructure(s: Store, k: u64, a: Addr)
    requires StoreOk(s) && Addressable(s, k, a.addr, a.size) && FitsAt(s, a.addr, a.size)
    requires LookupOf(s.vam, a.addr, a.size, false).Some?
    ensures forall b :: Stored(s, Store(s.meta, LookupOf(s.vam, a.addr, a.size, false).value.vam, b), k, a)
  {
    hide Tiled, IntervalSpec.Disjoint, AllocOffset, CellsOk, SystemCells;
    LookupFindsWithin(s.vam, k, a.addr, a.size);
    AvailFits(s, k, k);
    if s.vam.ivs[k].value == UNMAPPED {
      AllocOffsetTiles(s.vam, a.addr, a.size);
      RightHalf(s, k, a.size);
    }
  }

  lemma RightHalf(s: Store, k: u64, size: u64)
    requires StoreOk(s) && size != 0 && Within(s.vam.ivs, k, k, size)
    ensures EndOffset(k, size) == k + size - 1
    ensures k + size - 1 < s.vam.ivs[k].end ==> Inc(EndOffset(k, size)) == k + size && k + size !in s.vam.ivs
  {
  }

  lemma LocatedKept(s: Store, t: Store, k: u64, a: Addr, b: Addr)
    requires k in s.vam.ivs && Stored(s, t, k, a) && Located(s, b)
    ensures Located(t, b)
  {
    var j: u64 :| InMapped(s, j, b);
    assert InMapped(t, j, b);
  }

  /** The interval through which a block just given is reached. */
  lemma GivenAddressable(o: Objs, q: Objs, s: Store, index: u64, a: Addr, size: u64) returns (k: u64)
    requires Geometry(o) && TailFree(o.tail, s) && Given(o, q, s, index, a, size) && 0 < size
    ensures Addressable(s, k, a.addr, a.size)
    ensures q.tail == o.tail ==> s.vam.ivs[k].value != UNMAPPED
    ensures q.tail != o.tail ==> k == a.addr && s.vam.ivs[k].value == UNMAPPED
  {
    hide ObjectsApart, Sorted;
    if q.tail == o.tail {
      k :| InMapped(s, k, a);
    } else {
      k := a.addr;
    }
  }

  lemma PlacementKept(o: Objs, q: Objs, s: Store, t: Store, index: u64, a: Addr, size: u64, k: u64)
    requires Geometry(o) && Placement(o, s) && Given(o, q, s, index, a, size) && 0 < size
    requires Addressable(s, k, a.addr, a.size) && Stored(s, t, k, a)
    requires q.tail == o.tail ==> s.vam.ivs[k].value != UNMAPPED
    requires q.tail != o.tail ==> k == a.addr && s.vam.ivs[k].value == UNMAPPED
    ensures Placement(q, t)
  {
    hide ObjectsApart, Located, Stored, Sorted;
    forall n | n in multiset(q.unused) ensures Located(t, n.item) { LocatedKept(s, t, k, a, n.item); }
    forall i | i in q.addrs ensures Located(t, q.addrs[i]) {
      if i != index {
        LocatedKept(s, t, k, a, o.addrs[i]);
      } else {
        GivenLocated(o, q, s, t, index, a, size, k);
      }
    }
    TailKept(o, q, s, t, index, a, size, k);
  }

  lemma GivenLocated(o: Objs, q: Objs, s: Store, t: Store, index: u64, a: Addr, size: u64, k: u64)
    requires Given(o, q, s, index, a, size)
    requires Addressable(s, k, a.addr, a.size) && Stored(s, t, k, a)
    ensures Located(t, a)
  {
    assert InMapped(t, k, a);
  }

  lemma TailKept(o: Objs, q: Objs, s: Store, t: Store, index: u64, a: Addr, size: u64, k: u64)
    requires Geometry(o) && TailFree(o.tail, s) && Given(o, q, s, index, a, size) && 0 < size
    requires Addressable(s, k, a.addr, a.size) && Stored(s, t, k, a)
    requires q.tail == o.tail ==> s.vam.ivs[k].value != UNMAPPED
    requires q.tail != o.tail ==> k == a.addr && s.vam.ivs[k].value == UNMAPPED
    ensures TailFree(q.tail, t)
  {
    hide ObjectsApart, Located, Sorted;
    if q.tail != o.tail { Add64Exact(o.tail.addr, size); }
  }

  /** Bytes apart from a written range are seen as before. */
  lemma SeenKept(s: Store, t: Store, a: Addr, w: seq<byte>, b: Addr, d: seq<byte>)
    requires AddrsApart(a, b) && |d| <= b.size && |w| <= a.size && Seen(s, b.addr, d)
    requires forall x :: WriteSeen(s, t, a.addr, a.size, w, x)
    ensures Seen(t, b.addr, d)
  {
    hide Mem;
    forall i | 0 <= i < |d| ensures Mem(t, b.addr + i) == Some(d[i]) {
      assert WriteSeen(s, t, a.addr, a.size, w, b.addr + i);
    }
  }

  lemma SeenWritten(s: Store, t: Store, a: Addr, v: Value)
    requires Size(v) <= a.size
    requires forall x :: WriteSeen(s, t, a.addr, a.size, Written(v, a.size), x)
    ensures Seen(t, a.addr, Encode(v))
  {
    hide Mem, Encode;
    var w, d := Written(v, a.size), Encode(v);
    forall i | 0 <= i < |d| ensures Mem(t, a.addr + i) == Some(d[i]) {
      assert WriteSeen(s, t, a.addr, a.size, w, a.addr + i);
      assert w[..Size(v)][i] == d[i];
    }
  }

  lemma ContentKept(o: Objs, q: Objs, s: Store, t: Store, ty: Ty, objects: Objects, index: u64, v: Value, a: Addr)
    requires Geometry(q) && q.addrs == o.addrs[index := a] && Content(o, s, ty, objects)
    requires Addressed(o, objects)
    requires HasType(v, ty) && Size(v) <= a.size
    requires forall x :: WriteSeen(s, t, a.addr, a.size, Written(v, a.size), x)
    ensures Content(q, t, ty, objects[index := Some(v)])
  {
    hide Encode, Seen, HasType, Sorted;
    SeenWritten(s, t, a, v);
    forall i | i in q.addrs && i != index && Present(objects, i) ensures ObjectAt(t, ty, q.addrs[i], objects[i].value) {
      assert AddrsApart(q.addrs[index], q.addrs[i]);
      SeenKept(s, t, a, Written(v, a.size), q.addrs[i], Encode(objects[i].value));
    }
  }

  // ----------------------------------------------------------------------- put

  /** The storage has space for what a put of `v` at `index` would map. */
  ghost predicate PutFits(o: Objs, s: Store, index: u64, v: Value)
    requires 0 < Size(v) < U64_LIMIT
  {
    var a := AddressFor(Marked(o, index), index, Size(v)).1;
    a.Some? ==> FitsAt(s, a.value.addr, a.value.size)
  }

  /**
   A put that the store can hold succeeds; afterwards exactly the index's object has
   changed, in the cache as in storage, and no byte outside the base range has.
   */
  lemma PutHolds(o: Objs, s: Store, ty: Ty, objects: Objects, index: u64, v: Value, keep: bool)
    requires Holds(o, s, ty, objects) && index < U64_MAX
    requires HasType(v, ty) && 0 < Size(v) < U64_LIMIT
    requires CanHold(o, index, Size(v)) && PutFits(o, s, index, v)
    ensures var (p, t, r) := PutOf(o, s, index, v, keep);
      && r == Success && Holds(p, t, ty, objects[index := Some(v)]) && p.base == o.base && t.meta == s.meta
      && (InOneCell(o.base) ==> SameOutside(s.vam.ivs, t.vam.ivs, o.base.addr / CELL))
      && (forall x :: !(o.base.addr <= x < o.base.addr + o.base.size) ==> Mem(t, x) == Mem(s, x))
      && index in p.addrs && (forall x :: !InAddr(p.addrs[index], x) ==> Mem(t, x) == Mem(s, x))
  {
    hide StoreOk, Content, Geometry, Placement, CanHold, AddressFor, StoreInto, Mem, HasType, Given, Indexed, SetState;
    var m := Marked(o, index);
    MarkedGeometry(o, s, index);
    MarkedCanHold(o, index, Size(v));
    AddressForIsGiven(m, s, index, Size(v));
    var (q, found) := AddressFor(m, index, Size(v));
    var a := found.value;
    GivenFacts(m, q, s, index, a, Size(v));
    IndexedAddressed(o, objects);
    GivenStored(o, q, s, ty, objects, index, v, a);
    var p := PutOf(o, s, index, v, keep).0;
    MarksIrrelevant(q, p, StoreInto(s, v, a).0, ty, objects[index := Some(v)]);
    PutIndexed(o, p, objects, index, v, a);
  }

  lemma IndexedAddressed(o: Objs, objects: Objects)
    requires Indexed(o, objects)
    ensures Addressed(o, objects)
  {
  }

  lemma PutIndexed(o: Objs, p: Objs, objects: Objects, index: u64, v: Value, a: Addr)
    requires Indexed(o, objects) && index < U64_MAX
    requires p.addrs == o.addrs[index := a] && p.states == SetState(o.states, index, true)
    requires p.cache == o.cache - {index} || p.cache == (o.cache - {index})[index := v]
    ensures Indexed(p, objects[index := Some(v)])
  {
  }

  /** The base range lies in one address cell, as every range handed out does. */
  predicate InOneCell(base: Addr) {
    0 < base.size && base.addr + base.size < (base.addr / CELL) * CELL + CELL
  }

  lemma GivenCell(base: Addr, s: Store, k: u64, a: Addr)
    requires StoreOk(s) && Addressable(s, k, a.addr, a.size) && InOneCell(base)
    requires base.addr <= a.addr && a.addr + a.size <= base.addr + base.size
    ensures k / CELL == base.addr / CELL
  {
    assert InCell(k, s.vam.ivs[k].end, k / CELL);
    CellOf(a.addr, base.addr / CELL);
    CellOf(a.addr, k / CELL);
  }

  /** Storing into the block just given. */
  lemma GivenStored(o: Objs, q: Objs, s: Store, ty: Ty, objects: Objects, index: u64, v: Value, a: Addr)
    requires StoreOk(s) && Geometry(o) && Placement(o, s) && Content(o, s, ty, objects) && Addressed(o, objects)
    requires HasType(v, ty) && 0 < Size(v) < U64_LIMIT
    requires Given(Marked(o, index), q, s, index, a, Size(v)) && Size(v) <= a.size && FitsAt(s, a.addr, a.size)
    ensures var (t, r) := StoreInto(s, v, a);
      && r == Success && StoreOk(t) && t.meta == s.meta
      && Placement(q, t) && Content(q, t, ty, objects[index := Some(v)])
      && (InOneCell(o.base) ==> SameOutside(s.vam.ivs, t.vam.ivs, o.base.addr / CELL))
      && (forall x :: !InAddr(a, x) ==> Mem(t, x) == Mem(s, x))
  {
    hide StoreOk, Content, Geometry, Placement, StoreInto, Mem, HasType, Given;
    var m := Marked(o, index);
    MarkedGeometry(o, s, index);
    GivenFacts(m, q, s, index, a, Size(v));
    var k := GivenAddressable(m, q, s, index, a, Size(v));
    StoreIntoIsWrite(s, k, v, a);
    WriteWithin(s, k, a.addr, a.size, Written(v, a.size));
    StoreIntoStructure(s, k, v, a);
    if InOneCell(o.base) { GivenCell(o.base, s, k, a); }
    var t := StoreInto(s, v, a).0;
    PlacementKept(m, q, s, t, index, a, Size(v), k);
    ContentKept(o, q, s, t, ty, objects, index, v, a);
    forall x | !InAddr(a, x) ensures Mem(t, x) == Mem(s, x) {
      assert WriteSeen(s, t, a.addr, a.size, Written(v, a.size), x);
    }
  }

  lemma MarkedGeometry(o: Objs, s: Store, index: u64)
    requires Geometry(o) && Placement(o, s)
    ensures Geometry(Marked(o, index)) && Placement(Marked(o, index), s) && TailFree(Marked(o, index).tail, s)
  {
  }

  lemma MarkedCanHold(o: Objs, index: u64, size: u64)
    requires CanHold(o, index, size)
    ensures CanHold(Marked(o, index), index, size)
  {
  }

  lemma GivenFacts(o: Objs, q: Objs, s: Store, index: u64, a: Addr, size: u64)
    requires Geometry(o) && Given(o, q, s, index, a, size)
    ensures Geometry(q) && q.addrs == o.addrs[index := a] && size <= a.size
    ensures q.base == o.base && q.states == o.states && q.cache == o.cache
    ensures o.base.addr <= a.addr && a.addr + a.size <= o.base.addr + o.base.size
  {
    assert q.addrs[index] == a;
    LiveBlock(q, index);
  }

  lemma MarksIrrelevant(q: Objs, p: Objs, t: Store, ty: Ty, objects: Objects)
    requires p == q.(cache := p.cache, states := p.states)
    ensures Geometry(p) <==> Geometry(q)
    ensures Placement(p, t) <==> Placement(q, t)
    ensures Content(p, t, ty, objects) <==> Content(q, t, ty, objects)
  {
  }

  /** A put succeeds exactly when the store can hold the object. */
  lemma PutSucceedsIff(o: Objs, s: Store, ty: Ty, objects: Objects, index: u64, v: Value, keep: bool)
    requires Holds(o, s, ty, objects) && index < U64_MAX
    requires HasType(v, ty) && 0 < Size(v) < U64_LIMIT && PutFits(o, s, index, v)
    ensures PutOf(o, s, index, v, keep).2 == Success <==> CanHold(o, index, Size(v))
  {
    hide Holds, CanHold, AddressFor, SerializeOf, HasType;
    if CanHold(o, index, Size(v)) {
      PutHolds(o, s, ty, objects, index, v, keep);
    } else {
      PutThrows(o, s, ty, objects, index, v, keep);
    }
  }

  /**
   A put that finds no block throws after it has marked the index and dropped its object
   and its old address: the index then counts as present and holds nothing. Every other
   index is as it was.
   */
  lemma PutThrows(o: Objs, s: Store, ty: Ty, objects: Objects, index: u64, v: Value, keep: bool)
    requires Holds(o, s, ty, objects) && index < U64_MAX && 0 < Size(v) < U64_LIMIT
    requires !CanHold(o, index, Size(v))
    ensures var (p, t, r) := PutOf(o, s, index, v, keep);
      && r == Thrown && t == s && Stuck(p, index, Size(v)) && p.base == o.base && p.tail == o.tail
      && Holds(p, s, ty, objects[index := None])
    ensures forall j: u64 :: j != index ==> AsBefore(o, PutOf(o, s, index, v, keep).0, s, ty, j)
  {
    hide StoreOk, Content, Geometry, Placement, AddressFor, DeserializeOf, Indexed, SetState;
    var m := Marked(o, index);
    MarkedGeometry(o, s, index);
    AddressForIsGiven(m, s, index, Size(v));
    var p := PutOf(o, s, index, v, keep).0;
    assert p == m.(addrs := m.addrs - {index});
    ForgetBlock(m, s, index);
    ForgetIndex(o, p, s, ty, objects, index);
    OthersMarked(o, p, index);
  }

  /** The index counts as present but has no address, and no block could hold its object. */
  predicate Stuck(o: Objs, index: u64, size: u64) {
    Has(o, index) && index !in o.addrs && !CanHold(o, index, size)
  }

  ghost predicate AsBefore(o: Objs, p: Objs, s: Store, ty: Ty, j: u64) {
    (Has(p, j) <==> Has(o, j)) && GetOf(p, s, ty, j) == GetOf(o, s, ty, j)
  }

  lemma OthersMarked(o: Objs, p: Objs, index: u64)
    requires index < U64_MAX
    requires p.states == SetState(o.states, index, true) && p.cache == o.cache - {index} && p.addrs == o.addrs - {index}
    ensures forall s, ty, j: u64 :: j != index ==> AsBefore(o, p, s, ty, j)
    ensures Has(p, index)
  {
    hide DeserializeOf;
  }

  lemma ForgetBlock(o: Objs, s: Store, index: u64)
    requires Geometry(o) && Placement(o, s)
    ensures Geometry(o.(addrs := o.addrs - {index})) && Placement(o.(addrs := o.addrs - {index}), s)
  {
    hide ObjectsApart, Located, Sorted, TailFree;
    Forget(o.addrs, multiset(o.unused), o.base.addr, UsedEnd(o), index);
  }

  lemma ForgetIndex(o: Objs, p: Objs, s: Store, ty: Ty, objects: Objects, index: u64)
    requires Indexed(o, objects) && Content(o, s, ty, objects) && index < U64_MAX
    requires p.states == SetState(o.states, index, true) && p.cache == o.cache - {index} && p.addrs == o.addrs - {index}
    ensures Indexed(p, objects[index := None]) && Content(p, s, ty, objects[index := None])
  {
    hide ObjectAt;
  }

  /** The file has space for whatever the tail can still be asked to hold. */
  predicate RoomForTail(o: Objs, s: Store) {
    s.vam.maxOff + o.tail.size <= |s.bytes|
  }

  /** Space for the tail is all the space puts ever need, and every put leaves enough for the tail that remains. */
  lemma PutKeepsRoom(o: Objs, s: Store, ty: Ty, objects: Objects, index: u64, v: Value, keep: bool)
    requires Holds(o, s, ty, objects) && RoomForTail(o, s) && index < U64_MAX
    requires 0 < Size(v) < U64_LIMIT
    ensures PutFits(o, s, index, v)
    ensures PutOf(o, s, index, v, keep).2 == Success ==>
              RoomForTail(PutOf(o, s, index, v, keep).0, PutOf(o, s, index, v, keep).1)
  {
    hide StoreOk, Content, Geometry, Placement, CanHold, AddressFor, StoreInto, Given, Indexed, Addressable, FitsAt;
    var m := Marked(o, index);
    MarkedGeometry(o, s, index);
    AddressForIsGiven(m, s, index, Size(v));
    var (q, found) := AddressFor(m, index, Size(v));
    if found.Some? {
      var a := found.value;
      GivenFacts(m, q, s, index, a, Size(v));
      var k := GivenAddressable(m, q, s, index, a, Size(v));
      GivenRoom(m, q, s, index, a, v, k);
    }
  }

  lemma GivenRoom(o: Objs, q: Objs, s: Store, index: u64, a: Addr, v: Value, k: u64)
    requires StoreOk(s) && Geometry(o) && 0 < Size(v) < U64_LIMIT && Given(o, q, s, index, a, Size(v))
    requires RoomForTail(o, s) && Addressable(s, k, a.addr, a.size) && Size(v) <= a.size
    requires q.tail == o.tail ==> s.vam.ivs[k].value != UNMAPPED
    requires q.tail != o.tail ==> k == a.addr && s.vam.ivs[k].value == UNMAPPED
    ensures FitsAt(s, a.addr, a.size) && RoomForTail(q, StoreInto(s, v, a).0)
  {
    hide ObjectsApart, Located, Sorted, Tiled, IntervalSpec.Disjoint, CellsOk, SystemCells, Written, Splat;
    LookupFindsWithin(s.vam, k, a.addr, a.size);
    FileBounds(s);
    LookupKeepsStore(s, k, a.addr, a.size, false);
    LookupKeepsTiling(s.vam, a.addr, a.size, false);
  }

  // ------------------------------------------------------------- get and clear

  /**
   A block's front holds the object's encoding, so reading the block decodes the object:
   as it was iff it is storable.
   */
  lemma BlockDecodes(s: Store, ty: Ty, a: Addr, v: Value)
    requires StoreOk(s) && Located(s, a) && ObjectAt(s, ty, a, v)
    ensures NulFree(v) ==> DeserializeOf(s, ty, a) == Some(Padded(v))
    ensures DeserializeOf(s, ty, a) == Some(v) <==> Storable(v)
  {
    hide StoreOk, Encode, Decode, HasType, Storable, NulFree, Padded, Mem, ReadbOf;
    var k: u64 :| InMapped(s, k, a);
    ReadMeaning(s, k, a.addr, a.size);
    var d, e := ReadbOf(s, a.addr, a.size).value, Encode(v);
    forall i | 0 <= i < |e| ensures d[i] == e[i] {
      assert Mem(s, a.addr + i) == Some(d[i]);
    }
    assert d[..|d|][..Size(v)] == e;
    PrefixDecodes(v, ty, d, |d|);
  }

  /**
   `get` is rejected where there is no object, marked or not. Where there is one, it returns the last
   object put there, from the cache as it was cached, from storage with bit vectors
   padded; so exactly the storable objects come back from storage as they were.
   */
  lemma GetIsObject(o: Objs, s: Store, ty: Ty, objects: Objects, index: u64)
    requires Holds(o, s, ty, objects)
    ensures Has(o, index) <==> index in objects
    ensures GotOk(GetOf(o, s, ty, index), objects, index)
    ensures Present(objects, index) && index !in o.cache ==>
              && (NulFree(objects[index].value) ==> GetOf(o, s, ty, index) == Some(Padded(objects[index].value)))
              && (GetOf(o, s, ty, index) == objects[index] <==> Storable(objects[index].value))
  {
    hide StoreOk, Geometry, ObjectAt, DeserializeOf, Located, NulFree, Storable, Padded;
    if Present(objects, index) {
      BlockDecodes(s, ty, o.addrs[index], objects[index].value);
      if GetOf(o, s, ty, index).Some? {
        StorableRecalled(GetOf(o, s, ty, index).value, objects[index].value);
      }
      StorableNulFree(objects[index].value);
    }
  }

  /** A reply that is right for what was put at the index. */
  ghost predicate GotOk(got: Option<Value>, objects: Objects, index: u64) {
    if !Present(objects, index) then got == None
    else
      && (NulFree(objects[index].value) ==> got.Some?)
      && (got.Some? ==> Recalls(got.value, objects[index].value))
      && (Storable(objects[index].value) ==> got == objects[index])
  }

  lemma StorableRecalled(got: Value, v: Value)
    ensures Recalls(got, v) && Storable(v) ==> got == v
  {
    if Recalls(got, v) && Storable(v) { RecallsStorable(got, v); }
  }

  lemma StorableNulFree(v: Value)
    ensures Storable(v) ==> NulFree(v)
  {
  }

  /** Reading into the cache changes no object. */
  lemma KeptHolds(o: Objs, s: Store, ty: Ty, objects: Objects, index: u64)
    requires Holds(o, s, ty, objects)
    ensures Holds(KeptOf(o, s, ty, index), s, ty, objects)
  {
    hide StoreOk, Geometry, Placement, Content, GetOf;
    GetIsObject(o, s, ty, objects, index);
    var p := KeptOf(o, s, ty, index);
    if Present(objects, index) {
      assert p.states == o.states;
      assert p == o.(cache := p.cache);
      MarksIrrelevant(o, p, s, ty, objects);
    }
  }

  /** Clearing removes exactly the index's object and makes its block available. */
  lemma ClearHolds(o: Objs, s: Store, ty: Ty, objects: Objects, index: u64)
    requires Holds(o, s, ty, objects) && (index in objects ==> Present(objects, index))
    ensures Has(o, index) ==> index in o.addrs
    ensures Holds(ClearOf(o, index), s, ty, objects - {index})
    ensures Has(o, index) ==> Node(o.addrs[index].size, o.addrs[index]) in multiset(ClearOf(o, index).unused)
  {
    hide StoreOk, Geometry, Placement, Content, Inserted;
    var p := ClearOf(o, index);
    if Has(o, index) {
      ClearBlocks(o, s, index);
      ContentShrinks(o, p, s, ty, objects, index);
    } else {
      assert objects - {index} == objects;
    }
  }

  lemma ClearBlocks(o: Objs, s: Store, index: u64)
    requires Geometry(o) && Placement(o, s) && Has(o, index) && index in o.addrs
    ensures Geometry(ClearOf(o, index)) && Placement(ClearOf(o, index), s)
    ensures Node(o.addrs[index].size, o.addrs[index]) in multiset(ClearOf(o, index).unused)
  {
    hide ObjectsApart, Located, Sorted, Inserted, TailFree;
    var n := Node(o.addrs[index].size, o.addrs[index]);
    InsertedMeaning(o.unused, n);
    TakeBack(o.addrs, multiset(o.unused), o.base.addr, UsedEnd(o), index);
  }

  lemma ContentShrinks(o: Objs, p: Objs, s: Store, ty: Ty, objects: Objects, index: u64)
    requires Content(o, s, ty, objects) && p.addrs == o.addrs - {index}
    ensures Content(p, s, ty, objects - {index})
  {
  }

  // ------------------------------------------------------- new, and left alone

  /** A store over a fresh base range. */
  ghost function NewObjs(base: Addr): Objs {
    Objs(base, base, map[], [], map[], [])
  }

  lemma NewHolds(s: Store, ty: Ty, size: u64)
    requires StoreOk(s) && 0 < size < CELL && s.meta.highBits + 1 < CELLS
    ensures var (t, base) := AllocAddrOf(s, size); Holds(NewObjs(base), t, ty, map[])
  {
    hide Mem, StoreOk, AllocAddrOf;
    AllocAddrMeaning(s, size);
    var (t, base) := AllocAddrOf(s, size);
    StoreBounds(s);
    assert TailFree(base, t);
  }

  /** Seventeen bytes do not go into a range of sixteen. */
  lemma PutExample(keep: bool)
    ensures var (s, base) := AllocAddrOf(CrowdedStore(), 16);
      && Holds(NewObjs(base), s, TScalar(17), map[])
      && PutOf(NewObjs(base), s, 0, Scalar(Zeros(17)), keep).2 == Thrown
  {
    hide StoreOk, Mem, AllocAddrOf, Holds, PutOf;
    CrowdedOk();
    NewHolds(CrowdedStore(), TScalar(17), 16);
    AllocAddrMeaning(CrowdedStore(), 16);
    var (s, base) := AllocAddrOf(CrowdedStore(), 16);
    assert Size(Scalar(Zeros(17))) == 17 && !CanHold(NewObjs(base), 0, 17);
    PutThrows(NewObjs(base), s, TScalar(17), map[], 0, Scalar(Zeros(17)), keep);
  }

  /** Whatever the storage does in other cells leaves the objects as they are. */
  lemma OthersLeaveObjects(o: Objs, s: Store, t: Store, ty: Ty, objects: Objects, c: nat)
    requires Holds(o, s, ty, objects) && StoreOk(t)
    requires InOneCell(o.base)
    requires c != o.base.addr / CELL && SameOutside(s.vam.ivs, t.vam.ivs, c)
    requires forall x :: o.base.addr <= x < o.base.addr + o.base.size ==> Mem(t, x) == Mem(s, x)
    ensures Holds(o, t, ty, objects)
  {
    hide StoreOk, ObjectsApart, Mem, HasType, Encode, Sorted, Located, Indexed;
    forall i | i in o.addrs ensures Located(t, o.addrs[i]) {
      LiveBlock(o, i);
      BlockLeftAlone(o, s, t, o.addrs[i], c);
    }
    forall i | i in o.addrs && Present(objects, i) ensures ObjectAt(t, ty, o.addrs[i], objects[i].value) {
      LiveBlock(o, i);
    }
    forall n | n in multiset(o.unused) ensures Located(t, n.item) {
      UnusedBlock(o, n);
      BlockLeftAlone(o, s, t, n.item, c);
    }
    if o.tail.size != 0 { CellOf(o.tail.addr, o.base.addr / CELL); }
  }

  lemma BlockLeftAlone(o: Objs, s: Store, t: Store, a: Addr, c: nat)
    requires StoreOk(s) && Located(s, a) && 3 * CELL <= o.base.addr && o.base.addr + o.base.size < U64_LIMIT
    requires InOneCell(o.base)
    requires o.base.addr <= a.addr && a.addr + a.size <= o.base.addr + o.base.size
    requires c != o.base.addr / CELL && SameOutside(s.vam.ivs, t.vam.ivs, c)
    ensures Located(t, a)
  {
    var k: u64 :| InMapped(s, k, a);
    assert InCell(k, s.vam.ivs[k].end, k / CELL);
    CellOf(a.addr, o.base.addr / CELL);
    CellOf(a.addr, k / CELL);
    assert InMapped(t, k, a);
  }
}

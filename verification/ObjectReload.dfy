/**
 The stored form of an object store: base, states, addresses and unused blocks. The
 states come back padded to whole words and the tail does not come back at all; at
 every index the reloaded store still agrees with the one that was stored.
 */
module ObjectReload {
  import opened Machine
  import opened FreeList
  import opened Codec
  import opened CodecOrder
  import opened VamCodec
  import opened StorageSpec
  import ObjectBlocks
  import opened ObjectSpec
  import Sze

  /** A `StorageAddress` is copied as it is: two 64-bit numbers. */
  const ADDR_TY: Ty := TScalar(16)

  function OfAddr(a: Addr): Value {
    Scalar(LeBytes(a.addr, 8) + LeBytes(a.size, 8))
  }

  function ToAddr(v: Value): Addr {
    match v
    case Scalar(b) =>
      if |b| == 16 then Addr(ToU64(Scalar(b[..8])), ToU64(Scalar(b[8..]))) else Addr(0, 0)
    case _ => Addr(0, 0)
  }

  lemma AddrCodec()
    ensures ItemCodec(OfAddr, ToAddr, ADDR_TY, 16)
  {
    forall a: Addr
      ensures ToAddr(OfAddr(a)) == a && HasType(OfAddr(a), ADDR_TY) && Storable(OfAddr(a)) && Size(OfAddr(a)) == 16
    {
      AddrValue(a);
    }
  }

  lemma AddrValue(a: Addr)
    ensures ToAddr(OfAddr(a)) == a && HasType(OfAddr(a), ADDR_TY) && Storable(OfAddr(a)) && Size(OfAddr(a)) == 16
  {
    U64Value(a.addr);
    U64Value(a.size);
    var x, y := LeBytes(a.addr, 8), LeBytes(a.size, 8);
    assert (x + y)[..8] == x && (x + y)[8..] == y;
  }

  // ------------------------------------------------ addresses, in some order

  /** The order in which an unordered map happens to be walked. */
  ghost predicate WalkOrder(m: map<u64, Addr>, order: seq<u64>) {
    && (forall i :: i in order <==> i in m)
    && (forall a, b :: 0 <= a < b < |order| ==> order[a] != order[b])
  }

  function OfAddrs(m: map<u64, Addr>, order: seq<u64>): seq<Value>
    requires forall i :: i in order ==> i in m
  {
    if order == [] then [] else [Pair(OfU64(order[0]), OfAddr(m[order[0]]))] + OfAddrs(m, order[1..])
  }

  /** `emplace` of every element in turn. */
  function EmplaceAddrs(m: map<u64, Addr>, vs: seq<Value>): map<u64, Addr>
    decreases |vs|
  {
    if vs == [] then m
    else
      var m' :=
        match vs[0]
        case Pair(k, a) => if ToU64(k) in m then m else m[ToU64(k) := ToAddr(a)]
        case _ => m;
      EmplaceAddrs(m', vs[1..])
  }

  lemma {:induction false} AddrsRebuild(m: map<u64, Addr>, got: map<u64, Addr>, order: seq<u64>)
    requires forall i :: i in order ==> i in m && i !in got
    requires forall i :: i in m ==> i in order || i in got
    requires forall i :: i in got ==> i in m && got[i] == m[i]
    requires forall a, b :: 0 <= a < b < |order| ==> order[a] != order[b]
    ensures EmplaceAddrs(got, OfAddrs(m, order)) == m
    decreases |order|
  {
    if order == [] {
      assert got.Keys == m.Keys;
    } else {
      var k := order[0];
      AddrCodec();
      U64Value(k);
      assert ToAddr(OfAddr(m[k])) == m[k];
      assert forall i :: i in order <==> i == k || i in order[1..];
      AddrsRebuild(m, got[k := m[k]], order[1..]);
      assert OfAddrs(m, order)[1..] == OfAddrs(m, order[1..]);
    }
  }

  lemma {:induction false} AddrsWellFormed(m: map<u64, Addr>, order: seq<u64>)
    requires forall i :: i in order ==> i in m
    ensures |OfAddrs(m, order)| == |order|
    ensures forall i :: 0 <= i < |order| ==> HasType(OfAddrs(m, order)[i], TPair(U64_TY, ADDR_TY))
    ensures NulFreeAll(OfAddrs(m, order)) && WholeWordsAll(OfAddrs(m, order))
  {
    if order != [] {
      AddrsWellFormed(m, order[1..]);
      U64Value(order[0]);
      AddrValue(m[order[0]]);
      assert OfAddrs(m, order)[1..] == OfAddrs(m, order[1..]);
    }
  }

  // ------------------------------------------------------------ the whole store

  const OBJS_TY: Ty := FourTys(ADDR_TY, TBits, TRange(TPair(U64_TY, ADDR_TY)), TRange(TPair(U64_TY, ADDR_TY)))

  /** What `serializeImpl` writes, in this order. */
  function FieldsOf(o: Objs, order: seq<u64>): seq<Value>
    requires forall i :: i in order ==> i in o.addrs
  {
    [OfAddr(o.base), Bits(o.states), Range(OfAddrs(o.addrs, order)), Range(OfNodes(o.unused, OfAddr))]
  }

  function OfObjs(o: Objs, order: seq<u64>): Value
    requires forall i :: i in order ==> i in o.addrs
  {
    Four(OfAddr(o.base), Bits(o.states), Range(OfAddrs(o.addrs, order)), Range(OfNodes(o.unused, OfAddr)))
  }

  lemma FieldsEncode(o: Objs, order: seq<u64>)
    requires forall i :: i in order ==> i in o.addrs
    ensures Encode(OfObjs(o, order)) == EncodeAll(FieldsOf(o, order))
    ensures Size(OfObjs(o, order)) == SizeAll(FieldsOf(o, order))
  {
    hide Encode, EncodeAll, Size, SizeAll;
    FourEncode(OfAddr(o.base), Bits(o.states), Range(OfAddrs(o.addrs, order)), Range(OfNodes(o.unused, OfAddr)));
  }

  function AddrBytes(a: Addr): seq<byte> {
    LeBytes(a.addr, 8) + LeBytes(a.size, 8)
  }

  function AddrEntryBytes(m: map<u64, Addr>, order: seq<u64>): seq<byte>
    requires forall i :: i in order ==> i in m
  {
    if order == [] then []
    else LeBytes(order[0], 8) + AddrBytes(m[order[0]]) + AddrEntryBytes(m, order[1..])
  }

  function UnusedBytes(d: seq<Node<Addr>>): seq<byte> {
    if d == [] then [] else LeBytes(d[0].size, 8) + AddrBytes(d[0].item) + UnusedBytes(d[1..])
  }

  /** The stored object store, number by number and bit by bit. */
  lemma ObjsLayout(o: Objs, order: seq<u64>)
    requires forall i :: i in order ==> i in o.addrs
    ensures Encode(OfObjs(o, order)) ==
            AddrBytes(o.base) +
            (LeBytes(PaddedLength(|o.states|), 8) + EncodeWords(o.states) +
             (LeBytes(|order|, 8) + AddrEntryBytes(o.addrs, order) +
              (LeBytes(|o.unused|, 8) + UnusedBytes(o.unused))))
  {
    hide Encode, EncodeAll, OfNodes, OfAddrs, OfAddr, LeBytes, AddrBytes, AddrEntryBytes, UnusedBytes, EncodeWords;
    AddrsBytes(o.addrs, order);
    NodesAddrBytes(o.unused);
    RangeBytes(OfAddrs(o.addrs, order));
    RangeBytes(OfNodes(o.unused, OfAddr));
    BitsBytes(o.states);
    OneAddrBytes(o.base);
    FourBytes(OfAddr(o.base), Bits(o.states), Range(OfAddrs(o.addrs, order)), Range(OfNodes(o.unused, OfAddr)));
  }

  lemma {:induction false} BitsBytes(bs: seq<bool>)
    ensures Encode(Bits(bs)) == LeBytes(PaddedLength(|bs|), 8) + EncodeWords(bs)
  {
    hide LeBytes, PaddedLength, EncodeWords;
  }

  lemma OneAddrBytes(a: Addr)
    ensures Encode(OfAddr(a)) == AddrBytes(a)
  {
  }

  lemma {:induction false} AddrsBytes(m: map<u64, Addr>, order: seq<u64>)
    requires forall i :: i in order ==> i in m
    ensures |OfAddrs(m, order)| == |order| && EncodeAll(OfAddrs(m, order)) == AddrEntryBytes(m, order)
  {
    hide LeBytes;
    if order != [] {
      AddrsBytes(m, order[1..]);
      EncodeCons(Pair(OfU64(order[0]), OfAddr(m[order[0]])), OfAddrs(m, order[1..]));
    }
  }

  lemma {:induction false} NodesAddrBytes(d: seq<Node<Addr>>)
    ensures |OfNodes(d, OfAddr)| == |d| && EncodeAll(OfNodes(d, OfAddr)) == UnusedBytes(d)
  {
    hide LeBytes;
    if d != [] {
      NodesAddrBytes(d[1..]);
      EncodeCons(Pair(OfU64(d[0].size), OfAddr(d[0].item)), OfNodes(d[1..], OfAddr));
    }
  }

  function ToObjs(v: Value): Option<Objs> {
    match v
    case Pair(base, Pair(Bits(states), Pair(Range(addrs), Range(unused)))) =>
      Some(Objs(ToAddr(base), NULL_ADDR, map[], states, EmplaceAddrs(map[], addrs), InsertAll([], unused, ToAddr)))
    case _ => None
  }

  /** A default-constructed `StorageAddress`. */
  const NULL_ADDR: Addr := Addr(U64_MAX, 0)

  /** `deserializeImpl`, arguments being evaluated in the order `p`. */
  function ReadObjs(p: Order, buf: seq<byte>): Option<Objs> {
    match DecodeIn(p, OBJS_TY, buf)
    case None => None
    case Some(v) => ToObjs(v)
  }

  /** What comes back: everything but the cache and the tail, the states padded. */
  function ReloadedOf(o: Objs): Objs {
    o.(tail := NULL_ADDR, cache := map[], states := Pad(o.states))
  }

  lemma ObjsValue(o: Objs, order: seq<u64>)
    requires WalkOrder(o.addrs, order)
    requires |order| < U64_LIMIT && |o.unused| < U64_LIMIT && PaddedLength(|o.states|) < U64_LIMIT
    ensures HasType(OfObjs(o, order), OBJS_TY) && NulFree(OfObjs(o, order))
    ensures Padded(OfObjs(o, order)) == OfObjs(o.(states := Pad(o.states)), order)
  {
    hide OfAddrs, OfNodes, OfAddr;
    var addrs, unused := OfAddrs(o.addrs, order), OfNodes(o.unused, OfAddr);
    AddrCodec();
    AddrValue(o.base);
    AddrsWellFormed(o.addrs, order);
    NodesWellFormed(o.unused, OfAddr, ToAddr, ADDR_TY, 16);
    PaddedIsSelfIff(OfAddr(o.base));
    PaddedAllIsSelfIff(addrs);
    PaddedAllIsSelfIff(unused);
    FourIs(OfAddr(o.base), Bits(o.states), Range(addrs), Range(unused),
           ADDR_TY, TBits, TRange(TPair(U64_TY, ADDR_TY)), TRange(TPair(U64_TY, ADDR_TY)));
  }

  /**
   A stored object store reads back, in whatever order its addresses were walked and
   whatever bytes follow, where arguments are evaluated left to right.
   */
  lemma ObjsRoundTrip(p: Order, o: Objs, order: seq<u64>, rest: seq<byte>)
    requires p.pairsFirst && WalkOrder(o.addrs, order) && Sorted(o.unused)
    requires |order| < U64_LIMIT && |o.unused| < U64_LIMIT && PaddedLength(|o.states|) < U64_LIMIT
    ensures ReadObjs(p, Encode(OfObjs(o, order)) + rest) == Some(ReloadedOf(o))
  {
    hide Encode, Decode, DecodeIn, HasType, OfAddrs, OfNodes, EmplaceAddrs, InsertAll, Pad, Padded, ItemCodec;
    ObjsValue(o, order);
    RoundTrip(OfObjs(o, order), OBJS_TY, rest);
    ObjsOrdered(p, Encode(OfObjs(o, order)) + rest);
    AddrCodecAt(o.base);
    AddrsRebuild(o.addrs, map[], order);
    assert [] + o.unused == o.unused;
    NodesAddrRebuild(o.unused);
  }

  lemma ObjsOrdered(p: Order, buf: seq<byte>)
    requires p.pairsFirst
    ensures DecodeIn(p, OBJS_TY, buf) == Decode(OBJS_TY, buf)
  {
    hide DecodeIn, Decode;
    OrderedDecodes(p, OBJS_TY, buf);
  }

  /** Evaluated right to left, the unused blocks are as many as the base's address says. */
  lemma ObjsOutOfOrder(p: Order, o: Objs, order: seq<u64>, rest: seq<byte>)
    requires !p.pairsFirst && forall i :: i in order ==> i in o.addrs
    ensures var got := ReadObjs(p, Encode(OfObjs(o, order)) + rest);
      got.Some? ==> |got.value.unused| == o.base.addr
  {
    hide Encode, DecodeIn, OfObjs, OfAddrs, OfNodes, EmplaceAddrs, InsertAll, LeBytes, LeValue;
    var buf := Encode(OfObjs(o, order)) + rest;
    BaseFirst(o, order, rest);
    LastDecodedFirst(p, ADDR_TY, TBits, TRange(TPair(U64_TY, ADDR_TY)), TRange(TPair(U64_TY, ADDR_TY)), buf);
    RangeCount(p, U64_TY, ADDR_TY, buf);
    if ReadObjs(p, buf).Some? {
      InsertAllLength([], DecodeIn(p, TRange(TPair(U64_TY, ADDR_TY)), buf).value.elems, ToAddr);
    }
  }

  lemma BaseFirst(o: Objs, order: seq<u64>, rest: seq<byte>)
    requires forall i :: i in order ==> i in o.addrs
    ensures var buf := Encode(OfObjs(o, order)) + rest; 8 <= |buf| && LeValue(buf[..8]) == o.base.addr
  {
    hide OfAddrs, OfNodes, LeBytes, LeValue;
    var x, y := LeBytes(o.base.addr, 8), LeBytes(o.base.size, 8);
    var v := Pair(Bits(o.states), Pair(Range(OfAddrs(o.addrs, order)), Range(OfNodes(o.unused, OfAddr))));
    assert Encode(OfObjs(o, order)) == (x + y) + Encode(v) by {
      PairIs(OfAddr(o.base), v, ADDR_TY, U64_TY);
    }
    U64RoundTrip(o.base.addr, y + Encode(v) + rest);
    assert (x + y) + Encode(v) + rest == x + (y + Encode(v) + rest);
  }

  /** However pairs are decoded, a range of them has as many as its count says. */
  lemma RangeCount(p: Order, a: Ty, b: Ty, buf: seq<byte>)
    ensures var r := DecodeIn(p, TRange(TPair(a, b)), buf);
      r.Some? ==> 8 <= |buf| && r.value.Range? && |r.value.elems| == LeValue(buf[..8]) &&
                  forall i :: 0 <= i < |r.value.elems| ==> r.value.elems[i].Pair?
  {
    hide LeValue;
    if 8 <= |buf| { PairsDecoded(p, a, b, LeValue(buf[..8]), buf[8..]); }
  }

  lemma {:induction false} PairsDecoded(p: Order, a: Ty, b: Ty, n: nat, buf: seq<byte>)
    ensures var r := DecodeNIn(p, TPair(a, b), n, buf);
      r.Some? ==> |r.value.0| == n && forall i :: 0 <= i < n ==> r.value.0[i].Pair?
  {
    hide DecodeIn;
    if n != 0 && DecodeOneIn(p, TPair(a, b), buf).Some? {
      OnePair(p, a, b, buf);
      PairsDecoded(p, a, b, n - 1, DecodeOneIn(p, TPair(a, b), buf).value.1);
    }
  }

  lemma OnePair(p: Order, a: Ty, b: Ty, buf: seq<byte>)
    ensures DecodeIn(p, TPair(a, b), buf).Some? ==> DecodeIn(p, TPair(a, b), buf).value.Pair?
  {
  }

  lemma {:induction false} InsertAllLength<T>(d: seq<Node<T>>, vs: seq<Value>, dec: Value -> T)
    requires forall i :: 0 <= i < |vs| ==> vs[i].Pair?
    ensures |InsertAll(d, vs, dec)| == |d| + |vs|
    decreases |vs|
  {
    if vs != [] {
      var n := Node(ToU64(vs[0].first), dec(vs[0].second));
      InsertedMultiset(d, n);
      InsertAllLength(Inserted(d, n), vs[1..], dec);
    }
  }

  lemma AddrCodecAt(a: Addr)
    ensures ToAddr(OfAddr(a)) == a
  {
    AddrCodec();
  }

  lemma NodesAddrRebuild(d: seq<Node<Addr>>)
    requires Sorted(d)
    ensures InsertAll([], OfNodes(d, OfAddr), ToAddr) == d
  {
    AddrCodec();
    assert [] + d == d;
    NodesRebuild([], d, OfAddr, ToAddr);
  }

  /** The store that is read back holds what the stored one did, padding, lost cache and lost tail notwithstanding. */
  lemma ReloadHolds(o: Objs, s: Store, ty: Ty, objects: Objects)
    requires Holds(o, s, ty, objects)
    ensures Holds(ReloadedOf(o), s, ty, objects) && (RoomForTail(ReloadedOf(o), s) <==> s.vam.maxOff <= |s.bytes|)
  {
    hide StoreOk, ObjectAt, Located, Sorted, HasType;
    var p := ReloadedOf(o);
    forall i: u64 ensures Has(p, i) <==> Has(o, i) {
    }
    ApartWider(o.addrs, multiset(o.unused), o.base.addr, UsedEnd(o), UsedEnd(p));
  }

  /** It has lost its tail but no block and no unused one, and its next new index is the padded number of states. */
  lemma ReloadEffects(o: Objs, i: u64, size: u64)
    requires 0 < size
    ensures CanHold(ReloadedOf(o), i, size) <==>
            (i in o.addrs && size < o.addrs[i].size) || exists n :: n in o.unused && size <= n.size
    ensures ReloadedOf(o).unused == o.unused && ReloadedOf(o).addrs == o.addrs
    ensures |ReloadedOf(o).states| == PaddedLength(|o.states|)
  {
  }

  /** `emplace` leaves the entry of a key that is already there. */
  lemma {:induction false} EmplaceKeeps(m: map<u64, Addr>, vs: seq<Value>, k: u64)
    requires k in m
    ensures k in EmplaceAddrs(m, vs) && EmplaceAddrs(m, vs)[k] == m[k]
    decreases |vs|
  {
    if vs != [] {
      match vs[0]
      case Pair(i, a) => EmplaceKeeps(if ToU64(i) in m then m else m[ToU64(i) := ToAddr(a)], vs[1..], k);
      case _ => EmplaceKeeps(m, vs[1..], k);
    }
  }

  lemma ApartWider(live: map<u64, Addr>, unused: multiset<Node<Addr>>, lo: int, hi: int, end: int)
    requires ObjectBlocks.ObjectsApart(live, unused, lo, hi) && hi <= end
    ensures ObjectBlocks.ObjectsApart(live, unused, lo, end)
  {
  }

  /** So it answers at every index as the stored one: what the cache held comes from storage instead. */
  lemma ReloadAgrees(o: Objs, s: Store, ty: Ty, objects: Objects, index: u64)
    requires Holds(o, s, ty, objects)
    ensures Has(ReloadedOf(o), index) <==> Has(o, index)
    ensures GotOk(GetOf(ReloadedOf(o), s, ty, index), objects, index)
    ensures index !in o.cache ==> GetOf(ReloadedOf(o), s, ty, index) == GetOf(o, s, ty, index)
  {
    ReloadHolds(o, s, ty, objects);
    GetIsObject(ReloadedOf(o), s, ty, objects, index);
    GetIsObject(o, s, ty, objects, index);
    hide Holds, Sze.DeserializeOf, GotOk;
  }
}

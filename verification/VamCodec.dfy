/** The stored form of an address mapping: `intervals`, `unmapped`, `empty`, `max`, one behind the other. */
module VamCodec {
  import opened Machine
  import opened IntervalSpec
  import opened FreeList
  import opened MappingSpec
  import opened Codec
  import opened CodecOrder

  const U64_TY: Ty := TScalar(8)
  const PAIR_TY: Ty := TPair(U64_TY, U64_TY)

  /** The list of four fields. Lists of fields are decoded in the order of pairs, so they are nested pairs here. */
  const VAM_TY: Ty := FourTys(TRange(TPair(U64_TY, PAIR_TY)), TRange(PAIR_TY), TRange(PAIR_TY), PAIR_TY)

  function FourTys(a: Ty, b: Ty, c: Ty, d: Ty): Ty {
    TPair(a, TPair(b, TPair(c, d)))
  }

  function Four(a: Value, b: Value, c: Value, d: Value): Value {
    Pair(a, Pair(b, Pair(c, d)))
  }

  lemma PairIs(a: Value, b: Value, ta: Ty, tb: Ty)
    ensures HasType(Pair(a, b), TPair(ta, tb)) <==> HasType(a, ta) && HasType(b, tb)
    ensures Size(Pair(a, b)) == Size(a) + Size(b) && Encode(Pair(a, b)) == Encode(a) + Encode(b)
    ensures NulFree(Pair(a, b)) <==> NulFree(a) && NulFree(b)
    ensures WholeWords(Pair(a, b)) <==> WholeWords(a) && WholeWords(b)
    ensures Padded(Pair(a, b)) == Pair(Padded(a), Padded(b))
  {
  }

  lemma RangeIs(vs: seq<Value>, t: Ty)
    requires |vs| < U64_LIMIT && forall i :: 0 <= i < |vs| ==> HasType(vs[i], t)
    ensures HasType(Range(vs), TRange(t)) && Size(Range(vs)) == 8 + SizeAll(vs)
    ensures NulFree(Range(vs)) <==> NulFreeAll(vs)
    ensures WholeWords(Range(vs)) <==> WholeWordsAll(vs)
  {
  }

  lemma FourIs(a: Value, b: Value, c: Value, d: Value, ta: Ty, tb: Ty, tc: Ty, td: Ty)
    requires HasType(a, ta) && HasType(b, tb) && HasType(c, tc) && HasType(d, td)
    ensures var v := Four(a, b, c, d);
      && HasType(v, FourTys(ta, tb, tc, td)) && Size(v) == Size(a) + Size(b) + Size(c) + Size(d)
      && (NulFree(v) <==> NulFree(a) && NulFree(b) && NulFree(c) && NulFree(d))
      && (WholeWords(v) <==> WholeWords(a) && WholeWords(b) && WholeWords(c) && WholeWords(d))
      && Padded(v) == Four(Padded(a), Padded(b), Padded(c), Padded(d))
  {
    hide HasType, Size, Encode, NulFree, WholeWords, Padded;
    PairIs(c, d, tc, td);
    PairIs(b, Pair(c, d), tb, TPair(tc, td));
    PairIs(a, Pair(b, Pair(c, d)), ta, TPair(tb, TPair(tc, td)));
  }

  /** Nesting the fields changes none of their bytes. */
  lemma FourEncode(a: Value, b: Value, c: Value, d: Value)
    ensures Encode(Four(a, b, c, d)) == EncodeAll([a, b, c, d])
  {
    hide HasType, Size, Encode, EncodeAll, NulFree, WholeWords, Padded;
    PairIs(c, d, U64_TY, U64_TY);
    PairIs(b, Pair(c, d), U64_TY, U64_TY);
    PairIs(a, Pair(b, Pair(c, d)), U64_TY, U64_TY);
    EncodeCons(a, [b, c, d]);
    EncodeCons(b, [c, d]);
    EncodeCons(c, [d]);
    EncodeCons(d, []);
    EncodeNone();
    assert [a] + [b, c, d] == [a, b, c, d] && [b] + [c, d] == [b, c, d] && [c] + [d] == [c, d] && [d] + [] == [d];
  }

  lemma EncodeNone()
    ensures EncodeAll([]) == []
  {
  }

  lemma EncodeCons(v: Value, vs: seq<Value>)
    ensures EncodeAll([v] + vs) == Encode(v) + EncodeAll(vs)
  {
    hide Encode;
    assert ([v] + vs)[1..] == vs;
  }

  function OfU64(x: u64): Value {
    Scalar(LeBytes(x, 8))
  }

  function ToU64(v: Value): u64 {
    match v
    case Scalar(b) => LeValue(b) % U64_LIMIT
    case _ => 0
  }

  lemma U64Value(x: u64)
    ensures ToU64(OfU64(x)) == x && HasType(OfU64(x), U64_TY) && Storable(OfU64(x))
    ensures Size(OfU64(x)) == 8
  {
    Pow256Is64Bits();
    LeRoundTrip(x, 8);
  }

  function OfPair(x: u64, y: u64): Value {
    Pair(OfU64(x), OfU64(y))
  }

  lemma PairValue(x: u64, y: u64)
    ensures HasType(OfPair(x, y), PAIR_TY) && Storable(OfPair(x, y)) && Size(OfPair(x, y)) == 16
  {
    U64Value(x);
    U64Value(y);
  }

  // ---------------------------------------------------------------- intervals

  /** The entries after `k` in key order. */
  function EntriesAfter(m: Intervals<u64>, k: int): seq<(u64, Interval<u64>)>
    requires -1 <= k
    decreases U64_MAX - k
  {
    match NextKey(m, k)
    case None => []
    case Some(n) => [(n, m[n])] + EntriesAfter(m, n)
  }

  function OfEntries(es: seq<(u64, Interval<u64>)>): seq<Value> {
    if es == [] then []
    else [Pair(OfU64(es[0].0), OfPair(es[0].1.end, es[0].1.value))] + OfEntries(es[1..])
  }

  /** `emplace` of every element in turn: a key that is already there keeps its entry. */
  function EmplaceAll(m: Intervals<u64>, vs: seq<Value>): Intervals<u64>
    decreases |vs|
  {
    if vs == [] then m
    else
      var m' :=
        match vs[0]
        case Pair(k, Pair(e, v)) =>
          if ToU64(k) in m then m else m[ToU64(k) := Interval(ToU64(e), ToU64(v))]
        case _ => m;
      EmplaceAll(m', vs[1..])
  }

  /** A key that is already there keeps its entry, whatever a damaged file adds. */
  lemma {:induction false} EmplaceKeeps(m: Intervals<u64>, vs: seq<Value>, k: u64)
    requires k in m
    ensures k in EmplaceAll(m, vs) && EmplaceAll(m, vs)[k] == m[k]
    decreases |vs|
  {
    if vs != [] {
      match vs[0]
      case Pair(i, Pair(e, v)) =>
        EmplaceKeeps(if ToU64(i) in m then m else m[ToU64(i) := Interval(ToU64(e), ToU64(v))], vs[1..], k);
      case _ => EmplaceKeeps(m, vs[1..], k);
    }
  }

  ghost function UpTo(m: Intervals<u64>, k: int): Intervals<u64> {
    map j | j in m && j <= k :: m[j]
  }

  lemma {:induction false} EntriesRebuild(m: Intervals<u64>, k: int)
    requires -1 <= k
    ensures EmplaceAll(UpTo(m, k), OfEntries(EntriesAfter(m, k))) == m
    decreases U64_MAX - k
  {
    match NextKey(m, k)
    case None =>
      assert UpTo(m, k) == m;
    case Some(n) =>
      var iv := m[n];
      U64Value(n);
      U64Value(iv.end);
      U64Value(iv.value);
      EntriesRebuild(m, n);
      assert UpTo(m, k)[n := iv] == UpTo(m, n);
      assert ([(n, iv)] + EntriesAfter(m, n))[1..] == EntriesAfter(m, n);
      var head := Pair(OfU64(n), OfPair(iv.end, iv.value));
      assert ([head] + OfEntries(EntriesAfter(m, n)))[1..] == OfEntries(EntriesAfter(m, n));
  }

  function OfIntervals(m: Intervals<u64>): seq<Value> {
    OfEntries(EntriesAfter(m, -1))
  }

  lemma IntervalsRebuild(m: Intervals<u64>)
    ensures EmplaceAll(map[], OfIntervals(m)) == m
  {
    EntriesRebuild(m, -1);
    assert UpTo(m, -1) == map[];
  }

  lemma {:induction false} EntriesCount(m: Intervals<u64>, k: int)
    requires -1 <= k
    ensures |EntriesAfter(m, k)| + |UpTo(m, k)| == |m|
    decreases U64_MAX - k
  {
    match NextKey(m, k)
    case None =>
      assert UpTo(m, k) == m;
    case Some(n) =>
      EntriesCount(m, n);
      assert UpTo(m, n) == UpTo(m, k)[n := m[n]];
      assert n !in UpTo(m, k);
  }

  lemma {:induction false} EntriesWellFormed(es: seq<(u64, Interval<u64>)>)
    ensures |OfEntries(es)| == |es|
    ensures forall i :: 0 <= i < |es| ==> HasType(OfEntries(es)[i], TPair(U64_TY, PAIR_TY))
    ensures NulFreeAll(OfEntries(es)) && WholeWordsAll(OfEntries(es))
    ensures SizeAll(OfEntries(es)) == 24 * |es|
  {
    if es != [] {
      EntriesWellFormed(es[1..]);
      U64Value(es[0].0);
      PairValue(es[0].1.end, es[0].1.value);
      assert OfEntries(es)[1..] == OfEntries(es[1..]);
    }
  }

  // ---------------------------------------------------------------- free list

  /** `dec` undoes `enc`, which gives well-formed values of `n` bytes. */
  ghost predicate ItemCodec<T(!new)>(enc: T -> Value, dec: Value -> T, ty: Ty, n: nat) {
    forall t: T :: dec(enc(t)) == t && HasType(enc(t), ty) && Storable(enc(t)) && Size(enc(t)) == n
  }

  lemma U64Codec()
    ensures ItemCodec(OfU64, ToU64, U64_TY, 8)
  {
    forall x: u64
      ensures ToU64(OfU64(x)) == x && HasType(OfU64(x), U64_TY) && Storable(OfU64(x)) && Size(OfU64(x)) == 8
    {
      U64Value(x);
    }
  }

  function OfNodes<T>(d: seq<Node<T>>, enc: T -> Value): seq<Value> {
    if d == [] then [] else [Pair(OfU64(d[0].size), enc(d[0].item))] + OfNodes(d[1..], enc)
  }

  /** `emplace` into the multimap, element by element: after every equal key. */
  function InsertAll<T>(d: seq<Node<T>>, vs: seq<Value>, dec: Value -> T): seq<Node<T>>
    decreases |vs|
  {
    if vs == [] then d
    else
      var d' :=
        match vs[0]
        case Pair(n, i) => Inserted(d, Node(ToU64(n), dec(i)))
        case _ => d;
      InsertAll(d', vs[1..], dec)
  }

  lemma {:induction false} InsertLast<T>(d: seq<Node<T>>, n: Node<T>)
    requires Sorted(d + [n])
    ensures Inserted(d, n) == d + [n]
  {
    if d != [] {
      assert (d + [n])[0].size <= (d + [n])[|d|].size;
      assert d[1..] + [n] == (d + [n])[1..];
      InsertLast(d[1..], n);
      assert d == [d[0]] + d[1..];
    }
  }

  /** Inserting the stored nodes in order rebuilds the list, order among equal sizes included. */
  lemma {:induction false} NodesRebuild<T(!new)>(d: seq<Node<T>>, e: seq<Node<T>>, enc: T -> Value, dec: Value -> T)
    requires Sorted(d + e) && forall t: T :: dec(enc(t)) == t
    ensures InsertAll(d, OfNodes(e, enc), dec) == d + e
    decreases |e|
  {
    if e == [] {
      assert d + e == d;
    } else {
      U64Value(e[0].size);
      assert d + e == d + [e[0]] + e[1..];
      SortedPrefix(d + [e[0]], e[1..]);
      InsertLast(d, e[0]);
      NodesRebuild(d + [e[0]], e[1..], enc, dec);
      assert OfNodes(e, enc)[1..] == OfNodes(e[1..], enc);
    }
  }

  lemma SortedPrefix<T>(d: seq<Node<T>>, e: seq<Node<T>>)
    requires Sorted(d + e)
    ensures Sorted(d)
  {
    assert forall i :: 0 <= i < |d| ==> (d + e)[i] == d[i];
  }

  lemma {:induction false} NodesWellFormed<T(!new)>(d: seq<Node<T>>, enc: T -> Value, dec: Value -> T, ty: Ty, n: nat)
    requires ItemCodec(enc, dec, ty, n)
    ensures |OfNodes(d, enc)| == |d|
    ensures forall i :: 0 <= i < |d| ==> HasType(OfNodes(d, enc)[i], TPair(U64_TY, ty))
    ensures NulFreeAll(OfNodes(d, enc)) && WholeWordsAll(OfNodes(d, enc))
    ensures SizeAll(OfNodes(d, enc)) == (8 + n) * |d|
  {
    if d != [] {
      NodesWellFormed(d[1..], enc, dec, ty, n);
      U64Value(d[0].size);
      assert OfNodes(d, enc)[1..] == OfNodes(d[1..], enc);
      assert (8 + n) * |d| == (8 + n) * (|d| - 1) + 8 + n;
    }
  }

  // ------------------------------------------------------------------ mapping

  function OfVam(v: Vam): Value {
    Four(Range(OfIntervals(v.ivs)), Range([]), Range(OfNodes(v.free, OfU64)), OfPair(v.maxAddr, v.maxOff))
  }

  function ToVam(v: Value): Option<Vam> {
    match v
    case Pair(Range(ivs), Pair(_, Pair(Range(free), Pair(a, o)))) =>
      Some(Vam(EmplaceAll(map[], ivs), InsertAll([], free, ToU64), ToU64(a), ToU64(o)))
    case _ => None
  }

  /** `deserializeImpl`, arguments being evaluated in the order `p`. */
  function ReadVam(p: Order, buf: seq<byte>): Option<Vam> {
    match DecodeIn(p, VAM_TY, buf)
    case None => None
    case Some(v) => ToVam(v)
  }

  /** A multimap is in order whatever is put into it. */
  lemma {:induction false} InsertAllSorted<T>(d: seq<Node<T>>, vs: seq<Value>, dec: Value -> T)
    requires Sorted(d)
    ensures Sorted(InsertAll(d, vs, dec))
    decreases |vs|
  {
    if vs != [] {
      match vs[0]
      case Pair(k, v) =>
        InsertedSorted(d, Node(ToU64(k), dec(v)));
        InsertAllSorted(Inserted(d, Node(ToU64(k), dec(v))), vs[1..], dec);
      case _ => InsertAllSorted(d, vs[1..], dec);
    }
  }

  lemma ReadVamSorted(p: Order, buf: seq<byte>)
    ensures ReadVam(p, buf).Some? ==> Sorted(ReadVam(p, buf).value.free)
  {
    hide DecodeIn, Sorted;
    match DecodeIn(p, VAM_TY, buf)
    case None =>
    case Some(v) =>
      if ToVam(v).Some? {
        SortedNone<u64>();
        InsertAllSorted([], v.second.second.first.elems, ToU64);
      }
  }

  lemma SortedNone<T>()
    ensures Sorted<T>([])
  {
  }

  /** `getSizeImpl`. */
  function VamSize(v: Vam): nat {
    40 + 24 * |v.ivs| + 16 * |v.free|
  }

  predicate Countable(v: Vam) {
    |v.ivs| < U64_LIMIT && |v.free| < U64_LIMIT
  }

  lemma VamValue(v: Vam)
    requires Countable(v)
    ensures HasType(OfVam(v), VAM_TY) && Storable(OfVam(v)) && Size(OfVam(v)) == VamSize(v)
  {
    hide OfNodes, OfEntries, EntriesAfter, OfPair, HasType, Size, NulFree, WholeWords;
    var es := EntriesAfter(v.ivs, -1);
    EntriesWellFormed(es);
    EntriesCount(v.ivs, -1);
    assert UpTo(v.ivs, -1) == map[];
    U64Codec();
    NodesWellFormed(v.free, OfU64, ToU64, U64_TY, 8);
    PairValue(v.maxAddr, v.maxOff);
    RangeIs(OfEntries(es), TPair(U64_TY, PAIR_TY));
    RangeIs([], PAIR_TY);
    RangeIs(OfNodes(v.free, OfU64), PAIR_TY);
    FourIs(Range(OfEntries(es)), Range([]), Range(OfNodes(v.free, OfU64)), OfPair(v.maxAddr, v.maxOff),
           TRange(TPair(U64_TY, PAIR_TY)), TRange(PAIR_TY), TRange(PAIR_TY), PAIR_TY);
  }

  /**
   A stored mapping reads back as the same mapping, order of the free list included and
   whatever bytes follow it, where arguments are evaluated left to right.
   */
  lemma VamRoundTrip(p: Order, v: Vam, rest: seq<byte>)
    requires p.pairsFirst && Countable(v) && Sorted(v.free)
    ensures ReadVam(p, Encode(OfVam(v)) + rest) == Some(v)
  {
    hide Decode, DecodeIn, Encode, HasType, EmplaceAll, InsertAll, OfNodes;
    VamValue(v);
    RoundTripExactIff(OfVam(v), VAM_TY, rest);
    VamOrdered(p, Encode(OfVam(v)) + rest);
    IntervalsRebuild(v.ivs);
    assert [] + v.free == v.free;
    U64Codec();
    NodesRebuild([], v.free, OfU64, ToU64);
    U64Value(v.maxAddr);
    U64Value(v.maxOff);
  }

  lemma VamOrdered(p: Order, buf: seq<byte>)
    requires p.pairsFirst
    ensures DecodeIn(p, VAM_TY, buf) == Decode(VAM_TY, buf)
  {
    hide DecodeIn, Decode;
    OrderedDecodes(p, VAM_TY, buf);
  }

  /** Evaluated right to left, the last number of the mapping is the first of the buffer: how many intervals it has. */
  lemma VamOutOfOrder(p: Order, v: Vam, rest: seq<byte>)
    requires !p.pairsFirst && Countable(v)
    ensures ReadVam(p, Encode(OfVam(v)) + rest).Some? ==> ReadVam(p, Encode(OfVam(v)) + rest).value.maxOff == |v.ivs|
  {
    hide ReadVam, EmplaceAll, InsertAll, OfNodes, OfIntervals, Encode;
    OneEntryEach(v.ivs);
    MaxOffFirst(p, Encode(OfVam(v)) + rest);
    var later := Pair(Range([]), Pair(Range(OfNodes(v.free, OfU64)), OfPair(v.maxAddr, v.maxOff)));
    CountFirst(OfIntervals(v.ivs), later, rest);
  }

  lemma MaxOffFirst(p: Order, buf: seq<byte>)
    requires !p.pairsFirst
    ensures ReadVam(p, buf).Some? ==> 8 <= |buf| && ReadVam(p, buf).value.maxOff == LeValue(buf[..8]) % U64_LIMIT
  {
    hide DecodeIn, EmplaceAll, InsertAll;
    LastDecodedFirst(p, TRange(TPair(U64_TY, PAIR_TY)), TRange(PAIR_TY), TRange(PAIR_TY), PAIR_TY, buf);
    SecondDecodedFirst(p, buf);
  }

  lemma OneEntryEach(m: Intervals<u64>)
    ensures |OfIntervals(m)| == |m|
  {
    EntriesWellFormed(EntriesAfter(m, -1));
    EntriesCount(m, -1);
    assert UpTo(m, -1) == map[];
  }

  lemma CountFirst(vs: seq<Value>, v: Value, rest: seq<byte>)
    requires |vs| < U64_LIMIT
    ensures var buf := Encode(Pair(Range(vs), v)) + rest; 8 <= |buf| && LeValue(buf[..8]) == |vs|
  {
    hide LeBytes, LeValue, Encode, EncodeAll;
    U64RoundTrip(|vs|, EncodeAll(vs) + Encode(v) + rest);
    CountInFront(vs, v);
    assert LeBytes(|vs|, 8) + EncodeAll(vs) + Encode(v) + rest == LeBytes(|vs|, 8) + (EncodeAll(vs) + Encode(v) + rest);
  }

  lemma CountInFront(vs: seq<Value>, v: Value)
    ensures Encode(Pair(Range(vs), v)) == LeBytes(|vs|, 8) + EncodeAll(vs) + Encode(v)
  {
    hide LeBytes;
  }

  /** Evaluated right to left, the last of four fields is taken from the front of the buffer. */
  lemma LastDecodedFirst(p: Order, a: Ty, b: Ty, c: Ty, d: Ty, buf: seq<byte>)
    requires !p.pairsFirst
    ensures var r := DecodeIn(p, FourTys(a, b, c, d), buf);
      r.Some? ==> r.value.Pair? && r.value.second.Pair? && r.value.second.second.Pair? &&
                  DecodeIn(p, d, buf) == Some(r.value.second.second.second)
  {
    hide DecodeIn;
    BackFirst(p, c, d, buf);
    BackFirst(p, b, TPair(c, d), buf);
    BackFirst(p, a, TPair(b, TPair(c, d)), buf);
  }

  lemma BackFirst(p: Order, a: Ty, b: Ty, buf: seq<byte>)
    requires !p.pairsFirst
    ensures var r := DecodeIn(p, TPair(a, b), buf);
      r.Some? ==> r.value.Pair? && DecodeIn(p, b, buf) == Some(r.value.second)
  {
  }

  lemma SecondDecodedFirst(p: Order, buf: seq<byte>)
    requires !p.pairsFirst
    ensures var r := DecodeIn(p, PAIR_TY, buf);
      r.Some? ==> 8 <= |buf| && r.value.Pair? && r.value.second == Scalar(buf[..8])
  {
  }

  // ------------------------------------------------------- the stored bytes

  function EntryBytes(es: seq<(u64, Interval<u64>)>): seq<byte> {
    if es == [] then []
    else LeBytes(es[0].0, 8) + LeBytes(es[0].1.end, 8) + LeBytes(es[0].1.value, 8) + EntryBytes(es[1..])
  }

  function BlockBytes(d: seq<Node<u64>>): seq<byte> {
    if d == [] then [] else LeBytes(d[0].size, 8) + LeBytes(d[0].item, 8) + BlockBytes(d[1..])
  }

  /** The stored mapping, number by number. */
  lemma VamLayout(v: Vam)
    ensures |EntriesAfter(v.ivs, -1)| == |v.ivs|
    ensures Encode(OfVam(v)) ==
            LeBytes(|v.ivs|, 8) + EntryBytes(EntriesAfter(v.ivs, -1)) +
            (LeBytes(0, 8) +
             (LeBytes(|v.free|, 8) + BlockBytes(v.free) + (LeBytes(v.maxAddr, 8) + LeBytes(v.maxOff, 8))))
  {
    var es := EntriesAfter(v.ivs, -1);
    EntriesCount(v.ivs, -1);
    assert UpTo(v.ivs, -1) == map[];
    EntriesBytes(es);
    NodesBytes(v.free);
    hide Encode, EncodeAll, OfNodes, OfEntries, LeBytes, EntryBytes, BlockBytes, EntriesAfter;
    FourBytes(Range(OfEntries(es)), Range([]), Range(OfNodes(v.free, OfU64)), OfPair(v.maxAddr, v.maxOff));
    RangeBytes(OfEntries(es));
    RangeBytes([]);
    RangeBytes(OfNodes(v.free, OfU64));
    EncodeNone();
    PairBytes(v.maxAddr, v.maxOff);
    assert LeBytes(0, 8) + [] == LeBytes(0, 8);
  }

  lemma FourBytes(a: Value, b: Value, c: Value, d: Value)
    ensures Encode(Four(a, b, c, d)) == Encode(a) + (Encode(b) + (Encode(c) + Encode(d)))
  {
    hide HasType, Size, Encode, NulFree, WholeWords, Padded;
    PairIs(c, d, U64_TY, U64_TY);
    PairIs(b, Pair(c, d), U64_TY, U64_TY);
    PairIs(a, Pair(b, Pair(c, d)), U64_TY, U64_TY);
  }

  lemma RangeBytes(vs: seq<Value>)
    ensures Encode(Range(vs)) == LeBytes(|vs|, 8) + EncodeAll(vs)
  {
  }

  lemma PairBytes(x: u64, y: u64)
    ensures Encode(OfPair(x, y)) == LeBytes(x, 8) + LeBytes(y, 8)
  {
    hide LeBytes;
  }

  lemma {:induction false} EntriesBytes(es: seq<(u64, Interval<u64>)>)
    ensures |OfEntries(es)| == |es| && EncodeAll(OfEntries(es)) == EntryBytes(es)
  {
    hide LeBytes;
    if es != [] {
      EntriesBytes(es[1..]);
      var k, iv := es[0].0, es[0].1;
      PairIs(OfU64(k), OfPair(iv.end, iv.value), U64_TY, PAIR_TY);
      PairBytes(iv.end, iv.value);
      EncodeCons(Pair(OfU64(k), OfPair(iv.end, iv.value)), OfEntries(es[1..]));
      assert Encode(OfU64(k)) == LeBytes(k, 8);
      assert LeBytes(k, 8) + (LeBytes(iv.end, 8) + LeBytes(iv.value, 8)) ==
             LeBytes(k, 8) + LeBytes(iv.end, 8) + LeBytes(iv.value, 8);
    }
  }

  lemma {:induction false} NodesBytes(d: seq<Node<u64>>)
    ensures |OfNodes(d, OfU64)| == |d| && EncodeAll(OfNodes(d, OfU64)) == BlockBytes(d)
  {
    hide LeBytes;
    if d != [] {
      NodesBytes(d[1..]);
      EncodeCons(OfPair(d[0].size, d[0].item), OfNodes(d[1..], OfU64));
      PairBytes(d[0].size, d[0].item);
    }
  }
}

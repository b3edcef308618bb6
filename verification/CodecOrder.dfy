/**
 The order in which components are decoded. `DeserializeSequentially` decodes pairs and
 lists of fields in the order in which the compiler evaluates arguments, `tuple_create`
 in that order or, with `REVERSE_TUPLE_CREATE`, in the opposite one. Encoding is always
 first to last, so values come back only where decoding is too.
 */
module CodecOrder {
  import opened Machine
  import opened Codec

  datatype Order = Order(pairsFirst: bool, tuplesFirst: bool)

  /** `leftToRight` is the compiler's, `reverseCreate` the macro's, which only Apple platforms set to 0. */
  function OrderOf(leftToRight: bool, reverseCreate: bool): Order {
    Order(leftToRight, leftToRight != reverseCreate)
  }

  /** Components are decoded as they were encoded. */
  const IN_ORDER: Order := Order(true, true)

  // ----------------------------------------------------------------- decoding

  function DecodeIn(p: Order, t: Ty, buf: seq<byte>): Option<Value>
    decreases t, 0, 0
  {
    match t
    case TScalar(_) => Decode(t, buf)
    case TStr => Decode(t, buf)
    case TBits => Decode(t, buf)
    case TPair(ta, tb) =>
      if p.pairsFirst then
        match DecodeOneIn(p, ta, buf)
        case None => None
        case Some((a, rest)) =>
          match DecodeOneIn(p, tb, rest)
          case None => None
          case Some((b, _)) => Some(Pair(a, b))
      else
        (match DecodeOneIn(p, tb, buf)
         case None => None
         case Some((b, rest)) =>
           match DecodeOneIn(p, ta, rest)
           case None => None
           case Some((a, _)) => Some(Pair(a, b)))
    case TTuple(ts) =>
      (match if p.tuplesFirst then DecodeAllIn(p, ts, buf) else DecodeBackIn(p, ts, buf)
       case None => None
       case Some((vs, _)) => Some(Tuple(vs)))
    case TRange(e) =>
      if |buf| < 8 then None
      else (match DecodeNIn(p, e, LeValue(buf[..8]), buf[8..])
            case None => None
            case Some((vs, _)) => Some(Range(vs)))
  }

  function DecodeOneIn(p: Order, t: Ty, buf: seq<byte>): Option<(Value, seq<byte>)>
    decreases t, 1, 0
  {
    match DecodeIn(p, t, buf)
    case None => None
    case Some(v) => if |buf| < Size(v) then None else Some((v, buf[Size(v)..]))
  }

  function DecodeAllIn(p: Order, ts: seq<Ty>, buf: seq<byte>): Option<(seq<Value>, seq<byte>)>
    decreases ts, 0, |ts|
  {
    if ts == [] then Some(([], buf))
    else match DecodeOneIn(p, ts[0], buf)
      case None => None
      case Some((v, rest)) =>
        match DecodeAllIn(p, ts[1..], rest)
        case None => None
        case Some((vs, rest')) => Some(([v] + vs, rest'))
  }

  /** The last component is taken from the front of the buffer. */
  function DecodeBackIn(p: Order, ts: seq<Ty>, buf: seq<byte>): Option<(seq<Value>, seq<byte>)>
    decreases ts, 0, |ts|
  {
    if ts == [] then Some(([], buf))
    else match DecodeOneIn(p, ts[|ts| - 1], buf)
      case None => None
      case Some((v, rest)) =>
        match DecodeBackIn(p, ts[..|ts| - 1], rest)
        case None => None
        case Some((vs, rest')) => Some((vs + [v], rest'))
  }

  function DecodeNIn(p: Order, t: Ty, n: nat, buf: seq<byte>): Option<(seq<Value>, seq<byte>)>
    decreases t, 2, n
  {
    if n == 0 then Some(([], buf))
    else match DecodeOneIn(p, t, buf)
      case None => None
      case Some((v, rest)) =>
        match DecodeNIn(p, t, n - 1, rest)
        case None => None
        case Some((vs, rest')) => Some(([v] + vs, rest'))
  }

  // ----------------------------------------------------- where order is right

  /** No component of the type is decoded out of order. */
  predicate Ordered(p: Order, t: Ty)
    decreases t
  {
    match t
    case TPair(ta, tb) => p.pairsFirst && Ordered(p, ta) && Ordered(p, tb)
    case TTuple(ts) => (p.tuplesFirst || |ts| <= 1) && forall i :: 0 <= i < |ts| ==> Ordered(p, ts[i])
    case TRange(e) => Ordered(p, e)
    case _ => true
  }

  lemma {:induction false} OrderedDecodes(p: Order, t: Ty, buf: seq<byte>)
    requires Ordered(p, t)
    ensures DecodeIn(p, t, buf) == Decode(t, buf)
    decreases t, 0, 0
  {
    hide DecodeOne, DecodeOneIn, DecodeAll, DecodeAllIn, DecodeBackIn, DecodeN, DecodeNIn, DecodeWords;
    match t
    case TPair(ta, tb) =>
      OrderedOne(p, ta, buf);
      if DecodeOne(ta, buf).Some? { OrderedOne(p, tb, DecodeOne(ta, buf).value.1); }
    case TTuple(ts) =>
      OrderedAll(p, ts, buf);
      if !p.tuplesFirst { BackOfOne(p, ts, buf); }
    case TRange(e) =>
      if 8 <= |buf| { OrderedN(p, e, LeValue(buf[..8]), buf[8..]); }
    case _ =>
  }

  lemma {:induction false} OrderedOne(p: Order, t: Ty, buf: seq<byte>)
    requires Ordered(p, t)
    ensures DecodeOneIn(p, t, buf) == DecodeOne(t, buf)
    decreases t, 1, 0
  {
    hide Decode, DecodeIn;
    OrderedDecodes(p, t, buf);
  }

  lemma {:induction false} OrderedAll(p: Order, ts: seq<Ty>, buf: seq<byte>)
    requires forall i :: 0 <= i < |ts| ==> Ordered(p, ts[i])
    ensures DecodeAllIn(p, ts, buf) == DecodeAll(ts, buf)
    decreases ts, 0, |ts|
  {
    hide DecodeOne, DecodeOneIn, Ordered;
    if ts != [] {
      OrderedOne(p, ts[0], buf);
      if DecodeOne(ts[0], buf).Some? { OrderedAll(p, ts[1..], DecodeOne(ts[0], buf).value.1); }
    }
  }

  /** A tuple of one component has but one order. */
  lemma BackOfOne(p: Order, ts: seq<Ty>, buf: seq<byte>)
    requires |ts| <= 1
    ensures DecodeBackIn(p, ts, buf) == DecodeAllIn(p, ts, buf)
  {
    hide DecodeOneIn;
    if ts != [] {
      assert ts[..|ts| - 1] == [] && ts[1..] == [];
      if DecodeOneIn(p, ts[0], buf).Some? {
        var v := DecodeOneIn(p, ts[0], buf).value.0;
        assert [] + [v] == [v] + [];
      }
    }
  }

  lemma {:induction false} OrderedN(p: Order, t: Ty, n: nat, buf: seq<byte>)
    requires Ordered(p, t)
    ensures DecodeNIn(p, t, n, buf) == DecodeN(t, n, buf)
    decreases t, 2, n
  {
    hide DecodeOne, DecodeOneIn, Ordered;
    if n != 0 {
      OrderedOne(p, t, buf);
      if DecodeOne(t, buf).Some? { OrderedN(p, t, n - 1, DecodeOne(t, buf).value.1); }
    }
  }

  lemma {:induction false} InOrderIsOrdered(t: Ty)
    ensures Ordered(IN_ORDER, t)
    decreases t
  {
    match t
    case TPair(ta, tb) => InOrderIsOrdered(ta); InOrderIsOrdered(tb);
    case TTuple(ts) => forall i | 0 <= i < |ts| ensures Ordered(IN_ORDER, ts[i]) { InOrderIsOrdered(ts[i]); }
    case TRange(e) => InOrderIsOrdered(e);
    case _ =>
  }

  /** Decoding in order is the decoding for which the round trip is proved. */
  lemma InOrderDecodes(t: Ty, buf: seq<byte>)
    ensures DecodeIn(IN_ORDER, t, buf) == Decode(t, buf)
  {
    InOrderIsOrdered(t);
    OrderedDecodes(IN_ORDER, t, buf);
  }

  // ------------------------------------------------------------ exact condition

  ghost predicate Returns(p: Order, t: Ty, v: Value, rest: seq<byte>) {
    DecodeIn(p, t, Encode(v) + rest) == Some(v)
  }

  /** Every storable value of the type comes back, whatever follows it. */
  ghost predicate RoundTrips(p: Order, t: Ty) {
    forall v: Value, rest: seq<byte> :: HasType(v, t) && Storable(v) ==> Returns(p, t, v, rest)
  }

  lemma OrderedRoundTrips(p: Order, t: Ty)
    requires Ordered(p, t)
    ensures RoundTrips(p, t)
  {
    hide HasType, Storable, Encode, Decode, DecodeIn;
    forall v: Value, rest: seq<byte> | HasType(v, t) && Storable(v) ensures Returns(p, t, v, rest) {
      OrderedDecodes(p, t, Encode(v) + rest);
      RoundTripExactIff(v, t, rest);
    }
  }

  const BYTE: Ty := TScalar(1)

  /** The pair (0, 1) of bytes, decoded second component first, is (1, 0). */
  lemma SwappedPair(p: Order)
    requires !p.pairsFirst
    ensures !RoundTrips(p, TPair(BYTE, BYTE))
  {
    var v := Pair(Scalar([0]), Scalar([1]));
    assert Encode(v) + [] == [0, 1];
    assert DecodeOneIn(p, BYTE, [0, 1]).value.0 == Scalar([0]);
    assert HasType(v, TPair(BYTE, BYTE)) && Storable(v) && !Returns(p, TPair(BYTE, BYTE), v, []);
  }

  /** An int, a 64-bit number and a char: -333, 0xeeef6 and 'L'. */
  const MIXED_TY: Ty := TTuple([TScalar(4), TScalar(8), TScalar(1)])
  const MIXED: Value :=
    Tuple([Scalar([0xB3, 0xFE, 0xFF, 0xFF]), Scalar([0xF6, 0xEE, 0x0E, 0, 0, 0, 0, 0]), Scalar([0x4C])])

  /** Decoded last component first, the char is the first byte of the int. */
  lemma SwappedTuple(p: Order, rest: seq<byte>)
    requires !p.tuplesFirst
    ensures HasType(MIXED, MIXED_TY) && Storable(MIXED) && !Returns(p, MIXED_TY, MIXED, rest)
  {
    hide Encode, DecodeBackIn;
    MixedStorable();
    MixedFront(rest);
    LastIsFirst(p, MIXED_TY.ts, Encode(MIXED) + rest);
  }

  lemma MixedStorable()
    ensures HasType(MIXED, MIXED_TY) && Storable(MIXED)
  {
  }

  lemma MixedFront(rest: seq<byte>)
    ensures |Encode(MIXED) + rest| > 0 && (Encode(MIXED) + rest)[0] == 0xB3
  {
  }

  lemma LastIsFirst(p: Order, ts: seq<Ty>, buf: seq<byte>)
    requires ts != [] && ts[|ts| - 1] == BYTE && buf != []
    ensures DecodeBackIn(p, ts, buf).Some? ==>
              var vs := DecodeBackIn(p, ts, buf).value.0; vs != [] && vs[|vs| - 1] == Scalar(buf[..1])
  {
  }

  ghost predicate PairFree(t: Ty)
    decreases t
  {
    match t
    case TPair(_, _) => false
    case TTuple(ts) => forall i :: 0 <= i < |ts| ==> PairFree(ts[i])
    case TRange(e) => PairFree(e)
    case _ => true
  }

  lemma {:induction false} PairFreeOrdered(p: Order, t: Ty)
    requires PairFree(t) && p.tuplesFirst
    ensures Ordered(p, t)
    decreases t
  {
    match t
    case TTuple(ts) => forall i | 0 <= i < |ts| ensures Ordered(p, ts[i]) { PairFreeOrdered(p, ts[i]); }
    case TRange(e) => PairFreeOrdered(p, e);
    case _ =>
  }

  /** Tuples without pairs come back if and only if the compiler's order and the macro's agree. */
  lemma TuplesRoundTripIff(leftToRight: bool, reverseCreate: bool)
    ensures var p := OrderOf(leftToRight, reverseCreate);
      (forall t :: PairFree(t) ==> RoundTrips(p, t)) <==> leftToRight != reverseCreate
  {
    hide RoundTrips, Returns, HasType, Storable;
    var p := OrderOf(leftToRight, reverseCreate);
    if leftToRight != reverseCreate {
      forall t | PairFree(t) ensures RoundTrips(p, t) {
        PairFreeOrdered(p, t);
        OrderedRoundTrips(p, t);
      }
    } else {
      MixedLost(p);
      assert PairFree(MIXED_TY);
    }
  }

  lemma MixedLost(p: Order)
    requires !p.tuplesFirst
    ensures !RoundTrips(p, MIXED_TY)
  {
    hide HasType, Storable, Returns;
    SwappedTuple(p, []);
  }

  /**
   Every value comes back, pairs and tuples alike, if and only if arguments are evaluated
   left to right and the macro is 0.
   */
  lemma PlatformRoundTripsIff(leftToRight: bool, reverseCreate: bool)
    ensures var p := OrderOf(leftToRight, reverseCreate);
      (forall t :: RoundTrips(p, t)) <==> leftToRight && !reverseCreate
  {
    hide RoundTrips;
    var p := OrderOf(leftToRight, reverseCreate);
    if leftToRight && !reverseCreate {
      forall t ensures RoundTrips(p, t) {
        InOrderIsOrdered(t);
        OrderedRoundTrips(p, t);
      }
    } else if !p.pairsFirst {
      SwappedPair(p);
    } else {
      MixedLost(p);
    }
  }
}

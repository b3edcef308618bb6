/**
 The serializer of include/storage/SerializeImpl.hpp and SerializeSpecialization.hpp
 over a universe of types. Decoding is driven by prefixes: a value is decoded from
 the front of the buffer, and the size of the value found says where the next begins.
 */
module Codec {
  import opened Machine

  datatype Ty =
    | TScalar(n: nat)              // a trivially copyable type of n bytes
    | TStr
    | TPair(fst: Ty, snd: Ty)
    | TTuple(ts: seq<Ty>)
    | TRange(elem: Ty)
    | TBits

  datatype Value =
    | Scalar(bytes: seq<byte>)
    | Str(s: seq<byte>)
    | Pair(first: Value, second: Value)
    | Tuple(vs: seq<Value>)
    | Range(elems: seq<Value>)
    | Bits(bits: seq<bool>)

  ghost predicate HasType(v: Value, t: Ty)
    decreases v
  {
    match (v, t)
    case (Scalar(b), TScalar(n)) => |b| == n
    case (Str(s), TStr) => true
    case (Pair(a, b), TPair(ta, tb)) => HasType(a, ta) && HasType(b, tb)
    case (Tuple(vs), TTuple(ts)) => |vs| == |ts| && forall i :: 0 <= i < |vs| ==> HasType(vs[i], ts[i])
    case (Range(vs), TRange(e)) => |vs| < U64_LIMIT && forall i :: 0 <= i < |vs| ==> HasType(vs[i], e)
    case (Bits(bs), TBits) => PaddedLength(|bs|) < U64_LIMIT
    case _ => false
  }

  // ------------------------------------------------------- little-endian u64

  function LeBytes(x: nat, n: nat): (b: seq<byte>)
    ensures |b| == n
  {
    if n == 0 then [] else [x % 256] + LeBytes(x / 256, n - 1)
  }

  function LeValue(b: seq<byte>): nat {
    if b == [] then 0 else b[0] + 256 * LeValue(b[1..])
  }

  function Pow(base: nat, n: nat): nat {
    if n == 0 then 1 else base * Pow(base, n - 1)
  }

  lemma {:induction false} LeRoundTrip(x: nat, n: nat)
    requires x < Pow(256, n)
    ensures LeValue(LeBytes(x, n)) == x
  {
    if n != 0 {
      assert x / 256 < Pow(256, n - 1);
      LeRoundTrip(x / 256, n - 1);
      assert LeBytes(x, n)[1..] == LeBytes(x / 256, n - 1);
    }
  }

  /** Byte `i` is the one of weight 256^i. */
  lemma {:induction false} LeBytesAt(x: nat, n: nat, i: nat)
    requires i < n
    ensures LeBytes(x, n)[i] == Digit(x, i)
  {
    if i != 0 { LeBytesAt(x / 256, n - 1, i - 1); }
  }

  /** The `i`th digit to base 256. */
  function Digit(x: nat, i: nat): nat {
    if i == 0 then x % 256 else Digit(x / 256, i - 1)
  }

  lemma Pow256Is64Bits()
    ensures Pow(256, 8) == U64_LIMIT
  {
    assert Pow(256, 2) == 0x1_0000;
    assert Pow(256, 4) == 0x1_0000_0000;
    assert Pow(256, 6) == 0x1_0000_0000_0000;
  }

  lemma U64RoundTrip(x: u64, rest: seq<byte>)
    ensures LeValue((LeBytes(x, 8) + rest)[..8]) == x && (LeBytes(x, 8) + rest)[8..] == rest
  {
    Pow256Is64Bits();
    LeRoundTrip(x, 8);
    assert (LeBytes(x, 8) + rest)[..8] == LeBytes(x, 8);
  }

  // ---------------------------------------------------------------- strings

  /** What `c_str()` shows of a string: the bytes before the first NUL. */
  function UpToNul(s: seq<byte>): (p: seq<byte>)
    ensures |p| <= |s| && p == s[..|p|] && 0 !in p
    ensures |p| < |s| ==> s[|p|] == 0
  {
    if s == [] || s[0] == 0 then [] else [s[0]] + UpToNul(s[1..])
  }

  lemma {:induction false} UpToNulIs(s: seq<byte>, n: nat)
    requires n < |s| && s[n] == 0 && 0 !in s[..n]
    ensures UpToNul(s) == s[..n]
  {
    if n != 0 {
      assert s[..n][0] == s[0];
      assert forall i :: 0 <= i < n - 1 ==> s[1..][i] == s[..n][i + 1];
      UpToNulIs(s[1..], n - 1);
    }
  }

  function Zeros(n: nat): (z: seq<byte>)
    ensures |z| == n && forall i :: 0 <= i < n ==> z[i] == 0
  {
    seq(n, _ => 0)
  }

  // ------------------------------------------------------------ bit vectors

  const WORD: nat := 64

  function WordsOf(n: nat): nat {
    n / WORD + if n % WORD != 0 then 1 else 0
  }

  /** The length rounded up to whole words, as the source computes it. */
  function PaddedLength(n: nat): nat {
    n + WORD * (if n % WORD != 0 then 1 else 0) - n % WORD
  }

  function Pad(bs: seq<bool>): (p: seq<bool>)
    ensures |p| == PaddedLength(|bs|)
    ensures forall i :: 0 <= i < |p| ==> p[i] == (i < |bs| && bs[i])
  {
    seq(PaddedLength(|bs|), i requires 0 <= i => i < |bs| && bs[i])
  }

  function Pack(bs: seq<bool>): nat {
    if bs == [] then 0 else (if bs[0] then 1 else 0) + 2 * Pack(bs[1..])
  }

  function Unpack(x: nat, n: nat): (bs: seq<bool>)
    ensures |bs| == n
  {
    if n == 0 then [] else [x % 2 == 1] + Unpack(x / 2, n - 1)
  }

  lemma {:induction false} PackBound(bs: seq<bool>)
    ensures Pack(bs) < Pow(2, |bs|)
  {
    if bs != [] { PackBound(bs[1..]); }
  }

  lemma {:induction false} PowMonotone(m: nat, n: nat)
    requires m <= n
    ensures Pow(2, m) <= Pow(2, n)
  {
    if m < n { PowMonotone(m, n - 1); }
  }

  lemma Pow2Is64Bits()
    ensures Pow(2, WORD) == U64_LIMIT
  {
    assert Pow(2, 8) == 0x100 by { assert Pow(2, 4) == 0x10; }
    assert Pow(2, 16) == 0x1_0000 by { assert Pow(2, 12) == 0x1000; }
    assert Pow(2, 24) == 0x100_0000 by { assert Pow(2, 20) == 0x10_0000; }
    assert Pow(2, 32) == 0x1_0000_0000 by { assert Pow(2, 28) == 0x1000_0000; }
    assert Pow(2, 40) == 0x100_0000_0000 by { assert Pow(2, 36) == 0x10_0000_0000; }
    assert Pow(2, 48) == 0x1_0000_0000_0000 by { assert Pow(2, 44) == 0x1000_0000_0000; }
    assert Pow(2, 56) == 0x100_0000_0000_0000 by { assert Pow(2, 52) == 0x10_0000_0000_0000; }
    assert Pow(2, 60) == 0x1000_0000_0000_0000;
  }

  lemma PackFitsWord(bs: seq<bool>)
    requires |bs| <= WORD
    ensures Pack(bs) < U64_LIMIT
  {
    PackBound(bs);
    PowMonotone(|bs|, WORD);
    Pow2Is64Bits();
  }

  /** Unpacking a word of `n` bits gives the packed bits back, and `false` beyond them. */
  lemma {:induction false} UnpackPack(bs: seq<bool>, n: nat)
    requires |bs| <= n
    ensures forall i :: 0 <= i < n ==> Unpack(Pack(bs), n)[i] == (i < |bs| && bs[i])
  {
    if n != 0 {
      var rest := if bs == [] then [] else bs[1..];
      UnpackPack(rest, n - 1);
      assert Pack(bs) / 2 == Pack(rest);
      assert Unpack(Pack(bs), n)[1..] == Unpack(Pack(rest), n - 1);
      forall i | 0 <= i < n ensures Unpack(Pack(bs), n)[i] == (i < |bs| && bs[i]) {
        if i > 0 { assert Unpack(Pack(bs), n)[i] == Unpack(Pack(rest), n - 1)[i - 1]; }
      }
    }
  }

  lemma {:induction false} PackSnoc(bs: seq<bool>, b: bool)
    ensures Pack(bs + [b]) == Pack(bs) + (if b then Pow(2, |bs|) else 0)
  {
    if bs == [] {
      assert bs + [b] == [b] && [b][1..] == [];
    } else {
      PackSnoc(bs[1..], b);
      assert (bs + [b])[1..] == bs[1..] + [b];
    }
  }

  /** The packed word does not change when `false` is appended. */
  lemma {:induction false} PackZeros(bs: seq<bool>, n: nat)
    ensures Pack(bs + seq(n, _ => false)) == Pack(bs)
  {
    if n == 0 {
      assert bs + seq(n, _ => false) == bs;
    } else {
      PackZeros(bs, n - 1);
      PackSnoc(bs + seq(n - 1, _ => false), false);
      assert bs + seq(n, _ => false) == bs + seq(n - 1, _ => false) + [false];
    }
  }

  function FirstWord(bs: seq<bool>): seq<bool> {
    if |bs| < WORD then bs else bs[..WORD]
  }

  function LaterWords(bs: seq<bool>): seq<bool> {
    if |bs| < WORD then [] else bs[WORD..]
  }

  function EncodeWords(bs: seq<bool>): (b: seq<byte>)
    ensures |b| == 8 * WordsOf(|bs|)
    decreases |bs|
  {
    if bs == [] then [] else LeBytes(Pack(FirstWord(bs)), 8) + EncodeWords(LaterWords(bs))
  }

  /** `n` bits, `n` a multiple of the word size. */
  function DecodeWords(n: nat, buf: seq<byte>): Option<seq<bool>> {
    if n == 0 then Some([])
    else if n < WORD || |buf| < 8 then None
    else match DecodeWords(n - WORD, buf[8..])
      case None => None
      case Some(rest) => Some(Unpack(LeValue(buf[..8]), WORD) + rest)
  }

  lemma PaddedLengthStep(n: nat)
    requires 0 < n
    ensures PaddedLength(n) == WORD + PaddedLength(if n < WORD then 0 else n - WORD)
  {
  }

  lemma UnpackFirst(bs: seq<bool>)
    requires bs != []
    ensures Unpack(Pack(FirstWord(bs)), WORD) + Pad(LaterWords(bs)) == Pad(bs)
  {
    UnpackPack(FirstWord(bs), WORD);
    PaddedLengthStep(|bs|);
  }

  lemma {:induction false} WordsRoundTrip(bs: seq<bool>, rest: seq<byte>)
    ensures DecodeWords(PaddedLength(|bs|), EncodeWords(bs) + rest) == Some(Pad(bs))
    decreases |bs|
  {
    if bs != [] {
      var head, tail := FirstWord(bs), LaterWords(bs);
      PackFitsWord(head);
      LengthFirst(Pack(head), EncodeWords(tail), rest);
      WordsRoundTrip(tail, rest);
      PaddedLengthStep(|bs|);
      UnpackFirst(bs);
    }
  }

  lemma {:induction false} PadEncodesSame(bs: seq<bool>)
    ensures EncodeWords(Pad(bs)) == EncodeWords(bs)
    decreases |bs|
  {
    if bs != [] {
      var head, tail := FirstWord(bs), LaterWords(bs);
      PadEncodesSame(tail);
      PadFirst(bs);
      PackZeros(head, WORD - |head|);
    }
  }

  lemma PadFirst(bs: seq<bool>)
    requires bs != []
    ensures Pad(bs) != [] && LaterWords(Pad(bs)) == Pad(LaterWords(bs))
    ensures FirstWord(Pad(bs)) == FirstWord(bs) + seq(WORD - |FirstWord(bs)|, _ => false)
  {
    PaddedLengthStep(|bs|);
  }

  // ------------------------------------------------------- encode and decode

  function Size(v: Value): nat
    decreases v, 0
  {
    match v
    case Scalar(b) => |b|
    case Str(s) => |s| + 1
    case Pair(a, b) => Size(a) + Size(b)
    case Tuple(vs) => SizeAll(vs)
    case Range(vs) => 8 + SizeAll(vs)
    case Bits(bs) => 8 + 8 * WordsOf(|bs|)
  }

  function SizeAll(vs: seq<Value>): nat
    decreases vs, 0
  {
    if vs == [] then 0 else Size(vs[0]) + SizeAll(vs[1..])
  }

  /** What `strncpy` leaves in the `|s| + 1` bytes of a string. */
  function EncodeStr(s: seq<byte>): seq<byte> {
    UpToNul(s) + Zeros(|s| + 1 - |UpToNul(s)|)
  }

  function Encode(v: Value): (b: seq<byte>)
    ensures |b| == Size(v)
    decreases v, 0
  {
    match v
    case Scalar(b) => b
    case Str(s) => EncodeStr(s)
    case Pair(a, b) => Encode(a) + Encode(b)
    case Tuple(vs) => EncodeAll(vs)
    case Range(vs) => LeBytes(|vs|, 8) + EncodeAll(vs)
    case Bits(bs) => LeBytes(PaddedLength(|bs|), 8) + EncodeWords(bs)
  }

  function EncodeAll(vs: seq<Value>): (b: seq<byte>)
    ensures |b| == SizeAll(vs)
    decreases vs, 0
  {
    if vs == [] then [] else Encode(vs[0]) + EncodeAll(vs[1..])
  }

  /** `getObj`; `None` where the source throws or would read past the buffer. */
  function Decode(t: Ty, buf: seq<byte>): Option<Value>
    decreases t, 0, 0
  {
    match t
    case TScalar(n) => if |buf| < n then None else Some(Scalar(buf[..n]))
    case TStr => if buf == [] then None else Some(Str(UpToNul(buf[..|buf| - 1])))
    case TPair(ta, tb) =>
      (match DecodeOne(ta, buf)
       case None => None
       case Some((a, rest)) =>
         match DecodeOne(tb, rest)
         case None => None
         case Some((b, _)) => Some(Pair(a, b)))
    case TTuple(ts) =>
      (match DecodeAll(ts, buf)
       case None => None
       case Some((vs, _)) => Some(Tuple(vs)))
    case TRange(e) =>
      if |buf| < 8 then None
      else (match DecodeN(e, LeValue(buf[..8]), buf[8..])
            case None => None
            case Some((vs, _)) => Some(Range(vs)))
    case TBits =>
      if |buf| < 8 then None
      else (match DecodeWords(LeValue(buf[..8]), buf[8..])
            case None => None
            case Some(bs) => Some(Bits(bs)))
  }

  /** `DeserializeOne`: decode from the front, then advance by the size of what was found. */
  function DecodeOne(t: Ty, buf: seq<byte>): Option<(Value, seq<byte>)>
    decreases t, 1, 0
  {
    match Decode(t, buf)
    case None => None
    case Some(v) => if |buf| < Size(v) then None else Some((v, buf[Size(v)..]))
  }

  function DecodeAll(ts: seq<Ty>, buf: seq<byte>): Option<(seq<Value>, seq<byte>)>
    decreases ts, 0, 0
  {
    if ts == [] then Some(([], buf))
    else match DecodeOne(ts[0], buf)
      case None => None
      case Some((v, rest)) =>
        match DecodeAll(ts[1..], rest)
        case None => None
        case Some((vs, rest')) => Some(([v] + vs, rest'))
  }

  function DecodeN(t: Ty, n: nat, buf: seq<byte>): Option<(seq<Value>, seq<byte>)>
    decreases t, 2, n
  {
    if n == 0 then Some(([], buf))
    else match DecodeOne(t, buf)
      case None => None
      case Some((v, rest)) =>
        match DecodeN(t, n - 1, rest)
        case None => None
        case Some((vs, rest')) => Some(([v] + vs, rest'))
  }

  // ---------------------------------------------------------------- padding

  /** What a value becomes on its way through storage: bit vectors grow to whole words. */
  function Padded(v: Value): Value
    decreases v, 0
  {
    match v
    case Scalar(_) => v
    case Str(_) => v
    case Pair(a, b) => Pair(Padded(a), Padded(b))
    case Tuple(vs) => Tuple(PaddedAll(vs))
    case Range(vs) => Range(PaddedAll(vs))
    case Bits(bs) => Bits(Pad(bs))
  }

  function PaddedAll(vs: seq<Value>): (ps: seq<Value>)
    ensures |ps| == |vs|
    decreases vs, 0
  {
    if vs == [] then [] else [Padded(vs[0])] + PaddedAll(vs[1..])
  }

  /** No string in the value contains a NUL. */
  predicate NulFree(v: Value)
    decreases v, 0
  {
    match v
    case Scalar(_) => true
    case Str(s) => 0 !in s
    case Pair(a, b) => NulFree(a) && NulFree(b)
    case Tuple(vs) => NulFreeAll(vs)
    case Range(vs) => NulFreeAll(vs)
    case Bits(_) => true
  }

  predicate NulFreeAll(vs: seq<Value>)
    decreases vs, 0
  {
    vs == [] || (NulFree(vs[0]) && NulFreeAll(vs[1..]))
  }

  /** Every bit vector in the value is a whole number of words. */
  predicate WholeWords(v: Value)
    decreases v, 0
  {
    match v
    case Scalar(_) => true
    case Str(_) => true
    case Pair(a, b) => WholeWords(a) && WholeWords(b)
    case Tuple(vs) => WholeWordsAll(vs)
    case Range(vs) => WholeWordsAll(vs)
    case Bits(bs) => |bs| % WORD == 0
  }

  predicate WholeWordsAll(vs: seq<Value>)
    decreases vs, 0
  {
    vs == [] || (WholeWords(vs[0]) && WholeWordsAll(vs[1..]))
  }

  /** Padding changes neither size nor encoding, so whatever follows stays aligned. */
  lemma {:induction false} PaddedEncodesSame(v: Value)
    ensures Size(Padded(v)) == Size(v) && Encode(Padded(v)) == Encode(v)
    decreases v, 0
  {
    match v
    case Scalar(_) =>
    case Str(_) =>
    case Pair(a, b) => PaddedEncodesSame(a); PaddedEncodesSame(b);
    case Tuple(vs) => PaddedAllEncodesSame(vs);
    case Range(vs) => PaddedAllEncodesSame(vs);
    case Bits(bs) => PadEncodesSame(bs);
  }

  lemma {:induction false} PaddedAllEncodesSame(vs: seq<Value>)
    ensures SizeAll(PaddedAll(vs)) == SizeAll(vs) && EncodeAll(PaddedAll(vs)) == EncodeAll(vs)
    decreases vs, 0
  {
    if vs != [] {
      PaddedEncodesSame(vs[0]);
      PaddedAllEncodesSame(vs[1..]);
      assert PaddedAll(vs)[1..] == PaddedAll(vs[1..]);
    }
  }

  lemma {:induction false} PaddedIsSelfIff(v: Value)
    ensures Padded(v) == v <==> WholeWords(v)
    decreases v, 0
  {
    match v
    case Scalar(_) =>
    case Str(_) =>
    case Pair(a, b) => PaddedIsSelfIff(a); PaddedIsSelfIff(b);
    case Tuple(vs) => PaddedAllIsSelfIff(vs);
    case Range(vs) => PaddedAllIsSelfIff(vs);
    case Bits(bs) =>
      if |bs| % WORD == 0 {
        assert Pad(bs) == bs;
      } else {
        assert |Pad(bs)| != |bs|;
      }
  }

  lemma {:induction false} PaddedAllIsSelfIff(vs: seq<Value>)
    ensures PaddedAll(vs) == vs <==> WholeWordsAll(vs)
    decreases vs, 0
  {
    if vs != [] {
      PaddedIsSelfIff(vs[0]);
      PaddedAllIsSelfIff(vs[1..]);
      assert vs == [vs[0]] + vs[1..];
      assert PaddedAll(vs)[0] == Padded(vs[0]) && PaddedAll(vs)[1..] == PaddedAll(vs[1..]);
    }
  }

  // -------------------------------------------------------------- round trip

  /** A string round-trips, whatever follows it, exactly when it contains no NUL. */
  lemma StrRoundTripIff(s: seq<byte>, rest: seq<byte>)
    ensures Decode(TStr, EncodeStr(s) + rest) == Some(Str(UpToNul(s)))
    ensures UpToNul(s) == s <==> 0 !in s
  {
    var buf := EncodeStr(s) + rest;
    var short := buf[..|buf| - 1];
    var n := |UpToNul(s)|;
    assert buf[..n] == UpToNul(s);
    if n < |short| {
      assert short[..n] == UpToNul(s);
      UpToNulIs(short, n);
    } else {
      assert short == UpToNul(s);
      UpToNulWhole(short);
    }
  }

  lemma {:induction false} UpToNulWhole(s: seq<byte>)
    requires 0 !in s
    ensures UpToNul(s) == s
  {
    if s != [] { UpToNulWhole(s[1..]); }
  }

  lemma AppendAssoc(a: seq<byte>, b: seq<byte>, c: seq<byte>)
    ensures a + b + c == a + (b + c)
  {
  }

  /** A buffer that starts with a length gives the length and what follows it. */
  lemma LengthFirst(n: u64, body: seq<byte>, rest: seq<byte>)
    ensures var buf := LeBytes(n, 8) + body + rest;
      8 <= |buf| && LeValue(buf[..8]) == n && buf[8..] == body + rest
  {
    U64RoundTrip(n, body + rest);
    assert LeBytes(n, 8) + body + rest == LeBytes(n, 8) + (body + rest);
  }

  lemma PaddedCases(v: Value)
    ensures v.Scalar? || v.Str? ==> Padded(v) == v
    ensures v.Pair? ==> Padded(v) == Pair(Padded(v.first), Padded(v.second))
    ensures v.Tuple? ==> Padded(v) == Tuple(PaddedAll(v.vs))
    ensures v.Range? ==> Padded(v) == Range(PaddedAll(v.elems))
    ensures v.Bits? ==> Padded(v) == Bits(Pad(v.bits))
    ensures v.Str? && NulFree(v) ==> UpToNul(v.s) == v.s
  {
    if v.Str? && NulFree(v) { UpToNulWhole(v.s); }
  }

  /**
   Round trip with anything behind it: decoding an encoding gives the value with its
   bit vectors padded, and stops exactly where the encoding stops.
   */
  lemma {:induction false} RoundTrip(v: Value, t: Ty, rest: seq<byte>)
    requires HasType(v, t) && NulFree(v)
    ensures Decode(t, Encode(v) + rest) == Some(Padded(v))
    decreases v, 0
  {
    hide LeBytes, LeValue, EncodeWords, DecodeWords, EncodeStr, Padded, Pad, DecodeOne, DecodeAll, DecodeN, EncodeAll;
    PaddedCases(v);
    match (v, t)
    case (Scalar(b), TScalar(n)) =>
      assert (b + rest)[..n] == b;
    case (Str(s), TStr) =>
      StrRoundTripIff(s, rest);
    case (Pair(a, b), TPair(ta, tb)) =>
      RoundTripOne(a, ta, Encode(b) + rest);
      RoundTripOne(b, tb, rest);
      AppendAssoc(Encode(a), Encode(b), rest);
    case (Tuple(vs), TTuple(ts)) =>
      RoundTripAll(vs, ts, rest);
    case (Range(vs), TRange(e)) =>
      RoundTripN(vs, e, rest);
      LengthFirst(|vs|, EncodeAll(vs), rest);
    case (Bits(bs), TBits) =>
      WordsRoundTrip(bs, rest);
      LengthFirst(PaddedLength(|bs|), EncodeWords(bs), rest);
  }

  lemma {:induction false} RoundTripOne(v: Value, t: Ty, rest: seq<byte>)
    requires HasType(v, t) && NulFree(v)
    ensures DecodeOne(t, Encode(v) + rest) == Some((Padded(v), rest))
    decreases v, 1
  {
    RoundTrip(v, t, rest);
    PaddedEncodesSame(v);
    assert (Encode(v) + rest)[Size(v)..] == rest;
  }

  lemma {:induction false} RoundTripAll(vs: seq<Value>, ts: seq<Ty>, rest: seq<byte>)
    requires |vs| == |ts| && (forall i :: 0 <= i < |vs| ==> HasType(vs[i], ts[i])) && NulFreeAll(vs)
    ensures DecodeAll(ts, EncodeAll(vs) + rest) == Some((PaddedAll(vs), rest))
    decreases vs, 0
  {
    hide HasType, NulFree, Encode, Padded, DecodeOne, Size;
    if vs == [] {
      assert EncodeAll(vs) + rest == rest;
    } else {
      RoundTripOne(vs[0], ts[0], EncodeAll(vs[1..]) + rest);
      RoundTripAll(vs[1..], ts[1..], rest);
      assert EncodeAll(vs) + rest == Encode(vs[0]) + (EncodeAll(vs[1..]) + rest);
    }
  }

  lemma {:induction false} RoundTripN(vs: seq<Value>, t: Ty, rest: seq<byte>)
    requires (forall i :: 0 <= i < |vs| ==> HasType(vs[i], t)) && NulFreeAll(vs)
    ensures DecodeN(t, |vs|, EncodeAll(vs) + rest) == Some((PaddedAll(vs), rest))
    decreases vs, 0
  {
    hide HasType, NulFree, Encode, Padded, DecodeOne, Size;
    if vs == [] {
      assert EncodeAll(vs) + rest == rest;
    } else {
      RoundTripOne(vs[0], t, EncodeAll(vs[1..]) + rest);
      RoundTripN(vs[1..], t, rest);
      assert EncodeAll(vs) + rest == Encode(vs[0]) + (EncodeAll(vs[1..]) + rest);
    }
  }

  // ---------------------------------------------------- exactness, both ways

  /** A NUL anywhere in the value keeps it from coming back. */
  lemma {:induction false} NulIsLost(v: Value, t: Ty, rest: seq<byte>)
    requires HasType(v, t) && !NulFree(v)
    ensures Decode(t, Encode(v) + rest) != Some(v)
    decreases v, 0
  {
    hide LeBytes, LeValue, EncodeWords, DecodeWords, EncodeStr, Padded, DecodeOne, DecodeAll, DecodeN, EncodeAll;
    match (v, t)
    case (Str(s), TStr) =>
      StrRoundTripIff(s, rest);
    case (Pair(a, b), TPair(ta, tb)) =>
      AppendAssoc(Encode(a), Encode(b), rest);
      if NulFree(a) {
        RoundTripOne(a, ta, Encode(b) + rest);
        NulIsLostOne(b, tb, rest);
      } else {
        NulIsLostOne(a, ta, Encode(b) + rest);
      }
    case (Tuple(vs), TTuple(ts)) =>
      NulIsLostAll(vs, ts, rest);
    case (Range(vs), TRange(e)) =>
      NulIsLostN(vs, e, rest);
      LengthFirst(|vs|, EncodeAll(vs), rest);
  }

  ghost predicate Gives<T>(r: Option<(T, seq<byte>)>, x: T) {
    r.Some? && r.value.0 == x
  }

  lemma {:induction false} NulIsLostOne(v: Value, t: Ty, rest: seq<byte>)
    requires HasType(v, t) && !NulFree(v)
    ensures !Gives(DecodeOne(t, Encode(v) + rest), v)
    decreases v, 1
  {
    NulIsLost(v, t, rest);
  }

  lemma {:induction false} NulIsLostAll(vs: seq<Value>, ts: seq<Ty>, rest: seq<byte>)
    requires |vs| == |ts| && (forall i :: 0 <= i < |vs| ==> HasType(vs[i], ts[i])) && !NulFreeAll(vs)
    ensures !Gives(DecodeAll(ts, EncodeAll(vs) + rest), vs)
    decreases vs, 0
  {
    hide HasType, NulFree, Encode, Padded, DecodeOne, Size;
    AppendAssoc(Encode(vs[0]), EncodeAll(vs[1..]), rest);
    if NulFree(vs[0]) {
      RoundTripOne(vs[0], ts[0], EncodeAll(vs[1..]) + rest);
      NulIsLostAll(vs[1..], ts[1..], rest);
    } else {
      NulIsLostOne(vs[0], ts[0], EncodeAll(vs[1..]) + rest);
    }
    assert vs == [vs[0]] + vs[1..];
  }

  lemma {:induction false} NulIsLostN(vs: seq<Value>, t: Ty, rest: seq<byte>)
    requires (forall i :: 0 <= i < |vs| ==> HasType(vs[i], t)) && !NulFreeAll(vs)
    ensures !Gives(DecodeN(t, |vs|, EncodeAll(vs) + rest), vs)
    decreases vs, 0
  {
    hide HasType, NulFree, Encode, Padded, DecodeOne, Size;
    AppendAssoc(Encode(vs[0]), EncodeAll(vs[1..]), rest);
    if NulFree(vs[0]) {
      RoundTripOne(vs[0], t, EncodeAll(vs[1..]) + rest);
      NulIsLostN(vs[1..], t, rest);
    } else {
      NulIsLostOne(vs[0], t, EncodeAll(vs[1..]) + rest);
    }
    assert vs == [vs[0]] + vs[1..];
  }

  /** A value that storage returns as it was given. */
  predicate Storable(v: Value) {
    NulFree(v) && WholeWords(v)
  }

  /**
   A value comes back as it was, whatever follows it, if and only if no string in it has
   a NUL and no bit vector a partial word.
   */
  lemma RoundTripExactIff(v: Value, t: Ty, rest: seq<byte>)
    requires HasType(v, t)
    ensures Decode(t, Encode(v) + rest) == Some(v) <==> Storable(v)
  {
    hide NulFree, WholeWords, Padded, Encode, HasType;
    PaddedIsSelfIff(v);
    if NulFree(v) {
      RoundTrip(v, t, rest);
    } else {
      NulIsLost(v, t, rest);
    }
  }

  /** The string "a", NUL, "b" comes back as "a"; a vector of one bit comes back with 64. */
  lemma LossyExamples()
    ensures Decode(TStr, Encode(Str([97, 0, 98]))) == Some(Str([97]))
    ensures Decode(TBits, Encode(Bits([true]))) == Some(Bits([true] + seq(63, _ => false)))
  {
    var s: seq<byte>, bits: seq<bool> := [97, 0, 98], [true];
    assert UpToNul(s) == [97] by { assert UpToNul(s[1..]) == []; }
    StrAlone(s);
    BitsAlone(bits);
    assert Pad(bits) == [true] + seq(63, _ => false);
  }

  lemma StrAlone(s: seq<byte>)
    ensures Decode(TStr, Encode(Str(s))) == Some(Str(UpToNul(s)))
  {
    StrRoundTripIff(s, []);
    assert EncodeStr(s) + [] == EncodeStr(s);
  }

  lemma BitsAlone(bits: seq<bool>)
    requires PaddedLength(|bits|) < U64_LIMIT
    ensures Decode(TBits, Encode(Bits(bits))) == Some(Bits(Pad(bits)))
  {
    hide Decode, Encode;
    RoundTrip(Bits(bits), TBits, []);
    assert Encode(Bits(bits)) + [] == Encode(Bits(bits));
  }
}

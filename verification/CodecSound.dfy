/**
 What decoding accepts: a buffer is decoded exactly when it starts with the encoding of
 a value of the type, so whatever is truncated or malformed is rejected. Strings are left
 aside here: the last byte of theirs is taken for a NUL whatever it is.
 */
module CodecSound {
  import opened Machine
  import opened Codec

  predicate StrFree(t: Ty)
    decreases t
  {
    match t
    case TStr => false
    case TPair(a, b) => StrFree(a) && StrFree(b)
    case TTuple(ts) => forall i :: 0 <= i < |ts| ==> StrFree(ts[i])
    case TRange(e) => StrFree(e)
    case _ => true
  }

  /** `buf` starts with the encoding of `v`; with strings in it, it is at least long enough. */
  ghost predicate StartsWith(buf: seq<byte>, t: Ty, v: Value) {
    HasType(v, t) && Size(v) <= |buf| && (StrFree(t) ==> Encode(v) == buf[..Size(v)])
  }

  ghost predicate StartsWithAll(buf: seq<byte>, ts: seq<Ty>, vs: seq<Value>, rest: seq<byte>) {
    && |vs| == |ts| && (forall i :: 0 <= i < |vs| ==> HasType(vs[i], ts[i]))
    && SizeAll(vs) <= |buf| && rest == buf[SizeAll(vs)..]
    && ((forall i :: 0 <= i < |ts| ==> StrFree(ts[i])) ==> EncodeAll(vs) == buf[..SizeAll(vs)])
  }

  ghost predicate StartsWithN(buf: seq<byte>, t: Ty, n: nat, vs: seq<Value>, rest: seq<byte>) {
    && |vs| == n && (forall i :: 0 <= i < n ==> HasType(vs[i], t))
    && SizeAll(vs) <= |buf| && rest == buf[SizeAll(vs)..]
    && (StrFree(t) ==> EncodeAll(vs) == buf[..SizeAll(vs)])
  }

  // ------------------------------------------------------------ numbers, words

  lemma LowByte(a: byte, x: nat)
    ensures (a + 256 * x) % 256 == a && (a + 256 * x) / 256 == x
  {
  }

  lemma Pow256Step(n: nat)
    ensures Pow(256, n + 1) == 256 * Pow(256, n)
  {
  }

  lemma {:induction false} LeValueBound(b: seq<byte>)
    ensures LeValue(b) < Pow(256, |b|)
  {
    hide Pow;
    if b == [] {
      assert Pow(256, 0) == 1 by { PowNone(); }
    } else {
      LeValueBound(b[1..]);
      Pow256Step(|b| - 1);
    }
  }

  lemma PowNone()
    ensures Pow(256, 0) == 1
  {
  }

  lemma {:induction false} LeBytesOfValue(b: seq<byte>)
    ensures LeBytes(LeValue(b), |b|) == b
  {
    if b != [] {
      LeBytesOfValue(b[1..]);
      LowByte(b[0], LeValue(b[1..]));
    }
  }

  lemma LeValueInverse(b: seq<byte>)
    ensures LeValue(b) < Pow(256, |b|) && LeBytes(LeValue(b), |b|) == b
  {
    LeValueBound(b);
    LeBytesOfValue(b);
  }

  lemma {:induction false} PackUnpack(x: nat, n: nat)
    requires x < Pow(2, n)
    ensures Pack(Unpack(x, n)) == x
  {
    if n != 0 {
      PackUnpack(x / 2, n - 1);
      assert Unpack(x, n)[1..] == Unpack(x / 2, n - 1);
    }
  }

  lemma WordInverse(b: seq<byte>)
    requires |b| == 8
    ensures LeBytes(Pack(Unpack(LeValue(b), WORD)), 8) == b && LeValue(b) < U64_LIMIT
  {
    LeValueInverse(b);
    Pow256Is64Bits();
    Pow2Is64Bits();
    PackUnpack(LeValue(b), WORD);
  }

  lemma {:induction false} WordsSound(n: nat, buf: seq<byte>)
    ensures DecodeWords(n, buf).Some? ==>
              var bs := DecodeWords(n, buf).value;
              && |bs| == n && PaddedLength(n) == n && 8 * WordsOf(n) <= |buf|
              && EncodeWords(bs) == buf[..8 * WordsOf(n)]
    decreases n
  {
    if n >= WORD && |buf| >= 8 {
      WordsSound(n - WORD, buf[8..]);
      if DecodeWords(n - WORD, buf[8..]).Some? {
        FirstWordSound(n, buf, DecodeWords(n - WORD, buf[8..]).value);
      }
    }
  }

  lemma OneWordMore(n: nat)
    requires WORD <= n
    ensures WordsOf(n) == 1 + WordsOf(n - WORD) && PaddedLength(n) == WORD + PaddedLength(n - WORD)
  {
  }

  lemma FirstWordSound(n: nat, buf: seq<byte>, rest: seq<bool>)
    requires WORD <= n && 8 <= |buf| && |rest| == n - WORD && PaddedLength(n - WORD) == n - WORD
    requires 8 * WordsOf(n - WORD) <= |buf| - 8 && EncodeWords(rest) == buf[8..][..8 * WordsOf(n - WORD)]
    ensures PaddedLength(n) == n && 8 * WordsOf(n) <= |buf|
    ensures EncodeWords(Unpack(LeValue(buf[..8]), WORD) + rest) == buf[..8 * WordsOf(n)]
  {
    hide LeBytes, LeValue, Pack, Unpack, WordsOf, PaddedLength;
    var word := Unpack(LeValue(buf[..8]), WORD);
    WordInverse(buf[..8]);
    OneWordMore(n);
    assert FirstWord(word + rest) == word && LaterWords(word + rest) == rest;
    assert buf[..8] + buf[8..][..8 * WordsOf(n - WORD)] == buf[..8 * WordsOf(n)];
  }

  // ------------------------------------------------------------------- values

  lemma {:induction false} DecodeSound(t: Ty, buf: seq<byte>)
    ensures Decode(t, buf).Some? ==> StartsWith(buf, t, Decode(t, buf).value)
    decreases t, 0, 0
  {
    hide DecodeOne, DecodeAll, DecodeN, DecodeWords, StartsWith, StartsWithAll, StartsWithN;
    match t
    case TScalar(n) => ScalarSound(n, buf);
    case TStr => StrSound(buf);
    case TPair(ta, tb) =>
      OneSound(ta, buf);
      if DecodeOne(ta, buf).Some? {
        var (a, rest) := DecodeOne(ta, buf).value;
        OneSound(tb, rest);
        if DecodeOne(tb, rest).Some? {
          PairSound(ta, tb, a, DecodeOne(tb, rest).value.0, buf, rest);
        }
      }
    case TTuple(ts) =>
      AllSound(ts, buf);
      if DecodeAll(ts, buf).Some? {
        TupleSound(ts, DecodeAll(ts, buf).value.0, buf, DecodeAll(ts, buf).value.1);
      }
    case TRange(e) =>
      if 8 <= |buf| {
        var n := LeValue(buf[..8]);
        NSound(e, n, buf[8..]);
        if DecodeN(e, n, buf[8..]).Some? {
          RangeSound(e, DecodeN(e, n, buf[8..]).value.0, buf, DecodeN(e, n, buf[8..]).value.1);
        }
      }
    case TBits =>
      if 8 <= |buf| { BitsSound(buf); }
  }

  lemma ScalarSound(n: nat, buf: seq<byte>)
    ensures n <= |buf| ==> StartsWith(buf, TScalar(n), Scalar(buf[..n]))
  {
  }

  lemma StrSound(buf: seq<byte>)
    ensures buf != [] ==> StartsWith(buf, TStr, Str(UpToNul(buf[..|buf| - 1])))
  {
  }

  lemma {:induction false} OneSound(t: Ty, buf: seq<byte>)
    ensures DecodeOne(t, buf).Some? ==>
              var (v, rest) := DecodeOne(t, buf).value;
              StartsWith(buf, t, v) && Size(v) <= |buf| && rest == buf[Size(v)..]
    decreases t, 1, 0
  {
    hide Decode, StartsWith;
    DecodeSound(t, buf);
  }

  lemma PairSound(ta: Ty, tb: Ty, a: Value, b: Value, buf: seq<byte>, rest: seq<byte>)
    requires StartsWith(buf, ta, a) && Size(a) <= |buf| && rest == buf[Size(a)..] && StartsWith(rest, tb, b)
    ensures StartsWith(buf, TPair(ta, tb), Pair(a, b))
  {
    PairParts(ta, tb, a, b);
    hide HasType, Encode, Size, StrFree;
    assert buf[..Size(a)] + buf[Size(a)..][..Size(b)] == buf[..Size(a) + Size(b)];
  }

  lemma PairParts(ta: Ty, tb: Ty, a: Value, b: Value)
    ensures HasType(Pair(a, b), TPair(ta, tb)) <==> HasType(a, ta) && HasType(b, tb)
    ensures Encode(Pair(a, b)) == Encode(a) + Encode(b) && Size(Pair(a, b)) == Size(a) + Size(b)
    ensures StrFree(TPair(ta, tb)) <==> StrFree(ta) && StrFree(tb)
  {
  }

  lemma {:induction false} AllSound(ts: seq<Ty>, buf: seq<byte>)
    ensures DecodeAll(ts, buf).Some? ==>
              StartsWithAll(buf, ts, DecodeAll(ts, buf).value.0, DecodeAll(ts, buf).value.1)
    decreases ts, 0, 0
  {
    hide DecodeOne, StartsWith;
    if ts == [] {
      NoneSound(buf);
    } else {
      OneSound(ts[0], buf);
      if DecodeOne(ts[0], buf).Some? {
        var (v, rest) := DecodeOne(ts[0], buf).value;
        AllSound(ts[1..], rest);
        if DecodeAll(ts[1..], rest).Some? {
          hide StartsWithAll;
          ConsSound(ts, v, DecodeAll(ts[1..], rest).value.0, buf, rest, DecodeAll(ts[1..], rest).value.1);
        }
      }
    }
  }

  lemma NoneSound(buf: seq<byte>)
    ensures StartsWithAll(buf, [], [], buf)
  {
  }

  lemma ConsSound(ts: seq<Ty>, v: Value, vs: seq<Value>, buf: seq<byte>, rest: seq<byte>, after: seq<byte>)
    requires ts != [] && StartsWith(buf, ts[0], v) && Size(v) <= |buf| && rest == buf[Size(v)..]
    requires StartsWithAll(rest, ts[1..], vs, after)
    ensures StartsWithAll(buf, ts, [v] + vs, after)
  {
    hide HasType, Encode, Size, StrFree;
    FirstAndRest(v, vs, buf);
    var all := [v] + vs;
    forall i | 0 <= i < |all| ensures HasType(all[i], ts[i]) {
      if i > 0 { assert all[i] == vs[i - 1] && ts[i] == ts[1..][i - 1]; }
    }
    if forall i :: 0 <= i < |ts| ==> StrFree(ts[i]) {
      forall i | 0 <= i < |ts[1..]| ensures StrFree(ts[1..][i]) { assert ts[1..][i] == ts[i + 1]; }
    }
  }

  /** The first value and the others, in bytes. */
  lemma FirstAndRest(v: Value, vs: seq<Value>, buf: seq<byte>)
    ensures EncodeAll([v] + vs) == Encode(v) + EncodeAll(vs) && SizeAll([v] + vs) == Size(v) + SizeAll(vs)
    ensures Size(v) <= |buf| && SizeAll(vs) <= |buf[Size(v)..]| ==>
              buf[..Size(v)] + buf[Size(v)..][..SizeAll(vs)] == buf[..Size(v) + SizeAll(vs)] &&
              buf[Size(v)..][SizeAll(vs)..] == buf[Size(v) + SizeAll(vs)..]
  {
    assert ([v] + vs)[1..] == vs;
  }

  lemma TupleSound(ts: seq<Ty>, vs: seq<Value>, buf: seq<byte>, rest: seq<byte>)
    requires StartsWithAll(buf, ts, vs, rest)
    ensures StartsWith(buf, TTuple(ts), Tuple(vs))
  {
  }

  lemma {:induction false} NSound(t: Ty, n: nat, buf: seq<byte>)
    ensures DecodeN(t, n, buf).Some? ==>
              StartsWithN(buf, t, n, DecodeN(t, n, buf).value.0, DecodeN(t, n, buf).value.1)
    decreases t, 2, n
  {
    hide DecodeOne, StartsWith;
    if n != 0 {
      OneSound(t, buf);
      if DecodeOne(t, buf).Some? {
        var (v, rest) := DecodeOne(t, buf).value;
        NSound(t, n - 1, rest);
        if DecodeN(t, n - 1, rest).Some? {
          hide StartsWithN;
          ConsNSound(t, n, v, DecodeN(t, n - 1, rest).value.0, buf, rest, DecodeN(t, n - 1, rest).value.1);
        }
      }
    }
  }

  lemma ConsNSound(t: Ty, n: nat, v: Value, vs: seq<Value>, buf: seq<byte>, rest: seq<byte>, after: seq<byte>)
    requires n != 0 && StartsWith(buf, t, v) && Size(v) <= |buf| && rest == buf[Size(v)..]
    requires StartsWithN(rest, t, n - 1, vs, after)
    ensures StartsWithN(buf, t, n, [v] + vs, after)
  {
    hide HasType, Encode, Size, StrFree;
    FirstAndRest(v, vs, buf);
    var all := [v] + vs;
    forall i | 0 <= i < |all| ensures HasType(all[i], t) {
      if i > 0 { assert all[i] == vs[i - 1]; }
    }
  }

  lemma RangeSound(e: Ty, vs: seq<Value>, buf: seq<byte>, rest: seq<byte>)
    requires 8 <= |buf| && StartsWithN(buf[8..], e, LeValue(buf[..8]), vs, rest)
    ensures StartsWith(buf, TRange(e), Range(vs))
  {
    hide LeBytes, LeValue;
    LeValueInverse(buf[..8]);
    Pow256Is64Bits();
    assert buf[..8] + buf[8..][..SizeAll(vs)] == buf[..8 + SizeAll(vs)];
  }

  lemma BitsSound(buf: seq<byte>)
    requires 8 <= |buf|
    ensures Decode(TBits, buf).Some? ==> StartsWith(buf, TBits, Decode(TBits, buf).value)
  {
    hide LeBytes, LeValue, EncodeWords, DecodeWords;
    var n := LeValue(buf[..8]);
    WordsSound(n, buf[8..]);
    LeValueInverse(buf[..8]);
    Pow256Is64Bits();
    if DecodeWords(n, buf[8..]).Some? {
      assert buf[..8] + buf[8..][..8 * WordsOf(n)] == buf[..8 + 8 * WordsOf(n)];
    }
  }

  // -------------------------------------------------------------------- exact

  lemma {:induction false} StrFreeNulFree(v: Value, t: Ty)
    requires HasType(v, t) && StrFree(t)
    ensures NulFree(v)
    decreases v, 0
  {
    match v
    case Pair(a, b) => StrFreeNulFree(a, t.fst); StrFreeNulFree(b, t.snd);
    case Tuple(vs) => AllNulFree(vs, t.ts);
    case Range(vs) => AllNulFree(vs, seq(|vs|, _ => t.elem));
    case _ =>
  }

  lemma {:induction false} AllNulFree(vs: seq<Value>, ts: seq<Ty>)
    requires |vs| == |ts| && forall i :: 0 <= i < |vs| ==> HasType(vs[i], ts[i]) && StrFree(ts[i])
    ensures NulFreeAll(vs)
    decreases vs, 0
  {
    if vs != [] {
      StrFreeNulFree(vs[0], ts[0]);
      AllNulFree(vs[1..], ts[1..]);
    }
  }

  /** A buffer is decoded if and only if it starts with the encoding of a value of the type. */
  lemma DecodesIff(t: Ty, buf: seq<byte>)
    requires StrFree(t)
    ensures Decode(t, buf).Some? <==> exists v :: StartsWith(buf, t, v)
  {
    hide Decode, Encode, HasType, StrFree;
    DecodeSound(t, buf);
    if v :| StartsWith(buf, t, v) {
      StrFreeNulFree(v, t);
      RoundTrip(v, t, buf[Size(v)..]);
      assert buf[..Size(v)] + buf[Size(v)..] == buf;
    }
  }
}

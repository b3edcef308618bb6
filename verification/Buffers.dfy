/**
 Serialization as the source performs it: values are written into a window of a
 buffer behind an advancing offset, and read back from a shrinking read-only one.
 */
module Buffers {
  import opened Machine
  import opened Codec
  import opened CodecOrder

  /** `b` with `d` written over it at `lo`. */
  function Splat(b: seq<byte>, lo: nat, d: seq<byte>): (r: seq<byte>)
    requires lo + |d| <= |b|
    ensures |r| == |b|
  {
    b[..lo] + d + b[lo + |d|..]
  }

  lemma SplatAt(b: seq<byte>, lo: nat, d: seq<byte>)
    requires lo + |d| <= |b|
    ensures forall i :: 0 <= i < |b| ==> Splat(b, lo, d)[i] == if lo <= i < lo + |d| then d[i - lo] else b[i]
  {
  }

  lemma SplatSplat(b: seq<byte>, lo: nat, d: seq<byte>, e: seq<byte>)
    requires lo + |d| + |e| <= |b|
    ensures Splat(Splat(b, lo, d), lo + |d|, e) == Splat(b, lo, d + e)
  {
  }

  lemma SplatNone(b: seq<byte>, lo: nat)
    requires lo <= |b|
    ensures Splat(b, lo, []) == b
  {
  }

  /** `memcpy`. */
  method CopyInto(buf: array<byte>, lo: nat, data: seq<byte>)
    requires lo + |data| <= buf.Length
    modifies buf
    ensures buf[..] == Splat(old(buf[..]), lo, data)
  {
    forall i | 0 <= i < |data| {
      buf[lo + i] := data[i];
    }
    assert forall i :: 0 <= i < buf.Length ==>
        buf[i] == if lo <= i < lo + |data| then data[i - lo] else old(buf[..])[i];
  }

  /** What `serializeImpl` writes into a window of `size` bytes: `strncpy` fills the window with zeros. */
  function Written(v: Value, size: nat): (d: seq<byte>)
    requires Size(v) <= size
    ensures |d| <= size && Size(v) <= |d| && d[..Size(v)] == Encode(v)
    ensures size == Size(v) ==> d == Encode(v)
  {
    match v
    case Str(s) =>
      var p := UpToNul(s);
      assert p + Zeros(size - |p|) == EncodeStr(s) + Zeros(size - |s| - 1);
      p + Zeros(size - |p|)
    case _ => Encode(v)
  }

  /** A string fills its window: behind its last byte there are zeros only. Any other value writes its own bytes. */
  lemma WrittenMeaning(v: Value, size: nat)
    requires Size(v) <= size
    ensures v.Str? ==> |Written(v, size)| == size
    ensures v.Str? ==> forall i :: 0 <= i < size ==>
              Written(v, size)[i] == if i < |UpToNul(v.s)| then v.s[i] else 0
    ensures !v.Str? ==> Written(v, size) == Encode(v)
  {
    hide Encode;
  }

  lemma {:induction false} EncodeAllSnoc(vs: seq<Value>, v: Value)
    ensures EncodeAll(vs + [v]) == EncodeAll(vs) + Encode(v)
    ensures SizeAll(vs + [v]) == SizeAll(vs) + Size(v)
    decreases |vs|
  {
    hide Encode, Size;
    if vs == [] {
      assert vs + [v] == [v] && [v][1..] == [];
      assert [] + Encode(v) == Encode(v) == Encode(v) + [];
    } else {
      EncodeAllSnoc(vs[1..], v);
      assert (vs + [v])[1..] == vs[1..] + [v];
      AppendAssoc(Encode(vs[0]), EncodeAll(vs[1..]), Encode(v));
    }
  }

  lemma NothingEncoded()
    ensures EncodeAll([]) == [] && SizeAll([]) == 0
  {
  }

  lemma {:induction false} SizeAllPrefix(vs: seq<Value>, i: nat)
    requires i <= |vs|
    ensures SizeAll(vs[..i]) <= SizeAll(vs)
    ensures i < |vs| ==> SizeAll(vs[..i]) + Size(vs[i]) <= SizeAll(vs)
  {
    if i == 0 {
      if vs != [] { assert SizeAll(vs) == Size(vs[0]) + SizeAll(vs[1..]); }
    } else {
      SizeAllPrefix(vs[1..], i - 1);
      assert vs[..i] == [vs[0]] + vs[1..][..i - 1];
    }
  }

  /** `serializeImpl` into the window [lo, lo + size) of `buf`. */
  method Serialize(v: Value, buf: array<byte>, lo: nat, size: nat) returns (r: Result)
    requires lo + size <= buf.Length
    modifies buf
    ensures r == if size < Size(v) then Thrown else Success
    ensures buf[..] == if size < Size(v) then old(buf[..]) else Splat(old(buf[..]), lo, Written(v, size))
    decreases v, 0
  {
    hide Splat, LeBytes, EncodeWords, UpToNul, EncodeStr;
    if size < Size(v) {
      return Thrown;
    }
    match v {
      case Scalar(b) =>
        CopyInto(buf, lo, b);
      case Str(s) =>
        CopyInto(buf, lo, UpToNul(s) + Zeros(size - |UpToNul(s)|));
      case Pair(a, b) =>
        var offset := SerializeOne(a, buf, lo, 0, size);
        offset := SerializeOne(b, buf, lo, offset, size);
        SplatSplat(old(buf[..]), lo, Encode(a), Encode(b));
      case Tuple(vs) =>
        SplatNone(buf[..], lo);
        var offset := SerializeElements(vs, buf, lo, 0, size);
      case Range(vs) =>
        CopyInto(buf, lo, LeBytes(|vs|, 8));
        var offset := SerializeElements(vs, buf, lo, 8, size);
        SplatSplat(old(buf[..]), lo, LeBytes(|vs|, 8), EncodeAll(vs));
      case Bits(bits) =>
        CopyInto(buf, lo, LeBytes(PaddedLength(|bits|), 8));
        SerializeWords(bits, buf, lo + 8);
        SplatSplat(old(buf[..]), lo, LeBytes(PaddedLength(|bits|), 8), EncodeWords(bits));
    }
    r := Success;
  }

  /** Takes the next `Size(v)` bytes of the window and serializes into exactly those. */
  method SerializeOne(v: Value, buf: array<byte>, lo: nat, offset: nat, room: nat) returns (next: nat)
    requires lo + room <= buf.Length && offset + Size(v) <= room
    modifies buf
    ensures next == offset + Size(v)
    ensures buf[..] == Splat(old(buf[..]), lo + offset, Encode(v))
    decreases v, 1
  {
    next := offset + Size(v);
    var r := Serialize(v, buf, lo + offset, Size(v));
  }

  /** The elements of a tuple or range, one behind the other. */
  method SerializeElements(vs: seq<Value>, buf: array<byte>, lo: nat, start: nat, room: nat) returns (offset: nat)
    requires lo + room <= buf.Length && start + SizeAll(vs) <= room
    modifies buf
    ensures offset == start + SizeAll(vs)
    ensures buf[..] == Splat(old(buf[..]), lo + start, EncodeAll(vs))
    decreases vs, 0
  {
    hide Splat;
    offset := start;
    SplatNone(buf[..], lo + start);
    for i := 0 to |vs|
      invariant SizeAll(vs[..i]) <= SizeAll(vs)
      invariant offset == start + SizeAll(vs[..i])
      invariant buf[..] == Splat(old(buf[..]), lo + start, EncodeAll(vs[..i]))
    {
      SizeAllPrefix(vs, i);
      SizeAllPrefix(vs, i + 1);
      EncodeAllSnoc(vs[..i], vs[i]);
      assert vs[..i + 1] == vs[..i] + [vs[i]];
      offset := SerializeOne(vs[i], buf, lo, offset, room);
      SplatSplat(old(buf[..]), lo + start, EncodeAll(vs[..i]), Encode(vs[i]));
    }
    assert vs[..|vs|] == vs;
  }

  /** The leading values that fit, one behind the other, into `room` bytes. */
  function Fitting(vs: seq<Value>, room: nat): seq<Value>
    decreases |vs|
  {
    if vs == [] || room < Size(vs[0]) then [] else [vs[0]] + Fitting(vs[1..], room - Size(vs[0]))
  }

  /** They are a prefix: all values if those fit, else as many as do. */
  lemma {:induction false} FittingMeaning(vs: seq<Value>, room: nat)
    ensures var n := |Fitting(vs, room)|;
      && n <= |vs| && Fitting(vs, room) == vs[..n] && SizeAll(vs[..n]) <= room
      && (n < |vs| ==> room < SizeAll(vs[..n]) + Size(vs[n]))
    ensures SizeAll(vs) <= room <==> Fitting(vs, room) == vs
    decreases |vs|
  {
    if vs != [] && Size(vs[0]) <= room {
      FittingMeaning(vs[1..], room - Size(vs[0]));
      var n := |Fitting(vs[1..], room - Size(vs[0]))|;
      assert vs[..n + 1] == [vs[0]] + vs[1..][..n];
      assert vs == [vs[0]] + vs[1..];
    }
  }

  /** `SerializeSequentially` with no check beforehand: what fits is written before the window runs out. */
  method SerializeSequentially(vs: seq<Value>, buf: array<byte>, lo: nat, size: nat) returns (r: Result)
    requires lo + size <= buf.Length
    modifies buf
    ensures r == if SizeAll(vs) <= size then Success else Thrown
    ensures SizeAll(Fitting(vs, size)) <= size
    ensures buf[..] == Splat(old(buf[..]), lo, EncodeAll(Fitting(vs, size)))
  {
    hide Splat, Fitting, Encode, Size, EncodeAll, SizeAll;
    var offset := 0;
    FittingMeaning(vs, size);
    NothingEncoded();
    assert vs[..0] == [];
    ghost var n := |Fitting(vs, size)|;
    SplatNone(buf[..], lo);
    for i := 0 to |vs|
      invariant i <= n && offset == SizeAll(vs[..i]) <= size
      invariant buf[..] == Splat(old(buf[..]), lo, EncodeAll(vs[..i]))
    {
      SizeAllPrefix(vs[..n], i);
      assert i < n ==> vs[..n][..i] == vs[..i];
      if size < offset + Size(vs[i]) {
        return Thrown;
      }
      EncodeAllSnoc(vs[..i], vs[i]);
      assert vs[..i + 1] == vs[..i] + [vs[i]];
      offset := SerializeOne(vs[i], buf, lo, offset, size);
      SplatSplat(old(buf[..]), lo, EncodeAll(vs[..i]), Encode(vs[i]));
    }
    assert vs[..|vs|] == vs;
    r := Success;
  }

  /** One word of at most 64 bits, the first bit lowest: `val |= 1 << j` for every bit that is set. */
  method PackWord(bits: seq<bool>) returns (val: nat)
    ensures val == Pack(bits)
  {
    val := 0;
    for j := 0 to |bits|
      invariant val == Pack(bits[..j])
    {
      PackSnoc(bits[..j], bits[j]);
      assert bits[..j + 1] == bits[..j] + [bits[j]];
      if bits[j] {
        val := val + Pow(2, j);
      }
    }
    assert bits[..|bits|] == bits;
  }

  function BitsFrom(bits: seq<bool>, i: nat): seq<bool> {
    if i < |bits| then bits[i..] else []
  }

  lemma WordsStep(bits: seq<bool>, i: nat)
    requires i < |bits|
    ensures EncodeWords(BitsFrom(bits, i)) ==
            LeBytes(Pack(FirstWord(bits[i..])), 8) + EncodeWords(BitsFrom(bits, i + WORD))
  {
    assert LaterWords(bits[i..]) == BitsFrom(bits, i + WORD);
  }

  /** Writes the bits word by word. */
  method SerializeWords(bits: seq<bool>, buf: array<byte>, lo: nat)
    requires lo + 8 * WordsOf(|bits|) <= buf.Length
    modifies buf
    ensures buf[..] == Splat(old(buf[..]), lo, EncodeWords(bits))
  {
    hide Splat, EncodeWords, LeBytes, Pack;
    SplatNone(buf[..], lo);
    ghost var done: seq<byte> := [];
    var i, offset := 0, lo;
    assert BitsFrom(bits, 0) == bits;
    while i < |bits|
      invariant offset == lo + |done|
      invariant EncodeWords(bits) == done + EncodeWords(BitsFrom(bits, i))
      invariant buf[..] == Splat(old(buf[..]), lo, done)
    {
      WordsStep(bits, i);
      var val := PackWord(if |bits| - i < WORD then bits[i..] else bits[i..i + WORD]);
      assert bits[i..][..] == bits[i..] && (WORD <= |bits| - i ==> bits[i..][..WORD] == bits[i..i + WORD]);
      ghost var word, later := LeBytes(val, 8), EncodeWords(BitsFrom(bits, i + WORD));
      AppendAssoc(done, word, later);
      CopyInto(buf, offset, LeBytes(val, 8));
      SplatSplat(old(buf[..]), lo, done, word);
      done, offset, i := done + word, offset + 8, i + WORD;
    }
    assert done + EncodeWords([]) == done;
  }

  // ----------------------------------------------------------- deserializing

  /** `getObj`: decodes from the front of a read-only buffer that shrinks as elements are taken off it. */
  method Deserialize(p: Order, t: Ty, buffer: seq<byte>) returns (r: Option<Value>)
    ensures r == DecodeIn(p, t, buffer)
    decreases t, 0
  {
    match t {
      case TScalar(n) =>
        r := if |buffer| < n then None else Some(Scalar(buffer[..n]));
      case TStr =>
        r := if buffer == [] then None else Some(Str(UpToNul(buffer[..|buffer| - 1])));
      case TPair(ta, tb) =>
        // The two calls come in the order in which the compiler evaluates arguments.
        if p.pairsFirst {
          var first := DeserializeOne(p, ta, buffer);
          if first.None? { return None; }
          var second := DeserializeOne(p, tb, first.value.1);
          r := if second.None? then None else Some(Pair(first.value.0, second.value.0));
        } else {
          var second := DeserializeOne(p, tb, buffer);
          if second.None? { return None; }
          var first := DeserializeOne(p, ta, second.value.1);
          r := if first.None? then None else Some(Pair(first.value.0, second.value.0));
        }
      case TTuple(ts) =>
        if p.tuplesFirst {
          r := DeserializeTuple(p, ts, buffer);
        } else {
          r := DeserializeTupleBack(p, ts, buffer);
        }
      case TRange(e) =>
        if |buffer| < 8 { return None; }
        r := DeserializeRange(p, e, LeValue(buffer[..8]), buffer[8..]);
      case TBits =>
        if |buffer| < 8 { return None; }
        var bits := DeserializeWords(LeValue(buffer[..8]), buffer[8..]);
        r := if bits.None? then None else Some(Bits(bits.value));
    }
  }

  method DeserializeOne(p: Order, t: Ty, buffer: seq<byte>) returns (r: Option<(Value, seq<byte>)>)
    ensures r == DecodeOneIn(p, t, buffer)
    decreases t, 1
  {
    var v := Deserialize(p, t, buffer);
    if v.None? || |buffer| < Size(v.value) {
      return None;
    }
    r := Some((v.value, buffer[Size(v.value)..]));
  }

  ghost function Prepend(vs: seq<Value>, r: Option<(seq<Value>, seq<byte>)>): Option<(seq<Value>, seq<byte>)> {
    match r
    case None => None
    case Some((ws, rest)) => Some((vs + ws, rest))
  }

  method DeserializeTuple(p: Order, ts: seq<Ty>, buffer: seq<byte>) returns (r: Option<Value>)
    ensures r == match DecodeAllIn(p, ts, buffer) case None => None case Some((vs, _)) => Some(Tuple(vs))
    decreases ts, 0
  {
    hide DecodeOneIn;
    var vs, buf := [], buffer;
    assert ts[0..] == ts;
    PrependNone(DecodeAllIn(p, ts, buffer));
    for i := 0 to |ts|
      invariant DecodeAllIn(p, ts, buffer) == Prepend(vs, DecodeAllIn(p, ts[i..], buf))
    {
      var one := DeserializeOne(p, ts[i], buf);
      if one.None? {
        return None;
      }
      assert ts[i..][0] == ts[i] && ts[i..][1..] == ts[i + 1..];
      PrependOne(vs, one.value.0, DecodeAllIn(p, ts[i + 1..], one.value.1));
      vs, buf := vs + [one.value.0], one.value.1;
    }
    assert vs + [] == vs;
    r := Some(Tuple(vs));
  }

  lemma PrependNone(r: Option<(seq<Value>, seq<byte>)>)
    ensures Prepend([], r) == r
  {
    if r.Some? {
      assert [] + r.value.0 == r.value.0;
    }
  }

  lemma PrependOne(vs: seq<Value>, v: Value, r: Option<(seq<Value>, seq<byte>)>)
    ensures Prepend(vs, Prepend([v], r)) == Prepend(vs + [v], r)
  {
    if r.Some? {
      assert vs + ([v] + r.value.0) == vs + [v] + r.value.0;
    }
  }

  ghost function Append(r: Option<(seq<Value>, seq<byte>)>, vs: seq<Value>): Option<(seq<Value>, seq<byte>)> {
    match r
    case None => None
    case Some((ws, rest)) => Some((ws + vs, rest))
  }

  /** Takes the last component from the front of the buffer; the tuple made of them is reversed afterwards. */
  method DeserializeTupleBack(p: Order, ts: seq<Ty>, buffer: seq<byte>) returns (r: Option<Value>)
    ensures r == match DecodeBackIn(p, ts, buffer) case None => None case Some((vs, _)) => Some(Tuple(vs))
    decreases ts, 0
  {
    hide DecodeOneIn;
    var vs, buf := [], buffer;
    assert ts[..|ts|] == ts;
    AppendNone(DecodeBackIn(p, ts, buffer));
    for i := |ts| downto 0
      invariant DecodeBackIn(p, ts, buffer) == Append(DecodeBackIn(p, ts[..i], buf), vs)
    {
      var one := DeserializeOne(p, ts[i], buf);
      assert ts[..i + 1][i] == ts[i] && ts[..i + 1][..i] == ts[..i];
      if one.None? {
        return None;
      }
      AppendOne(DecodeBackIn(p, ts[..i], one.value.1), one.value.0, vs);
      vs, buf := [one.value.0] + vs, one.value.1;
    }
    assert [] + vs == vs;
    r := Some(Tuple(vs));
  }

  lemma AppendNone(r: Option<(seq<Value>, seq<byte>)>)
    ensures Append(r, []) == r
  {
    if r.Some? {
      assert r.value.0 + [] == r.value.0;
    }
  }

  lemma AppendOne(r: Option<(seq<Value>, seq<byte>)>, v: Value, vs: seq<Value>)
    ensures Append(Append(r, [v]), vs) == Append(r, [v] + vs)
  {
    if r.Some? {
      assert r.value.0 + [v] + vs == r.value.0 + ([v] + vs);
    }
  }

  method DeserializeRange(p: Order, t: Ty, size: nat, buffer: seq<byte>) returns (r: Option<Value>)
    ensures r == match DecodeNIn(p, t, size, buffer) case None => None case Some((vs, _)) => Some(Range(vs))
    decreases t, 2
  {
    hide DecodeOneIn;
    var vs, buf := [], buffer;
    PrependNone(DecodeNIn(p, t, size, buffer));
    for i := 0 to size
      invariant DecodeNIn(p, t, size, buffer) == Prepend(vs, DecodeNIn(p, t, size - i, buf))
    {
      var one := DeserializeOne(p, t, buf);
      if one.None? {
        return None;
      }
      PrependOne(vs, one.value.0, DecodeNIn(p, t, size - i - 1, one.value.1));
      vs, buf := vs + [one.value.0], one.value.1;
    }
    assert vs + [] == vs;
    r := Some(Range(vs));
  }

  ghost function PrependBits(bs: seq<bool>, r: Option<seq<bool>>): Option<seq<bool>> {
    match r
    case None => None
    case Some(cs) => Some(bs + cs)
  }

  /** `size` bits, a word at a time. */
  method DeserializeWords(size: nat, buffer: seq<byte>) returns (r: Option<seq<bool>>)
    ensures r == DecodeWords(size, buffer)
  {
    var bits: seq<bool>, buf, left: nat := [], buffer, size;
    ghost var whole := DecodeWords(size, buffer);
    assert whole.Some? ==> [] + whole.value == whole.value;
    while left > 0
      invariant DecodeWords(size, buffer) == PrependBits(bits, DecodeWords(left, buf))
      decreases left
    {
      if left < WORD || |buf| < 8 {
        return None;
      }
      var word := Unpack(LeValue(buf[..8]), WORD);
      ghost var rest := DecodeWords(left - WORD, buf[8..]);
      if rest.Some? {
        assert bits + (word + rest.value) == bits + word + rest.value;
      }
      bits, buf, left := bits + word, buf[8..], left - WORD;
    }
    assert bits + [] == bits;
    r := Some(bits);
  }
}

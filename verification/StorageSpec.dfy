/**
 `SimpleStorage` of include/storage/SimpleStorage.hpp as a value: virtual memory
 over an array of bytes. `Mem` is what a client sees; the lemmas say what each
 operation does to it.
 */
module StorageSpec {
  import opened Machine
  import opened IntervalSpec
  import opened FreeList
  import opened Tiling
  import opened MappingSpec
  import opened Erasure
  import opened Addresses
  import opened Cells
  import opened Buffers

  const MAGIC: u64 := 0xFE2B0CC7

  /** sizeof(FileMetadata), with four bytes of padding behind the magic number. */
  const META_SIZE: u64 := 56

  /** The second address handed out in a new file; the header is mapped there, at offset 0. */
  const HEADER: u64 := 0x20_0000_0000

  /** The first address handed out in a new file; the stored mapping goes there. */
  const MAP_ADDR: u64 := 0x10_0000_0000

  const EXTRA_SPARE_SPACE: u64 := 1024

  datatype Addr = Addr(addr: u64, size: u64)

  datatype Meta = Meta(magic: u64, highBits: u64, vaOffset: u64, vaSize: u64, vaAddr: u64, staticAddr: Addr)

  datatype Store = Store(meta: Meta, vam: Vam, bytes: seq<byte>)

  /** Between operations, while the storage is open. */
  ghost predicate StoreOk(s: Store) {
    && VamOk(s.vam)
    && s.vam.maxOff <= |s.bytes| < UNMAPPED
    && s.meta.magic == MAGIC && s.meta.vaAddr == MAP_ADDR
    && 2 <= s.meta.highBits < CELLS
    && CellsOk(s.vam.ivs, s.meta.highBits)
    && HeaderMapped(s.vam.ivs)
    && SystemCells(s.vam.ivs)
  }

  ghost predicate HeaderMapped(m: Intervals<u64>) {
    HEADER in m && m[HEADER] == Interval(HEADER + META_SIZE - 1, 0)
  }

  /** Nothing is mapped where the stored mapping goes, and the header is alone in its cell. */
  ghost predicate SystemCells(m: Intervals<u64>) {
    && (forall k: u64 :: k in m && k / CELL == 1 ==> m[k].value == UNMAPPED)
    && (forall k: u64 :: k in m && k / CELL == 2 ==> k == HEADER)
  }

  /** The file has space for `size` more bytes: in a free block or at its end. */
  predicate Fits(s: Store, size: u64) {
    NewMax(s.vam, size) <= |s.bytes|
  }

  /** The same for a lookup, which takes space only at the first touch of an interval. */
  predicate FitsAt(s: Store, addr: u64, size: u64) {
    FirstTouchAt(s.vam, addr) ==> Fits(s, size)
  }

  /** The byte a client sees at virtual address `x`, if it has one. */
  ghost function Mem(s: Store, x: int): Option<byte> {
    match Translate(s.vam.ivs, x)
    case None => None
    case Some(o) => if 0 <= o < |s.bytes| then Some(s.bytes[o]) else None
  }

  /** [addr, addr + size) is in one client interval, which is mapped or starts there. */
  ghost predicate Addressable(s: Store, k: u64, addr: u64, size: u64) {
    && IsRange(addr, size) && Within(s.vam.ivs, k, addr, size) && 3 <= k / CELL
    && (s.vam.ivs[k].value != UNMAPPED || addr == k)
  }

  lemma SystemCellsKept(m: Intervals<u64>, n: Intervals<u64>, c: nat)
    requires HeaderMapped(m) && SystemCells(m) && SameOutside(m, n, c) && 3 <= c
    ensures HeaderMapped(n) && SystemCells(n)
  {
    assert HEADER / CELL == 2;
  }

  /** Every mapped interval but the header's lies behind it, inside the file. */
  lemma RunBehindHeader(v: Vam, k: u64)
    requires VamOk(v) && HeaderMapped(v.ivs) && k in v.ivs && v.ivs[k].value != UNMAPPED && k != HEADER
    ensures META_SIZE <= v.ivs[k].value
    ensures v.ivs[k].value + (v.ivs[k].end - k + 1) <= v.maxOff
  {
    var mp := Mapped(v.ivs);
    assert k in mp && HEADER in mp;
    assert Run(mp, HEADER) == Extent(0, META_SIZE);
    assert InFile(Run(mp, k), v.maxOff) && Apart(Run(mp, k), Run(mp, HEADER));
  }

  // ------------------------------------------------------------------- lookup

  lemma FirstTouchCells(m: Intervals<u64>, k: u64, size: u64, off: u64, last: nat)
    requires Disjoint(m) && CellsOk(m, last) && size != 0 && Within(m, k, k, size)
    ensures CellsOk(FirstTouch(m, k, size, off), last) && SameOutside(m, FirstTouch(m, k, size, off), k / CELL)
  {
    hide CellsOk, SameOutside, Replaced, SplitAfter, Disjoint;
    var n := Replaced(m, k, off);
    ReplacedConfined(m, k, off, last);
    ReplacedCovers(m, k, off, k);
    if size != SizeOf(k, m[k].end) {
      SplitAfterConfined(n, k, EndOffset(k, size), UNMAPPED, last);
      SameOutsideTrans(m, n, FirstTouch(m, k, size, off), k / CELL);
    }
  }

  /** What an answered lookup in a client cell keeps, and where it points. */
  ghost predicate LookupKept(s: Store, k: u64, addr: u64, size: u64, hit: Hit)
    requires k in s.vam.ivs
  {
    && StoreOk(s.(vam := hit.vam))
    && SameOutside(s.vam.ivs, hit.vam.ivs, k / CELL)
    && META_SIZE <= hit.offset && hit.offset + size <= hit.vam.maxOff
    && size <= hit.avail && (s.vam.ivs[k].end == addr + size - 1 ==> hit.avail == size)
  }

  lemma LookupKeepsStore(s: Store, k: u64, addr: u64, size: u64, readOnly: bool)
    requires StoreOk(s) && Addressable(s, k, addr, size) && FitsAt(s, addr, size)
    requires readOnly ==> s.vam.ivs[k].value != UNMAPPED
    ensures LookupOf(s.vam, addr, size, readOnly).Some?
    ensures LookupKept(s, k, addr, size, LookupOf(s.vam, addr, size, readOnly).value)
    ensures readOnly ==> LookupOf(s.vam, addr, size, readOnly).value.vam == s.vam
  {
    hide LookupKept, LookupOf;
    LookupFindsWithin(s.vam, k, addr, size);
    if s.vam.ivs[k].value == UNMAPPED {
      TouchKeepsStore(s, addr, size);
    } else {
      MappedKeepsStore(s, k, addr, size, readOnly);
    }
  }

  lemma MappedKeepsStore(s: Store, k: u64, addr: u64, size: u64, readOnly: bool)
    requires StoreOk(s) && Addressable(s, k, addr, size) && s.vam.ivs[k].value != UNMAPPED
    ensures LookupOf(s.vam, addr, size, readOnly).Some?
    ensures LookupOf(s.vam, addr, size, readOnly).value.vam == s.vam
    ensures LookupKept(s, k, addr, size, LookupOf(s.vam, addr, size, readOnly).value)
  {
    hide Disjoint, Tiled, AllocOffset, CellsOk, SystemCells;
    LookupFindsWithin(s.vam, k, addr, size);
    AvailFits(s, k, addr);
    RunBehindHeader(s.vam, k);
    MappedOffsetExact(s.vam, k, addr);
  }

  lemma TouchKeepsStore(s: Store, k: u64, size: u64)
    requires StoreOk(s) && Addressable(s, k, k, size) && Fits(s, size) && s.vam.ivs[k].value == UNMAPPED
    ensures LookupOf(s.vam, k, size, false).Some?
    ensures LookupKept(s, k, k, size, LookupOf(s.vam, k, size, false).value)
  {
    hide Disjoint, Tiled, AllocOffset, FirstTouch, CellsOk, SystemCells, SameOutside;
    LookupFindsWithin(s.vam, k, k, size);
    AvailFits(s, k, k);
    FirstTouchInStore(s, k, size);
  }

  lemma AvailFits(s: Store, k: u64, addr: u64)
    requires StoreOk(s) && k in s.vam.ivs && k <= addr <= s.vam.ivs[k].end
    ensures SizeOf(addr, s.vam.ivs[k].end) == s.vam.ivs[k].end - addr + 1
  {
    assert InCell(k, s.vam.ivs[k].end, k / CELL);
  }

  lemma FirstTouchInStore(s: Store, k: u64, size: u64)
    requires StoreOk(s) && Fits(s, size) && size != 0 && Within(s.vam.ivs, k, k, size)
    requires s.vam.ivs[k].value == UNMAPPED && 3 <= k / CELL
    ensures var (w, off) := AllocOffset(s.vam, k, size);
      var n := FirstTouch(s.vam.ivs, k, size, off);
      StoreOk(s.(vam := w.(ivs := n))) && SameOutside(s.vam.ivs, n, k / CELL) &&
      META_SIZE <= off && off + size <= w.maxOff
  {
    hide Disjoint, FirstTouch, Tiled, AllocOffset;
    var (w, off) := AllocOffset(s.vam, k, size);
    var n := FirstTouch(s.vam.ivs, k, size, off);
    FirstTouchKeepsTiling(s.vam, k, size, k);
    FirstTouchCells(s.vam.ivs, k, size, off, s.meta.highBits);
    SystemCellsKept(s.vam.ivs, n, k / CELL);
    var t := s.(vam := w.(ivs := n));
    assert k in Mapped(n) && n[k] == Interval(k + size - 1, off) && k != HEADER;
    RunBehindHeader(t.vam, k);
  }

  // -------------------------------------------------------------------- write

  /** `write`. A write that would run past the file is not answered either. */
  ghost function WriteOf(s: Store, addr: u64, size: u64, data: seq<byte>): (Store, Result) {
    match LookupOf(s.vam, addr, size, false)
    case None => (s, Thrown)
    case Some(hit) =>
      var t := s.(vam := hit.vam);
      if hit.avail < |data| || hit.offset == 0 || |s.bytes| < hit.offset + |data| then (t, Thrown)
      else (t.(bytes := Splat(s.bytes, hit.offset, data)), Success)
  }

  lemma TranslateInStore(s: Store, x: int)
    requires StoreOk(s) && Translate(s.vam.ivs, x).Some?
    ensures 0 <= Translate(s.vam.ivs, x).value < s.vam.maxOff
    ensures Mem(s, x) == Some(s.bytes[Translate(s.vam.ivs, x).value])
  {
    hide Tiled, Translate;
    TranslateInjective(s.vam.ivs, multiset(s.vam.free), s.vam.maxOff, x, x);
  }

  /** Writing over the run of one range of addresses changes what is seen there and nowhere else. */
  lemma SplatMem(s: Store, addr: u64, off: u64, data: seq<byte>, x: int)
    requires StoreOk(s) && off + |data| <= |s.bytes|
    requires forall y :: addr <= y < addr + |data| ==> Translate(s.vam.ivs, y) == Some(off + (y - addr))
    ensures var t := s.(bytes := Splat(s.bytes, off, data));
      Mem(t, x) == if addr <= x < addr + |data| then Some(data[x - addr]) else Mem(s, x)
  {
    hide StoreOk, Translate;
    SplatAt(s.bytes, off, data);
    if Translate(s.vam.ivs, x).Some? {
      TranslateInStore(s, x);
      var o := Translate(s.vam.ivs, x).value;
      if off <= o < off + |data| {
        var y := addr + (o - off);
        assert Translate(s.vam.ivs, y) == Some(o);
        SameByteSameAddress(s, x, y);
      }
    }
  }

  lemma SameByteSameAddress(s: Store, x: int, y: int)
    requires StoreOk(s) && Translate(s.vam.ivs, x).Some? && Translate(s.vam.ivs, x) == Translate(s.vam.ivs, y)
    ensures x == y
  {
    hide Tiled, Translate;
    TranslateInjective(s.vam.ivs, multiset(s.vam.free), s.vam.maxOff, x, y);
  }

  /**
   A write that fits its range is seen there, leaves the rest of the range mapped,
   and changes nothing else: no other address, no header byte.
   */
  lemma WriteWithin(s: Store, k: u64, addr: u64, size: u64, data: seq<byte>)
    requires StoreOk(s) && Addressable(s, k, addr, size) && FitsAt(s, addr, size) && |data| <= size
    ensures var (t, r) := WriteOf(s, addr, size, data);
      && r == Success && StoreOk(t) && t.meta == s.meta && |t.bytes| == |s.bytes|
      && SameOutside(s.vam.ivs, t.vam.ivs, k / CELL)
      && SameHeader(s.bytes, t.bytes)
    ensures forall x :: WriteSeen(s, WriteOf(s, addr, size, data).0, addr, size, data, x)
  {
    hide StoreOk, Translate, LookupOf, SameOutside, Mem, Within;
    LookupKeepsStore(s, k, addr, size, false);
    var hit := LookupOf(s.vam, addr, size, false).value;
    var u := s.(vam := hit.vam);
    FileBounds(s);
    FileBounds(u);
    var t := WriteOf(s, addr, size, data).0;
    StoreOkBytes(u, t.bytes);
    SplatAt(s.bytes, hit.offset, data);
    forall x ensures WriteSeen(s, t, addr, size, data, x) {
      WriteMem(s, k, addr, size, data, x);
    }
  }

  ghost predicate SameHeader(b: seq<byte>, c: seq<byte>) {
    |b| == |c| && forall i :: 0 <= i < META_SIZE && i < |b| ==> c[i] == b[i]
  }

  /** `writeb`: the window of the file a client may then fill. */
  ghost function WritebOf(s: Store, addr: u64, size: u64): (Store, Option<u64>) {
    match LookupOf(s.vam, addr, size, false)
    case None => (s, None)
    case Some(hit) =>
      var t := s.(vam := hit.vam);
      if hit.avail < size || hit.offset == 0 || |s.bytes| < hit.offset + size then (t, None)
      else (t, Some(hit.offset))
  }

  /** The same on any intervals and any range. */
  ghost function WritebAny(s: Store, addr: u64, size: u64): (Store, Option<u64>) {
    var (w, hit) := LookupAny(s.vam, addr, size, false);
    var t := s.(vam := w);
    match hit
    case None => (t, None)
    case Some((offset, avail)) =>
      if avail < size || offset == 0 || |s.bytes| < offset + size then (t, None) else (t, Some(offset))
  }

  lemma WritebAnyIs(s: Store, addr: u64, size: u64)
    requires Disjoint(s.vam.ivs) && (size == 0 || IsRange(addr, size))
    ensures WritebAny(s, addr, size) == WritebOf(s, addr, size)
  {
    hide LookupAny, LookupOf;
    LookupAnyIsLookup(s.vam, addr, size, false);
  }

  /** Filling the front of the window is writing to the range. */
  lemma WritebIsWrite(s: Store, k: u64, addr: u64, size: u64, data: seq<byte>)
    requires StoreOk(s) && Addressable(s, k, addr, size) && FitsAt(s, addr, size) && |data| <= size
    ensures var (t, off) := WritebOf(s, addr, size);
      && off.Some? && t.bytes == s.bytes && off.value + size <= |s.bytes|
      && WriteOf(s, addr, size, data) == (t.(bytes := Splat(s.bytes, off.value, data)), Success)
  {
    hide StoreOk, LookupOf, SameOutside, Within;
    LookupKeepsStore(s, k, addr, size, false);
    FileBounds(s.(vam := LookupOf(s.vam, addr, size, false).value.vam));
  }

  lemma FileBounds(s: Store)
    requires StoreOk(s)
    ensures META_SIZE <= s.vam.maxOff <= |s.bytes| < UNMAPPED
  {
    var mp := Mapped(s.vam.ivs);
    assert HEADER in mp && InFile(Run(mp, HEADER), s.vam.maxOff);
  }

  lemma StoreOkBytes(s: Store, bytes: seq<byte>)
    requires StoreOk(s) && |bytes| == |s.bytes|
    ensures StoreOk(s.(bytes := bytes))
  {
  }

  ghost predicate WriteSeen(s: Store, t: Store, addr: u64, size: u64, data: seq<byte>, x: int) {
    if addr <= x < addr + |data| then Mem(t, x) == Some(data[x - addr])
    else if addr <= x < addr + size && Mem(s, x).None? then Mem(t, x).Some?
    else Mem(t, x) == Mem(s, x)
  }

  lemma WriteMem(s: Store, k: u64, addr: u64, size: u64, data: seq<byte>, x: int)
    requires StoreOk(s) && Addressable(s, k, addr, size) && FitsAt(s, addr, size) && |data| <= size
    requires LookupOf(s.vam, addr, size, false).Some?
    requires var hit := LookupOf(s.vam, addr, size, false).value;
      StoreOk(s.(vam := hit.vam)) && hit.offset + |data| <= |s.bytes|
    ensures var hit := LookupOf(s.vam, addr, size, false).value;
      WriteSeen(s, s.(vam := hit.vam, bytes := Splat(s.bytes, hit.offset, data)), addr, size, data, x)
  {
    hide Translate, LookupOf, Tiled, Disjoint, CellsOk;
    var hit := LookupOf(s.vam, addr, size, false).value;
    var u := s.(vam := hit.vam);
    LookupFindsWithin(s.vam, k, addr, size);
    forall y | addr <= y < addr + size ensures Translate(u.vam.ivs, y) == Some(hit.offset + (y - addr)) {
      LookupTranslates(s.vam, addr, size, false, y);
    }
    SplatMem(u, addr, hit.offset, data, x);
    LookupMem(s, k, addr, size, x);
  }

  lemma LookupFindsWithin(v: Vam, k: u64, addr: u64, size: u64)
    requires Disjoint(v.ivs) && Within(v.ivs, k, addr, size) && size != 0
    ensures Find(v.ivs, addr) == Some(k)
  {
    FindMeaning(v.ivs, addr);
    assert Covers(v.ivs, k, addr);
  }

  /** A lookup gives bytes to addresses that had none and changes no byte that was there. */
  lemma LookupMem(s: Store, k: u64, addr: u64, size: u64, x: int)
    requires StoreOk(s) && Addressable(s, k, addr, size) && FitsAt(s, addr, size)
    requires LookupOf(s.vam, addr, size, false).Some?
    requires StoreOk(s.(vam := LookupOf(s.vam, addr, size, false).value.vam))
    ensures var u := s.(vam := LookupOf(s.vam, addr, size, false).value.vam);
      if addr <= x < addr + size then Mem(u, x).Some? && (Mem(s, x).Some? ==> Mem(u, x) == Mem(s, x))
      else Mem(u, x) == Mem(s, x)
  {
    hide Translate, LookupOf, Tiled, Disjoint, CellsOk;
    var u := s.(vam := LookupOf(s.vam, addr, size, false).value.vam);
    LookupFindsWithin(s.vam, k, addr, size);
    LookupStable(s.vam, addr, size, false, x);
    if addr <= x < addr + size {
      LookupTranslates(s.vam, addr, size, false, x);
      TranslateInStore(u, x);
      assert Covers(s.vam.ivs, k, x);
      TranslateIn(s.vam.ivs, k, x);
    }
  }

  /** A range inside one interval of a client cell. */
  ghost predicate ClientRange(s: Store, k: u64, addr: u64, size: u64) {
    IsRange(addr, size) && Within(s.vam.ivs, k, addr, size) && 3 <= k / CELL
  }

  /** Where what a lookup maps begins: a first touch maps from the start of its interval. */
  ghost function TouchStart(s: Store, k: u64, addr: u64): u64
    requires k in s.vam.ivs
  {
    if s.vam.ivs[k].value != UNMAPPED then addr else k
  }

  /** How many bytes from `addr` on are mapped after the lookup; none, if negative. */
  ghost function Reach(s: Store, k: u64, addr: u64, size: u64): int
    requires k in s.vam.ivs
  {
    if s.vam.ivs[k].value != UNMAPPED then s.vam.ivs[k].end - addr + 1 else k + size - addr
  }

  /** `data` is seen at `addr`; of what is mapped from `lo` on, all is seen, and nothing else has changed. */
  ghost predicate TouchSeen(s: Store, t: Store, lo: u64, size: u64, addr: u64, data: seq<byte>, x: int) {
    if addr <= x < addr + |data| then Mem(t, x) == Some(data[x - addr])
    else if lo <= x < lo + size && Mem(s, x).None? then Mem(t, x).Some?
    else Mem(t, x) == Mem(s, x)
  }

  /**
   A write anywhere in an interval of a client cell, of any length. The storage stays
   sound. The bytes are accepted only if they fit the interval as it was before the
   write; an accepted write is seen, with nothing else changed, if and only if it stays
   within what is mapped after it.
   */
  lemma WriteMeaning(s: Store, k: u64, addr: u64, size: u64, data: seq<byte>)
    requires StoreOk(s) && ClientRange(s, k, addr, size) && FitsAt(s, addr, size)
    ensures var (t, r) := WriteOf(s, addr, size, data);
      && StoreOk(t) && t.meta == s.meta && |t.bytes| == |s.bytes|
      && SameOutside(s.vam.ivs, t.vam.ivs, k / CELL)
      && (|data| <= Reach(s, k, addr, size) ==> r == Success && SameHeader(s.bytes, t.bytes))
      && (r == Success ==> |data| <= s.vam.ivs[k].end - addr + 1)
      && (r != Success ==> r == Thrown && t.bytes == s.bytes)
    ensures WriteOf(s, addr, size, data).1 == Success && data != [] ==>
              (Seen(WriteOf(s, addr, size, data).0, addr, data) <==> |data| <= Reach(s, k, addr, size))
    ensures |data| <= Reach(s, k, addr, size) ==>
              forall x :: TouchSeen(s, WriteOf(s, addr, size, data).0, TouchStart(s, k, addr), size, addr, data, x)
  {
    hide StoreOk, WriteOf, Mem, SameOutside, Seen;
    if s.vam.ivs[k].value != UNMAPPED {
      WriteMapped(s, k, addr, size, data);
    } else {
      WriteTouching(s, k, addr, size, data);
    }
    if WriteOf(s, addr, size, data).1 == Success && data != [] && |data| > Reach(s, k, addr, size) {
      StrayNotSeen(s, k, addr, size, data);
    }
    if |data| <= Reach(s, k, addr, size) {
      SeenByTouch(s, WriteOf(s, addr, size, data).0, TouchStart(s, k, addr), size, addr, data);
    }
  }

  lemma SeenByTouch(s: Store, t: Store, lo: u64, size: u64, addr: u64, data: seq<byte>)
    requires forall x :: TouchSeen(s, t, lo, size, addr, data, x)
    ensures Seen(t, addr, data)
  {
    hide Mem;
    forall i | 0 <= i < |data| ensures Mem(t, addr + i) == Some(data[i]) {
      assert TouchSeen(s, t, lo, size, addr, data, addr + i);
    }
  }

  // ------------------------------------------------ writes to a mapped interval

  lemma WriteMapped(s: Store, k: u64, addr: u64, size: u64, data: seq<byte>)
    requires StoreOk(s) && ClientRange(s, k, addr, size) && s.vam.ivs[k].value != UNMAPPED
    ensures var (t, r) := WriteOf(s, addr, size, data);
      && StoreOk(t) && t.meta == s.meta && |t.bytes| == |s.bytes| && SameHeader(s.bytes, t.bytes)
      && SameOutside(s.vam.ivs, t.vam.ivs, k / CELL)
      && (r == Success <==> |data| <= Reach(s, k, addr, size))
      && (r != Success ==> r == Thrown && t.bytes == s.bytes)
    ensures |data| <= Reach(s, k, addr, size) ==>
              forall x :: TouchSeen(s, WriteOf(s, addr, size, data).0, addr, size, addr, data, x)
  {
    hide StoreOk, WriteOf, Mem, SameOutside;
    MappedFits(s, k, addr, size);
    WriteOutcome(s, k, addr, size, data);
    if |data| <= Reach(s, k, addr, size) {
      WriteReaches(s, k, addr, size, data);
      var t := WriteOf(s, addr, size, data).0;
      forall x ensures TouchSeen(s, t, addr, size, addr, data, x) {
        assert WriteSeen(s, t, addr, size, data, x);
      }
    }
  }

  lemma MappedFits(s: Store, k: u64, addr: u64, size: u64)
    requires StoreOk(s) && ClientRange(s, k, addr, size) && s.vam.ivs[k].value != UNMAPPED
    ensures FitsAt(s, addr, size)
  {
    hide Tiled, Disjoint, CellsOk, SystemCells;
    LookupFindsWithin(s.vam, k, addr, size);
  }

  /** What holds after any write, seen or not. */
  lemma WriteOutcome(s: Store, k: u64, addr: u64, size: u64, data: seq<byte>)
    requires StoreOk(s) && Addressable(s, k, addr, size) && FitsAt(s, addr, size)
    ensures var (t, r) := WriteOf(s, addr, size, data);
      && StoreOk(t) && t.meta == s.meta && SameHeader(s.bytes, t.bytes)
      && SameOutside(s.vam.ivs, t.vam.ivs, k / CELL)
      && (r == Success ==> |data| <= s.vam.ivs[k].end - addr + 1)
      && (r != Success ==> r == Thrown && t.bytes == s.bytes)
  {
    hide StoreOk, LookupOf, SameOutside, Within;
    LookupKeepsStore(s, k, addr, size, false);
    LookupAvail(s, k, addr, size);
    var hit := LookupOf(s.vam, addr, size, false).value;
    var (t, r) := WriteOf(s, addr, size, data);
    if r == Success { SplatAt(s.bytes, hit.offset, data); }
    StoreOkBytes(s.(vam := hit.vam), t.bytes);
  }

  lemma LookupAvail(s: Store, k: u64, addr: u64, size: u64)
    requires StoreOk(s) && Addressable(s, k, addr, size) && LookupOf(s.vam, addr, size, false).Some?
    ensures LookupOf(s.vam, addr, size, false).value.avail == s.vam.ivs[k].end - addr + 1
  {
    hide Tiled, Disjoint, CellsOk, SystemCells, FirstTouch, AllocOffset;
    LookupFindsWithin(s.vam, k, addr, size);
    AvailFits(s, k, addr);
  }

  lemma WriteReaches(s: Store, k: u64, addr: u64, size: u64, data: seq<byte>)
    requires StoreOk(s) && Addressable(s, k, addr, size) && FitsAt(s, addr, size)
    requires |data| <= Reach(s, k, addr, size)
    ensures WriteOf(s, addr, size, data).1 == Success
    ensures forall x :: WriteSeen(s, WriteOf(s, addr, size, data).0, addr, size, data, x)
  {
    hide StoreOk, WriteOf, Mem, SameOutside;
    if |data| <= size {
      WriteWithin(s, k, addr, size, data);
    } else {
      var n := |data|;
      LookupWider(s, k, addr, size, n);
      assert WriteOf(s, addr, size, data) == WriteOf(s, addr, n, data) by { WriteWider(s, addr, size, n, data); }
      WriteWithin(s, k, addr, n, data);
      var t := WriteOf(s, addr, size, data).0;
      forall x ensures WriteSeen(s, t, addr, size, data, x) {
        assert WriteSeen(s, t, addr, n, data, x);
      }
    }
  }

  /** In a mapped interval a lookup does not depend on how much of it is asked for. */
  lemma LookupWider(s: Store, k: u64, addr: u64, size: u64, n: int)
    requires StoreOk(s) && Addressable(s, k, addr, size) && s.vam.ivs[k].value != UNMAPPED
    requires size <= n <= s.vam.ivs[k].end - addr + 1
    ensures n < U64_LIMIT && Addressable(s, k, addr, n) && FitsAt(s, addr, n)
    ensures LookupOf(s.vam, addr, n, false) == LookupOf(s.vam, addr, size, false)
  {
    hide Tiled, Disjoint, SystemCells, FirstTouch, AllocOffset;
    assert InCell(k, s.vam.ivs[k].end, k / CELL);
    LookupFindsWithin(s.vam, k, addr, size);
  }

  lemma WriteWider(s: Store, addr: u64, size: u64, n: u64, data: seq<byte>)
    requires LookupOf(s.vam, addr, n, false) == LookupOf(s.vam, addr, size, false)
    ensures WriteOf(s, addr, size, data) == WriteOf(s, addr, n, data)
  {
  }

  // ------------------------------------------- first touches, wherever they start

  /**
   A first touch anywhere in the interval leaves what one at its start does, up to the
   high-water address; only the offset returned differs.
   */
  lemma TouchAnywhere(s: Store, k: u64, addr: u64, size: u64)
    requires StoreOk(s) && ClientRange(s, k, addr, size) && s.vam.ivs[k].value == UNMAPPED
    ensures LookupOf(s.vam, addr, size, false).Some? && LookupOf(s.vam, k, size, false).Some?
    ensures var hit, first := LookupOf(s.vam, addr, size, false).value, LookupOf(s.vam, k, size, false).value;
      && hit.vam == first.vam.(maxAddr := hit.vam.maxAddr)
      && first.offset == AllocOffset(s.vam, addr, size).1 && hit.offset == Add64(first.offset, addr - k)
      && hit.avail == s.vam.ivs[k].end - addr + 1
  {
    hide Tiled, Disjoint, CellsOk, SystemCells, FirstTouch, AllocOffset, EndOffset, Add64, SizeOf;
    SameAtStart(s.vam, k, addr, size);
    Add64Zero(AllocOffset(s.vam, addr, size).1);
    LookupFindsWithin(s.vam, k, addr, size);
    LookupFindsWithin(s.vam, k, k, size);
    EndOffsetExact(addr, size);
    EndOffsetExact(k, size);
    AvailFits(s, k, addr);
  }

  lemma Add64Zero(a: u64)
    ensures Add64(a, 0) == a
  {
  }

  lemma MaxAddrFree(s: Store, w: Vam, a: u64, b: seq<byte>)
    requires StoreOk(s.(vam := w)) && |b| == |s.bytes|
    ensures StoreOk(s.(vam := w.(maxAddr := a), bytes := b))
  {
  }

  /** The store between a first touch and the copy. */
  ghost function Touched(s: Store, addr: u64, size: u64): Store {
    match LookupOf(s.vam, addr, size, false)
    case None => s
    case Some(hit) => s.(vam := hit.vam)
  }

  lemma TouchedKeeps(s: Store, k: u64, addr: u64, size: u64)
    requires StoreOk(s) && ClientRange(s, k, addr, size) && FitsAt(s, addr, size) && s.vam.ivs[k].value == UNMAPPED
    ensures var u := Touched(s, addr, size);
      && StoreOk(u) && u.meta == s.meta && u.bytes == s.bytes && SameOutside(s.vam.ivs, u.vam.ivs, k / CELL)
      && META_SIZE <= AllocOffset(s.vam, addr, size).1 && AllocOffset(s.vam, addr, size).1 + size <= |s.bytes|
    ensures forall x :: Translate(Touched(s, addr, size).vam.ivs, x) ==
                        if k <= x < k + size then Some(AllocOffset(s.vam, addr, size).1 + (x - k))
                        else Translate(s.vam.ivs, x)
    ensures forall x :: if k <= x < k + size then Mem(Touched(s, addr, size), x).Some? && Mem(s, x).None?
                        else Mem(Touched(s, addr, size), x) == Mem(s, x)
  {
    hide Tiled, Disjoint, CellsOk, SystemCells, LookupOf, AllocOffset, Translate, SameOutside;
    TouchAnywhere(s, k, addr, size);
    FitsAtStart(s, k, addr, size);
    LookupKeepsStore(s, k, k, size, false);
    var first, hit := LookupOf(s.vam, k, size, false).value, LookupOf(s.vam, addr, size, false).value;
    MaxAddrFree(s, first.vam, hit.vam.maxAddr, s.bytes);
    FileBounds(s.(vam := first.vam));
    var u := Touched(s, addr, size);
    SameAtStart(s.vam, k, addr, size);
    LookupFindsWithin(s.vam, k, k, size);
    forall x ensures Translate(u.vam.ivs, x) ==
        if k <= x < k + size then Some(AllocOffset(s.vam, addr, size).1 + (x - k)) else Translate(s.vam.ivs, x)
    {
      LookupStable(s.vam, k, size, false, x);
    }
    forall x ensures if k <= x < k + size then Mem(u, x).Some? && Mem(s, x).None? else Mem(u, x) == Mem(s, x) {
      LookupMem(s, k, k, size, x);
      if k <= x < k + size { UnmappedUnseen(s, k, x); }
    }
  }

  lemma SameAtStart(v: Vam, k: u64, addr: u64, size: u64)
    ensures AllocOffset(v, k, size).1 == AllocOffset(v, addr, size).1
    ensures var w := AllocOffset(v, addr, size).0; w == AllocOffset(v, k, size).0.(maxAddr := w.maxAddr)
  {
  }

  lemma FitsAtStart(s: Store, k: u64, addr: u64, size: u64)
    requires StoreOk(s) && ClientRange(s, k, addr, size) && FitsAt(s, addr, size)
    ensures FitsAt(s, k, size) && (s.vam.ivs[k].value == UNMAPPED ==> Fits(s, size) && Addressable(s, k, k, size))
  {
    hide Tiled, Disjoint, CellsOk, SystemCells;
    LookupFindsWithin(s.vam, k, addr, size);
    LookupFindsWithin(s.vam, k, k, size);
  }

  lemma UnmappedUnseen(s: Store, k: u64, x: int)
    requires StoreOk(s) && k in s.vam.ivs && s.vam.ivs[k].value == UNMAPPED && k <= x <= s.vam.ivs[k].end
    ensures Translate(s.vam.ivs, x) == None && Mem(s, x) == None
  {
    hide Tiled, Disjoint, CellsOk, SystemCells, Translate;
    assert Covers(s.vam.ivs, k, x);
    TranslateIn(s.vam.ivs, k, x);
  }

  /** What a write comes to once the lookup has been made. */
  lemma TouchWrite(s: Store, k: u64, addr: u64, size: u64, data: seq<byte>)
    requires StoreOk(s) && ClientRange(s, k, addr, size) && s.vam.ivs[k].value == UNMAPPED
    ensures var u, off := Touched(s, addr, size), Add64(AllocOffset(s.vam, addr, size).1, addr - k);
      WriteOf(s, addr, size, data) ==
      if s.vam.ivs[k].end - addr + 1 < |data| || off == 0 || |s.bytes| < off + |data| then (u, Thrown)
      else (u.(bytes := Splat(s.bytes, off, data)), Success)
  {
    hide StoreOk, LookupOf, AllocOffset;
    TouchAnywhere(s, k, addr, size);
  }

  lemma WriteTouching(s: Store, k: u64, addr: u64, size: u64, data: seq<byte>)
    requires StoreOk(s) && ClientRange(s, k, addr, size) && FitsAt(s, addr, size) && s.vam.ivs[k].value == UNMAPPED
    ensures var (t, r) := WriteOf(s, addr, size, data);
      && StoreOk(t) && t.meta == s.meta && |t.bytes| == |s.bytes|
      && SameOutside(s.vam.ivs, t.vam.ivs, k / CELL)
      && (|data| <= Reach(s, k, addr, size) ==> r == Success && SameHeader(s.bytes, t.bytes))
      && (r == Success ==> |data| <= s.vam.ivs[k].end - addr + 1)
      && (r != Success ==> r == Thrown && t.bytes == s.bytes)
    ensures |data| <= Reach(s, k, addr, size) ==>
              forall x :: TouchSeen(s, WriteOf(s, addr, size, data).0, k, size, addr, data, x)
  {
    hide StoreOk, WriteOf, Mem, SameOutside, LookupOf, Touched, AllocOffset, Translate;
    TouchedKeeps(s, k, addr, size);
    TouchWrite(s, k, addr, size, data);
    var u := Touched(s, addr, size);
    var off := AllocOffset(s.vam, addr, size).1;
    var (t, r) := WriteOf(s, addr, size, data);
    StoreOkBytes(u, t.bytes);
    if |data| <= Reach(s, k, addr, size) {
      Add64Exact(off, addr - k);
      SplatAt(s.bytes, off + (addr - k), data);
      forall x ensures TouchSeen(s, t, k, size, addr, data, x) {
        SplatMem(u, addr, off + (addr - k), data, x);
      }
    }
  }

  /** A byte past what the first touch mapped is not seen, wherever it was copied to. */
  lemma StrayNotSeen(s: Store, k: u64, addr: u64, size: u64, data: seq<byte>)
    requires StoreOk(s) && ClientRange(s, k, addr, size) && FitsAt(s, addr, size) && data != []
    requires |data| > Reach(s, k, addr, size) && WriteOf(s, addr, size, data).1 == Success
    ensures !Seen(WriteOf(s, addr, size, data).0, addr, data)
  {
    hide StoreOk, WriteOf, AllocOffset, Mem, SameOutside, SameHeader;
    if s.vam.ivs[k].value == UNMAPPED {
      WriteTouching(s, k, addr, size, data);
      var i := if k + size <= addr then 0 else k + size - addr;
      StrayUnseen(s, k, addr, size, data, i);
      assert Mem(WriteOf(s, addr, size, data).0, addr + i) != Some(data[i]);
    } else {
      WriteMapped(s, k, addr, size, data);
    }
  }

  lemma StrayUnseen(s: Store, k: u64, addr: u64, size: u64, data: seq<byte>, i: nat)
    requires StoreOk(s) && ClientRange(s, k, addr, size) && FitsAt(s, addr, size) && s.vam.ivs[k].value == UNMAPPED
    requires k + size <= addr + i <= s.vam.ivs[k].end
    ensures Mem(WriteOf(s, addr, size, data).0, addr + i) == None
  {
    hide StoreOk, WriteOf, Touched, AllocOffset, Translate, SameOutside;
    TouchedKeeps(s, k, addr, size);
    TouchWrite(s, k, addr, size, data);
    UnmappedUnseen(s, k, addr + i);
  }

  /** It lands on whatever has its place in the file. */
  lemma StrayHits(s: Store, k: u64, addr: u64, size: u64, data: seq<byte>, i: nat, j: u64)
    requires StoreOk(s) && ClientRange(s, k, addr, size) && FitsAt(s, addr, size) && s.vam.ivs[k].value == UNMAPPED
    requires i < |data| && WriteOf(s, addr, size, data).1 == Success
    requires j in s.vam.ivs && j != k && s.vam.ivs[j].value == Add64(AllocOffset(s.vam, addr, size).1, addr - k) + i
    ensures Mem(WriteOf(s, addr, size, data).0, j) == Some(data[i])
  {
    hide LookupOf, Touched, AllocOffset, Translate, SameOutside, CellsOk, SystemCells, Tiled, Disjoint;
    TouchedKeeps(s, k, addr, size);
    TouchWrite(s, k, addr, size, data);
    OutsideRange(s.vam.ivs, k, size, j);
    TranslateIn(s.vam.ivs, j, j);
    FileBounds(s);
    SplatAt(s.bytes, Add64(AllocOffset(s.vam, addr, size).1, addr - k), data);
  }

  lemma OutsideRange(m: Intervals<u64>, k: u64, size: u64, j: u64)
    requires Disjoint(m) && Within(m, k, k, size) && j in m && j != k
    ensures Covers(m, j, j) && !(k <= j < k + size)
  {
  }

  // ------------------------------------------------------- two writes that stray

  /**
   A file with a static section of 8 bytes. Three addresses of 100, 10 and 10 bytes were
   handed out, the last two written and the first of those erased: its block is free
   again, in front of the last one's.
   */
  ghost function CrowdedStore(): Store {
    Store(Meta(MAGIC, 6, 0, 0, MAP_ADDR, Addr(3 * CELL, 8)),
          Vam(map[HEADER := Interval(HEADER + 55, 0), 3 * CELL := Interval(3 * CELL + 7, 56),
                  4 * CELL := Interval(4 * CELL + 99, UNMAPPED),
                  5 * CELL := Interval(5 * CELL + 9, UNMAPPED), 6 * CELL := Interval(6 * CELL + 9, 74)],
              [Node(10, 64)], 6 * CELL + 10, 84),
          seq<byte>(200, _ => 0))
  }

  lemma CrowdedOk()
    ensures StoreOk(CrowdedStore())
  {
    hide Tiled, Canonical, CellsOk, SystemCells;
    CrowdedTiled();
    CrowdedCanonical();
    CrowdedCells();
  }

  lemma CrowdedQuotients()
    ensures HEADER / CELL == 2 && (3 * CELL) / CELL == 3 && (4 * CELL) / CELL == 4
    ensures (5 * CELL) / CELL == 5 && (6 * CELL) / CELL == 6
  {
  }

  lemma CrowdedCanonical()
    ensures Canonical(CrowdedStore().vam.ivs)
  {
    hide CellsOk, Canonical, SystemCells;
    CrowdedCells();
    CrowdedQuotients();
    AloneCanonical(CrowdedStore().vam.ivs, 6);
  }

  lemma CrowdedCells()
    ensures CellsOk(CrowdedStore().vam.ivs, 6) && SystemCells(CrowdedStore().vam.ivs)
  {
    CrowdedQuotients();
  }

  lemma CrowdedTiled()
    ensures var v := CrowdedStore().vam; Tiled(Mapped(v.ivs), multiset(v.free), v.maxOff)
  {
    hide Tiled;
    CrowdedMapped();
    assert Tiled(map[], multiset{}, 0) by { EmptyTiled(); }
    AppendRun(map[], multiset{}, 0, HEADER, 56);
    var mp := map[HEADER := Interval(HEADER + 55, 0)];
    AppendRun(mp, multiset{}, 56, 3 * CELL, 8);
    mp := mp[3 * CELL := Interval(3 * CELL + 7, 56)];
    ExtendFile(mp, multiset{}, 64, Node(10, 64));
    assert multiset{} + multiset{Node(10, 64)} == multiset{Node(10, 64)};
    AppendRun(mp, multiset{Node(10, 64)}, 74, 6 * CELL, 10);
  }

  lemma CrowdedMapped()
    ensures Mapped(CrowdedStore().vam.ivs) ==
            map[HEADER := Interval(HEADER + 55, 0), 3 * CELL := Interval(3 * CELL + 7, 56),
                6 * CELL := Interval(6 * CELL + 9, 74)]
    ensures multiset(CrowdedStore().vam.free) == multiset{Node(10, 64)}
  {
    CrowdedQuotients();
  }

  lemma CrowdedByte()
    ensures Mem(CrowdedStore(), 6 * CELL) == Some(0)
  {
    hide StoreOk, Translate;
    var s := CrowdedStore();
    CrowdedOk();
    StoreVam(s);
    assert Covers(s.vam.ivs, 6 * CELL, 6 * CELL);
    TranslateIn(s.vam.ivs, 6 * CELL, 6 * CELL);
  }

  lemma CrowdedTouch(addr: u64, data: seq<byte>)
    requires 4 * CELL <= addr <= 4 * CELL + 90 && 0 < |data| <= 50
    ensures var s := CrowdedStore();
      && StoreOk(s) && ClientRange(s, 4 * CELL, addr, 10) && FitsAt(s, addr, 10)
      && AllocOffset(s.vam, addr, 10).1 == 64
  {
    hide StoreOk, Tiled, Disjoint, FirstTouch;
    CrowdedOk();
    StoreVam(CrowdedStore());
    CrowdedQuotients();
    LookupFindsWithin(CrowdedStore().vam, 4 * CELL, addr, 10);
  }

  /** Fifty bytes written to the first ten of the first address are accepted and overwrite the last address. */
  lemma OverlongExample()
    ensures var s := CrowdedStore();
      var (t, r) := WriteOf(s, 4 * CELL, 10, seq<byte>(50, _ => 1));
      r == Success && Mem(s, 6 * CELL) == Some(0) && Mem(t, 6 * CELL) == Some(1)
  {
    hide StoreOk, Tiled, Disjoint, AllocOffset, Mem, Translate, LookupOf, WriteOf;
    var s, data := CrowdedStore(), seq<byte>(50, _ => 1);
    CrowdedTouch(4 * CELL, data);
    CrowdedByte();
    TouchWrite(s, 4 * CELL, 4 * CELL, 10, data);
    StrayHits(s, 4 * CELL, 4 * CELL, 10, data, 10, 6 * CELL);
  }

  /** Ten bytes written to the second ten of the first address are accepted and overwrite the last address. */
  lemma MiddleWriteExample()
    ensures var s := CrowdedStore();
      var (t, r) := WriteOf(s, 4 * CELL + 10, 10, seq<byte>(10, _ => 1));
      r == Success && Mem(s, 6 * CELL) == Some(0) && Mem(t, 6 * CELL) == Some(1)
  {
    hide StoreOk, Tiled, Disjoint, AllocOffset, Mem, Translate, LookupOf, WriteOf;
    var s, data := CrowdedStore(), seq<byte>(10, _ => 1);
    CrowdedTouch(4 * CELL + 10, data);
    CrowdedByte();
    TouchWrite(s, 4 * CELL, 4 * CELL + 10, 10, data);
    StrayHits(s, 4 * CELL, 4 * CELL + 10, 10, data, 0, 6 * CELL);
  }

  // --------------------------------------------------------------------- read

  /** `readb`, and `read` into a buffer that is large enough. */
  ghost function ReadbOf(s: Store, addr: u64, size: u64): Option<seq<byte>> {
    match LookupOf(s.vam, addr, size, true)
    case None => None
    case Some(hit) =>
      if hit.avail < size || hit.offset == 0 || |s.bytes| < hit.offset + size then None
      else Some(s.bytes[hit.offset..hit.offset + size])
  }

  /** `read`: also asks that the range reaches to the end of its interval. */
  ghost function ReadOf(s: Store, addr: u64, size: u64): Option<seq<byte>> {
    match LookupOf(s.vam, addr, size, true)
    case None => None
    case Some(hit) =>
      if hit.avail > size || hit.offset == 0 || |s.bytes| < hit.offset + size then None
      else Some(s.bytes[hit.offset..hit.offset + size])
  }

  /** The bytes `d` are what a client sees from `addr` on. */
  ghost predicate Seen(s: Store, addr: u64, d: seq<byte>) {
    forall i :: 0 <= i < |d| ==> Mem(s, addr + i) == Some(d[i])
  }

  /**
   `readb` answers exactly when the whole range is mapped, and then with the bytes that
   are there. `read` also asks that the range ends where its interval ends.
   */
  lemma ReadMeaning(s: Store, k: u64, addr: u64, size: u64)
    requires StoreOk(s) && ClientRange(s, k, addr, size)
    ensures ReadbOf(s, addr, size).Some? <==> s.vam.ivs[k].value != UNMAPPED
    ensures ReadbOf(s, addr, size).Some? ==> |ReadbOf(s, addr, size).value| == size
    ensures ReadbOf(s, addr, size).Some? ==> Seen(s, addr, ReadbOf(s, addr, size).value)
    ensures ReadOf(s, addr, size).Some? <==> s.vam.ivs[k].value != UNMAPPED && s.vam.ivs[k].end == addr + size - 1
    ensures ReadOf(s, addr, size).Some? ==> ReadOf(s, addr, size) == ReadbOf(s, addr, size)
  {
    hide StoreOk, Translate, Mem, FirstTouch, AllocOffset;
    FileBounds(s);
    StoreVam(s);
    LookupFindsWithin(s.vam, k, addr, size);
    if s.vam.ivs[k].value != UNMAPPED {
      AvailFits(s, k, addr);
      MappedKeepsStore(s, k, addr, size, true);
      var hit := LookupOf(s.vam, addr, size, true).value;
      var d := s.bytes[hit.offset..hit.offset + size];
      forall i | 0 <= i < |d| ensures Mem(s, addr + i) == Some(d[i]) {
        ReadByte(s, k, addr, size, i);
      }
    }
  }

  /** A range that no interval holds whole, and an empty one, is refused, and nothing changes. */
  lemma Unanswered(s: Store, addr: u64, size: u64, data: seq<byte>)
    requires Disjoint(s.vam.ivs) && (size == 0 || IsRange(addr, size))
    requires size == 0 || forall k: u64 :: !Within(s.vam.ivs, k, addr, size)
    ensures WriteOf(s, addr, size, data) == (s, Thrown) && WritebOf(s, addr, size) == (s, None)
    ensures ReadOf(s, addr, size) == None && ReadbOf(s, addr, size) == None
  {
    hide Disjoint, AllocOffset, FirstTouch;
    if size != 0 {
      LookupAnswers(s.vam, addr, size, false);
      LookupAnswers(s.vam, addr, size, true);
    }
  }

  /**
   The header's own range: what starts at its first byte is refused, because its offset
   is 0; what starts behind it is not.
   */
  lemma HeaderGuard(s: Store, addr: u64, size: u64, data: seq<byte>)
    requires StoreOk(s) && 0 < size && HEADER <= addr && addr + size <= HEADER + META_SIZE
    ensures WriteOf(s, addr, size, data).1 == Success <==> addr != HEADER && addr + |data| <= HEADER + META_SIZE
    ensures WriteOf(s, addr, size, data).1 != Success ==> WriteOf(s, addr, size, data) == (s, Thrown)
    ensures WritebOf(s, addr, size) == (s, if addr == HEADER then None else Some(addr - HEADER))
    ensures ReadbOf(s, addr, size).Some? <==> addr != HEADER
    ensures ReadOf(s, addr, size).Some? <==> addr != HEADER && addr + size == HEADER + META_SIZE
  {
    FileBounds(s);
    HeaderFound(s, addr, size);
    hide StoreOk, LookupOf, Splat;
  }

  lemma HeaderFound(s: Store, addr: u64, size: u64)
    requires StoreOk(s) && 0 < size && HEADER <= addr && addr + size <= HEADER + META_SIZE
    ensures forall readOnly :: LookupOf(s.vam, addr, size, readOnly) ==
                               Some(Hit(s.vam, addr - HEADER, HEADER + META_SIZE - addr))
  {
    hide Tiled, Disjoint, CellsOk, SystemCells, FirstTouch, AllocOffset;
    assert Within(s.vam.ivs, HEADER, addr, size);
    LookupFindsWithin(s.vam, HEADER, addr, size);
    EndOffsetExact(addr, size);
  }

  lemma ReadByte(s: Store, k: u64, addr: u64, size: u64, i: nat)
    requires StoreOk(s) && Addressable(s, k, addr, size) && s.vam.ivs[k].value != UNMAPPED && i < size
    requires LookupOf(s.vam, addr, size, true).Some?
    requires LookupOf(s.vam, addr, size, true).value.offset + size <= |s.bytes|
    ensures Mem(s, addr + i) == Some(s.bytes[LookupOf(s.vam, addr, size, true).value.offset + i])
  {
    hide Translate, Tiled, Disjoint, CellsOk;
    LookupFindsWithin(s.vam, k, addr, size);
    assert Covers(s.vam.ivs, k, addr + i);
    TranslateIn(s.vam.ivs, k, addr + i);
    MappedOffsetExact(s.vam, k, addr);
  }

  lemma StoreVam(s: Store)
    requires StoreOk(s)
    ensures VamOk(s.vam)
  {
  }

  lemma StoreBounds(s: Store)
    requires StoreOk(s)
    ensures 2 <= s.meta.highBits
  {
  }

  // -------------------------------------------------------------------- erase

  ghost function EraseOf(s: Store, addr: u64, size: u64): (Store, Result)
    requires size != 0
  {
    var (w, r) := DelOf(s.vam, addr, size);
    (s.(vam := w), r)
  }

  /** The same on any intervals and any range; an empty one throws. */
  ghost function EraseAny(s: Store, addr: u64, size: u64): (Store, Result) {
    if size == 0 then (s, Thrown)
    else
      var (w, r) := DelAnyOf(s.vam, addr, size);
      (s.(vam := w), r)
  }

  lemma EraseAnyIs(s: Store, addr: u64, size: u64)
    requires Disjoint(s.vam.ivs) && IsRange(addr, size)
    ensures EraseAny(s, addr, size) == EraseOf(s, addr, size) && EraseOf(s, addr, size).1 != Thrown
    ensures Disjoint(EraseOf(s, addr, size).0.vam.ivs)
  {
    DelNeverThrows(s.vam, addr, size);
    hide DelAnyOf, AnyFrees, AddFreed, CallsOf, Assign, Disjoint;
    DelAnyIsDel(s.vam, addr, size);
    EndOffsetExact(addr, size);
    AssignDisjoint(s.vam.ivs, addr, EndOffset(addr, size), UNMAPPED);
  }

  /** Erasing whole mapped intervals of a client cell takes their bytes away and leaves all others. */
  lemma EraseMeaning(s: Store, addr: u64, size: u64)
    requires StoreOk(s) && IsRange(addr, size) && 3 <= addr / CELL <= s.meta.highBits
    requires InCell(addr, addr + size - 1, addr / CELL)
    requires At(s.vam.ivs, addr).None? || WholeMapped(s.vam.ivs, addr, EndOffset(addr, size))
    ensures var (t, r) := EraseOf(s, addr, size);
      && StoreOk(t) && t.meta == s.meta && t.bytes == s.bytes
      && SameOutside(s.vam.ivs, t.vam.ivs, addr / CELL)
      && (r == Success <==>
          At(s.vam.ivs, addr).Some? && MeetsAnyMapped(s.vam.ivs, addr, EndOffset(addr, size)))
      && (r != Success ==> r == Failure && t == s)
      && (r == Success ==> forall x :: Mem(t, x) == if addr <= x < addr + size then None else Mem(s, x))
  {
    hide Tiled, DelOf, Translate, Disjoint, At, CellsOk, SystemCells, SameOutside, WholeMapped, Assign;
    var (t, r) := EraseOf(s, addr, size);
    DelSucceedsIff(s.vam, addr, size);
    DelWholeKeepsTiling(s.vam, addr, size);
    DelConfined(s, addr, size);
    if r == Success {
      forall x ensures Mem(t, x) == if addr <= x < addr + size then None else Mem(s, x) {
        DelTranslates(s.vam, addr, size, x);
      }
    }
  }

  lemma DelConfined(s: Store, addr: u64, size: u64)
    requires StoreOk(s) && IsRange(addr, size) && 3 <= addr / CELL <= s.meta.highBits
    requires InCell(addr, addr + size - 1, addr / CELL)
    ensures var w := DelOf(s.vam, addr, size).0;
      && w.maxOff == s.vam.maxOff
      && CellsOk(w.ivs, s.meta.highBits) && SameOutside(s.vam.ivs, w.ivs, addr / CELL)
      && HeaderMapped(w.ivs) && SystemCells(w.ivs)
  {
    hide Tiled, Assign, AnyFrees, AddFreed, CallsOf, Disjoint, CellsOk, SystemCells, HeaderMapped;
    var e := EndOffset(addr, size);
    assert e == addr + size - 1;
    AssignConfined(s.vam.ivs, addr, e, UNMAPPED, addr / CELL, s.meta.highBits);
    SystemCellsKept(s.vam.ivs, Assign(s.vam.ivs, addr, e, UNMAPPED), addr / CELL);
  }

  // ----------------------------------------------------------------- allocate

  /** `get_random_address`. */
  ghost function AllocAddrOf(s: Store, size: u64): (Store, Addr)
    requires size != 0
  {
    var h := Inc(s.meta.highBits);
    var addr := AddressOf(h);
    (s.(meta := s.meta.(highBits := h), vam := AllocUnmappedOf(s.vam, addr, size)), Addr(addr, size))
  }

  /** The same for any size; `None` where the source throws. */
  ghost function AllocAddrAny(s: Store, size: u64): (r: (Store, Option<Addr>))
    ensures r.1.Some? ==> r.1.value.size == size
  {
    var h := Inc(s.meta.highBits);
    var addr := AddressOf(h);
    var (w, r) := AllocUnmappedAny(s.vam, addr, size);
    (s.(meta := s.meta.(highBits := h), vam := w), if r == Thrown then None else Some(Addr(addr, size)))
  }

  lemma AllocAddrAnyIs(s: Store, size: u64)
    requires Disjoint(s.vam.ivs) && IsRange(AddressOf(Inc(s.meta.highBits)), size)
    ensures var (t, a) := AllocAddrOf(s, size); AllocAddrAny(s, size) == (t, Some(a))
  {
    hide AllocUnmappedAny, AllocUnmappedOf, AddressOf, Inc;
    AllocUnmappedAnyIs(s.vam, AddressOf(Inc(s.meta.highBits)), size);
  }

  /** A fresh address opens a cell of its own: one unmapped interval is added, and no byte is seen to change. */
  lemma AllocAddrMeaning(s: Store, size: u64)
    requires StoreOk(s) && 0 < size < CELL && s.meta.highBits + 1 < CELLS
    ensures var (t, a) := AllocAddrOf(s, size);
      && a == Addr((s.meta.highBits + 1) * CELL, size)
      && t.meta == s.meta.(highBits := s.meta.highBits + 1)
      && StoreOk(t) && t.bytes == s.bytes
      && t.vam == s.vam.(ivs := s.vam.ivs[a.addr := Interval(a.addr + size - 1, UNMAPPED)])
      && a.addr !in s.vam.ivs
      && (forall x :: Mem(t, x) == Mem(s, x))
  {
    hide Tiled, Mem, Disjoint, SystemCells, HeaderMapped, AllocUnmappedOf, CellsOk;
    var (t, a) := AllocAddrOf(s, size);
    NewCell(s, size);
    NewCellAssigned(s, size);
    AllocUnmappedKeepsTiling(s.vam, a.addr, size);
    forall x ensures Mem(t, x) == Mem(s, x) {
      SameMappedMem(s, t, x);
    }
  }

  lemma NewCellAssigned(s: Store, size: u64)
    requires StoreOk(s) && 0 < size < CELL && s.meta.highBits + 1 < CELLS
    ensures var a := (s.meta.highBits + 1) * CELL;
      && AddressOf(Inc(s.meta.highBits)) == a && EndOffset(a, size) == a + size - 1
      && AllocUnmappedOf(s.vam, a, size) == s.vam.(ivs := s.vam.ivs[a := Interval(a + size - 1, UNMAPPED)])
  {
    hide Tiled, Assign, Disjoint, SystemCells, HeaderMapped;
    var c := s.meta.highBits + 1;
    AssignFresh(s.vam.ivs, c * CELL, c * CELL + size - 1, UNMAPPED, c, s.meta.highBits);
  }

  lemma SameMappedMem(s: Store, t: Store, x: int)
    requires Disjoint(s.vam.ivs) && Disjoint(t.vam.ivs) && Mapped(s.vam.ivs) == Mapped(t.vam.ivs) && s.bytes == t.bytes
    ensures Mem(t, x) == Mem(s, x)
  {
    hide Translate, Disjoint;
    SameMappedTranslate(s.vam.ivs, t.vam.ivs, x);
  }

  lemma SameMappedTranslate(m: Intervals<u64>, n: Intervals<u64>, x: int)
    requires Disjoint(m) && Disjoint(n) && Mapped(m) == Mapped(n)
    ensures Translate(m, x) == Translate(n, x)
  {
    forall k: u64 | MapsAt(m, k, x) ensures k in n && n[k] == m[k] { assert k in Mapped(m); }
    forall k: u64 | MapsAt(n, k, x) ensures k in m && m[k] == n[k] { assert k in Mapped(n); }
    TranslateMapped(m, n, x);
  }

  lemma NewCell(s: Store, size: u64)
    requires StoreOk(s) && 0 < size < CELL && s.meta.highBits + 1 < CELLS
    ensures var a := (s.meta.highBits + 1) * CELL;
      && a + size <= U64_LIMIT && a !in s.vam.ivs
      && NoneMapped(s.vam.ivs, a, a + size - 1)
      && CellsOk(s.vam.ivs[a := Interval(a + size - 1, UNMAPPED)], s.meta.highBits + 1)
      && HeaderMapped(s.vam.ivs[a := Interval(a + size - 1, UNMAPPED)])
      && SystemCells(s.vam.ivs[a := Interval(a + size - 1, UNMAPPED)])
  {
    hide Disjoint, Tiled;
    var c := s.meta.highBits + 1;
    var a: u64 := c * CELL;
    CellOf(a, c);
    forall k: u64 | k in s.vam.ivs ensures s.vam.ivs[k].end < a && k / CELL != c {
      assert InCell(k, s.vam.ivs[k].end, k / CELL);
    }
  }
}
